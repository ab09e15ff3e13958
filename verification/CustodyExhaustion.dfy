/**
 The last authority generation is reached by a run, and one more recovery there splits the store:
 memory answers to the new credential and the disk to the old one, while the caller got an error.
 */
module CustodyExhaustion {
  import opened Wrappers
  import opened Decimal
  import opened Custody
  import opened CustodyTheorems

  const KEY: string := "01234567890123456789012345678901"
  const SECRET: Secret := Secret(KEY, KEY, KEY)
  const SOME_NONCE: Nonce := "------------------------"

  /** The n-th recovery: a credential named by its number. */
  function RecoveryCommand(n: nat): Command {
    Replace(Unlocked("w", KEY, KEY, KEY, ImportedSecp256k1Scalar, None), Dec(n), KEY, "r", KEY, i => SOME_NONCE, true)
  }

  function RecoveryCommands(n: nat): (commands: seq<Command>)
    ensures forall c :: c in commands ==> InRange(c)
  {
    if n == 0 then [] else RecoveryCommands(n - 1) + [RecoveryCommand(n - 1)]
  }

  function Start(): Table { FirstTable("first", KEY) }

  lemma {:induction false} RunTableSnoc(t: Table, commands: seq<Command>, c: Command)
    ensures RunTable(SECRET, true, t, commands + [c]) == StepTable(SECRET, true, RunTable(SECRET, true, t, commands), c)
    ensures NeverExhausts(SECRET, true, t, commands + [c])
            <==> NeverExhausts(SECRET, true, t, commands) && !Exhausts(SECRET, RunTable(SECRET, true, t, commands), c)
    decreases |commands|
  {
    if commands == [] {
      assert [] + [c] == [c] && [c][1..] == [];
    } else {
      assert (commands + [c])[1..] == commands[1..] + [c] && (commands + [c])[0] == commands[0];
      RunTableSnoc(StepTable(SECRET, true, t, commands[0]), commands[1..], c);
    }
  }

  predicate Named(x: string, n: nat) { x == "first" || exists i: nat :: i < n && x == Dec(i) }

  /** Every recovery below the last generation goes through. */
  lemma {:induction false} ReachesGeneration(n: nat)
    requires n <= LAST_GENERATION
    ensures var t := RunTable(SECRET, true, Start(), RecoveryCommands(n));
            t.generation == n && forall x :: Known(t, x) ==> Named(x, n)
    ensures NeverExhausts(SECRET, true, Start(), RecoveryCommands(n))
  {
    if n > 0 {
      ReachesGeneration(n - 1);
      RunTableSnoc(Start(), RecoveryCommands(n - 1), RecoveryCommand(n - 1));
      RecoveryStep(RunTable(SECRET, true, Start(), RecoveryCommands(n - 1)), n - 1);
    }
  }

  lemma RecoveryStep(t: Table, n: nat)
    requires t.generation == n < LAST_GENERATION && forall x :: Known(t, x) ==> Named(x, n)
    ensures var t' := StepTable(SECRET, true, t, RecoveryCommand(n));
            t'.generation == n + 1 && forall x :: Known(t', x) ==> Named(x, n + 1)
    ensures !Exhausts(SECRET, t, RecoveryCommand(n))
  {
    NewName(n);
    var t' := StepTable(SECRET, true, t, RecoveryCommand(n));
    forall x | Known(t', x) ensures Named(x, n + 1) {
      if Known(t, x) {
        assert Named(x, n);
      }
    }
  }

  lemma NewName(n: nat)
    ensures !Named(Dec(n), n)
  {
    DecIsCanonical(n);
    assert "first"[0] == 'f';
    forall i: nat | i < n ensures Dec(i) != Dec(n) {
      if Dec(i) == Dec(n) {
        DecInjective(i, n);
      }
    }
  }

  lemma OtherGeneration(b: Backup, secret: Secret, t: Table, generation: nat)
    requires Represents(b, secret, t)
    ensures Represents(b.(generation := generation), secret, t.(generation := generation))
  {
    var b': Backup, t' := b.(generation := generation), t.(generation := generation);
    forall i | 0 <= i < |b.wraps| ensures WrapSound(b', secret, t', b'.wraps[i]) {
      assert WrapSound(b, secret, t, b.wraps[i]);
    }
    forall id | Known(t', id) ensures HasId(b'.wraps, id) {
      assert Known(t, id);
    }
  }

  /** Memory takes the recovery, the disk does not, and the caller gets an error. */
  lemma ExhaustionSplitsStore(st: Store, secret: Secret, t: Table, c: Command, old': string)
    requires Healthy(st, secret, t) && st.disk.Some? && Exhausts(secret, t, c) && old' in t.active
    ensures var (st', r) := Execute(st, c);
            && r == Err(GenerationExhausted) && st'.disk == st.disk
            && UnlockWithCredential(st'.memory, c.id, c.key).Ok? && UnlockWithCredential(st'.disk.value, c.id, c.key).Err?
            && UnlockWithCredential(st'.memory, old', t.active[old']).Err? && UnlockWithCredential(st'.disk.value, old', t.active[old']).Ok?
  {
    var b := st.memory;
    KnownIsStored(b, secret, t, c.id);
    ExhaustionStores(st, secret, c);
    ReplaceRepresents(b, secret, t, c);
    OtherGeneration(Replaced(b, secret.wkek, c), secret, Next(t, c), b.generation);
    var m: Backup, t' := Replaced(b, secret.wkek, c).(generation := b.generation), Next(t, c).(generation := b.generation);
    CredentialUnlocksExactly(m, secret, t', c.id, c.key);
    CredentialUnlocksExactly(m, secret, t', old', t.active[old']);
    CredentialUnlocksExactly(b, secret, t, c.id, c.key);
    CredentialUnlocksExactly(b, secret, t, old', t.active[old']);
  }

  function Registered(): Backup {
    RegisterImported("w", SECRET, "first", KEY, i => SOME_NONCE).value
  }

  /** From registration with a file: a run that ends healthy at the last generation, where a recovery splits the store. */
  lemma LastGenerationReached()
    ensures RegisterImported("w", SECRET, "first", KEY, i => SOME_NONCE) == Ok(Registered())
    ensures var st := Run(Store(Registered(), Some(Registered())), RecoveryCommands(LAST_GENERATION));
            var t := RunTable(SECRET, true, Start(), RecoveryCommands(LAST_GENERATION));
            && Healthy(st, SECRET, t) && st.disk.Some? && t.generation == LAST_GENERATION
            && Exhausts(SECRET, t, RecoveryCommand(LAST_GENERATION))
  {
    RegisterRepresents("w", SECRET, "first", KEY, i => SOME_NONCE, Registered());
    ReachesGeneration(LAST_GENERATION);
    NewName(LAST_GENERATION);
    RunRefines(Store(Registered(), Some(Registered())), SECRET, Start(), RecoveryCommands(LAST_GENERATION));
  }
}
