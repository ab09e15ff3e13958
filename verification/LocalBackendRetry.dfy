/**
 Asking for a key again under an operation that is still pending. The allocation's own key comes
 back, unless the root is locked, or another key has since been registered under the same
 operation, which registration does not check.
 */
module LocalBackendRetry {
  import opened Wrappers
  import opened Decimal
  import opened LocalBackend
  import opened LocalBackendTheorems
  import opened LocalBackendAllocation
  import opened LocalBackendActivation

  /** The step registers a new key under the operation. */
  predicate Reregisters(p: Primitives, st: State, c: Command, op: string) {
    && Registers(c) && Entered(p, st, c).Some? && c.op == Some(op)
    && Entered(p, st, c).value.0 !in st.backup.registry && (st.disk.None? || c.persistOk)
  }

  /** A registration is the one step that changes a pending key without ending its operation. */
  lemma PendingStep(p: Primitives, st: State, c: Command, op: string)
    requires Persisted(st) && op in st.backup.pending && op in Step(p, st, c).backup.pending
    ensures Step(p, st, c).backup.pending[op] == if Reregisters(p, st, c, op) then Entered(p, st, c).value.0 else st.backup.pending[op]
  {
    if Registers(c) {
      RegistrationPending(p, st, c, op);
    } else if c.AllocateCmd? {
      AllocationPending(p, st, c, op);
    } else if LocksOnly(c) {
      LockStep(p, st, c);
    }
  }

  lemma ChildPending(st: State, key: Key, description: Option<Description>, o: Option<string>, persistOk: bool, op: string)
    requires op in st.backup.pending
    ensures var b, b' := st.backup, RegisterChild(st, key, description, o, persistOk).0.backup;
            && op in b'.pending
            && b'.pending[op]
               == if o == Some(op) && key !in b.registry && (st.disk.None? || persistOk) then key else b.pending[op]
  {
  }

  lemma RegistrationPending(p: Primitives, st: State, c: Command, op: string)
    requires Registers(c) && op in st.backup.pending
    ensures op in Step(p, st, c).backup.pending
    ensures Step(p, st, c).backup.pending[op] == if Reregisters(p, st, c, op) then Entered(p, st, c).value.0 else st.backup.pending[op]
  {
    EnteredIsRegistered(p, st, c);
    if Entered(p, st, c).Some? {
      ChildPending(st, Entered(p, st, c).value.0, Entered(p, st, c).value.1, c.op, c.persistOk, op);
    }
  }

  /** An allocation under a pending operation allocates nothing. */
  lemma AllocationPending(p: Primitives, st: State, c: Command, op: string)
    requires c.AllocateCmd? && op in st.backup.pending
    ensures op in Step(p, st, c).backup.pending && Step(p, st, c).backup.pending[op] == st.backup.pending[op]
  {
  }

  /** The operation is pending in every state of the run. */
  predicate PendingThroughout(p: Primitives, st: State, commands: seq<Command>, op: string)
    decreases |commands|
  {
    op in st.backup.pending && (commands != [] ==> PendingThroughout(p, Step(p, st, commands[0]), commands[1..], op))
  }

  predicate ReregisteredSince(p: Primitives, st: State, commands: seq<Command>, op: string)
    decreases |commands|
  {
    commands != [] && (Reregisters(p, st, commands[0], op) || ReregisteredSince(p, Step(p, st, commands[0]), commands[1..], op))
  }

  lemma {:induction false} PendingKept(p: Primitives, st: State, commands: seq<Command>, op: string)
    requires Persisted(st) && PendingThroughout(p, st, commands, op) && !ReregisteredSince(p, st, commands, op)
    ensures op in Run(p, st, commands).backup.pending && Run(p, st, commands).backup.pending[op] == st.backup.pending[op]
    decreases |commands|
  {
    if commands != [] {
      StepKeepsBackend(p, st, commands[0]);
      PendingStep(p, st, commands[0], op);
      PendingKept(p, Step(p, st, commands[0]), commands[1..], op);
    }
  }

  // ---------------------------------------------------------------- used paths

  /** A path that is registered or tombstoned. */
  predicate Used(b: Backup, path: string) { HasPath(b.registry, path) || path in b.tombstones }

  lemma DropKeepsUsed(b: Backup, key: Key, path: string)
    requires key.derivation.Some? && Used(b, path)
    ensures Used(DropKey(b, key, key.derivation.value.path), path)
  {
    if path !in b.tombstones && path != key.derivation.value.path {
      var i :| 0 <= i < |b.registry| && b.registry[i].derivation.Some? && b.registry[i].derivation.value.path == path;
      OthersKept(b.registry, key, b.registry[i]);
      var kept := WithoutKey(b.registry, key);
      var j :| 0 <= j < |kept| && kept[j] == b.registry[i];
      assert kept[j].derivation.value.path == path;
    }
  }

  lemma PushKeepsUsed(b: Backup, b': Backup, key: Key, path: string)
    requires Used(b, path) && b'.registry == b.registry + [key] && b'.tombstones == b.tombstones
    ensures Used(b', path)
  {
    if HasPath(b.registry, path) {
      var i :| 0 <= i < |b.registry| && b.registry[i].derivation.Some? && b.registry[i].derivation.value.path == path;
      assert b'.registry[i] == b.registry[i];
    }
  }

  /** What a step does to registry and tombstones. */
  lemma RegistryStep(p: Primitives, st: State, c: Command)
    requires Persisted(st)
    ensures var b, b' := st.backup, Step(p, st, c).backup;
            || (b'.registry == b.registry && b'.tombstones == b.tombstones)
            || (b'.tombstones == b.tombstones && |b'.registry| == |b.registry| + 1
                && b'.registry == b.registry + [b'.registry[|b.registry|]])
            || (c.TombstoneCmd? && c.key.derivation.Some? && b' == DropKey(b, c.key, c.key.derivation.value.path))
  {
    match c
    case AllocateCmd(parent, id, authority, op, ok) => AllocateRegistry(p, st, parent, id, authority, op, ok);
    case RegisterCmd(_, _, _) => RegisterRegistry(p, st, c);
    case RegisterDescriptionCmd(_, _, _) => RegisterRegistry(p, st, c);
    case ConfigureCmd(_, _, _) =>
    case FinalizeCmd(_, _) =>
    case TombstoneCmd(_, _) =>
    case _ => LockStep(p, st, c);
  }

  lemma RegisterRegistry(p: Primitives, st: State, c: Command)
    requires Registers(c)
    ensures var b, b' := st.backup, Step(p, st, c).backup;
            && b'.tombstones == b.tombstones
            && (b'.registry == b.registry
                || (|b'.registry| == |b.registry| + 1 && b'.registry == b.registry + [b'.registry[|b.registry|]]))
  {
    EnteredIsRegistered(p, st, c);
  }

  lemma AllocateAtRegistry(p: Primitives, st: State, parent: Key, i: nat, op: Option<string>, ok: bool)
    requires i < |st.backup.namespaces|
    ensures var b, b' := st.backup, AllocateAt(p, st, parent, i, op, ok).0.backup;
            && b'.tombstones == b.tombstones
            && (b'.registry == b.registry
                || (|b'.registry| == |b.registry| + 1 && b'.registry == b.registry + [b'.registry[|b.registry|]]))
  {
  }

  lemma AllocateRegistry(p: Primitives, st: State, parent: Key, id: string, authority: Option<string>, op: Option<string>, ok: bool)
    ensures var b, b' := st.backup, Allocate(p, st, parent, id, authority, op, ok).0.backup;
            && b'.tombstones == b.tombstones
            && (b'.registry == b.registry
                || (|b'.registry| == |b.registry| + 1 && b'.registry == b.registry + [b'.registry[|b.registry|]]))
  {
    var found := FindNamespace(st.backup.namespaces, id);
    if found.Some? {
      AllocateAtRegistry(p, st, parent, found.value, op, ok);
    }
  }

  lemma UsedStays(p: Primitives, st: State, c: Command, path: string)
    requires Persisted(st) && Used(st.backup, path)
    ensures Used(Step(p, st, c).backup, path)
  {
    RegistryStep(p, st, c);
    var b, b' := st.backup, Step(p, st, c).backup;
    if c.TombstoneCmd? && c.key.derivation.Some? && b' == DropKey(b, c.key, c.key.derivation.value.path) {
      DropKeepsUsed(b, c.key, path);
    } else if b'.registry != b.registry {
      PushKeepsUsed(b, b', b'.registry[|b.registry|], path);
    }
  }

  /** The operation is pending with a key on another path. */
  predicate PendingElsewhere(st: State, op: string, path: string) {
    op in st.backup.pending && st.backup.pending[op].derivation.Some? && st.backup.pending[op].derivation.value.path != path
  }

  /** After a registration under the operation its pending key stays off the first key's path. */
  lemma {:induction false} PendingMoved(p: Primitives, st: State, commands: seq<Command>, op: string, path: string)
    requires Persisted(st) && AllHonest(p, st, commands) && PendingThroughout(p, st, commands, op) && Used(st.backup, path)
    requires ReregisteredSince(p, st, commands, op) || PendingElsewhere(st, op, path)
    ensures PendingElsewhere(Run(p, st, commands), op, path)
    decreases |commands|
  {
    if commands != [] {
      StepKeepsBackend(p, st, commands[0]);
      PendingStep(p, st, commands[0], op);
      UsedStays(p, st, commands[0], path);
      PendingMoved(p, Step(p, st, commands[0]), commands[1..], op, path);
    }
  }

  // ---------------------------------------------------------------- the retry

  /** An allocated key describes itself again, in any unlocked state of the same backend. */
  lemma DescribedAgain(p: Primitives, st: State, parent: Key, path: string, later: State)
    requires DescribeChild(p, st, parent, path).Ok? && SameBackend(st, later)
    ensures var d := DescribeChild(p, st, parent, path).value;
            && DescribeAgain(p, later, d.key) == (if Unlocked(p, later) then Ok(d) else Err(DefinitiveRejected))
            && d.key.derivation.Some? && d.key.derivation.value.path == path
  {
  }

  lemma PathDescribedAgain(p: Primitives, st: State, key: Key)
    requires key.derivation.Some? && DescribeAgain(p, st, key).Ok?
    ensures DescribeAgain(p, st, key).value.key.derivation.Some?
    ensures DescribeAgain(p, st, key).value.key.derivation.value.path == key.derivation.value.path
  {
  }

  /** A new allocation under an operation makes its key pending, and uses its path. */
  lemma AllocationPends(p: Primitives, st: State, c: Command)
    requires c.AllocateCmd? && c.op.Some? && AllocatesIn(p, st, c, c.namespace)
    ensures var d := Allocate(p, st, c.parent, c.namespace, c.authority, c.op, c.persistOk).1.value;
            var st1 := Step(p, st, c);
            && c.op.value in st1.backup.pending && st1.backup.pending[c.op.value] == d.key
            && d.key.derivation.Some? && Used(st1.backup, d.key.derivation.value.path)
            && DescribeChild(p, st, c.parent, d.key.derivation.value.path) == Ok(d)
  {
    AllocationTakesNext(p, st, c, c.namespace);
  }

  /**
   Over a run in which the operation stays pending, asking again never changes the state, and it
   answers the first allocation if and only if the request is a valid one, the root is unlocked and
   no other key was registered under the operation since.
   */
  lemma RetryAnswersExactly(p: Primitives, st: State, c: Command, commands: seq<Command>, again: Command)
    requires Persisted(st) && c.AllocateCmd? && c.op.Some? && AllocatesIn(p, st, c, c.namespace)
    requires AllHonest(p, Step(p, st, c), commands) && PendingThroughout(p, Step(p, st, c), commands, c.op.value)
    requires again.AllocateCmd? && again.op == c.op
    ensures var d := Allocate(p, st, c.parent, c.namespace, c.authority, c.op, c.persistOk).1.value;
            var t := Run(p, Step(p, st, c), commands);
            var (t', r) := Allocate(p, t, again.parent, again.namespace, again.authority, again.op, again.persistOk);
            && t' == t
            && (r == Ok(d) <==> && again.authority.Some? && ValidParent(p, t, again.parent) && Unlocked(p, t)
                                && !ReregisteredSince(p, Step(p, st, c), commands, c.op.value))
  {
    AllocationPends(p, st, c);
    StepKeepsBackend(p, st, c);
    var d := Allocate(p, st, c.parent, c.namespace, c.authority, c.op, c.persistOk).1.value;
    PendingDescribed(p, st, Step(p, st, c), c.parent, d, commands, c.op.value);
    RetryDescribes(p, Run(p, Step(p, st, c), commands), again);
  }

  /** Under a pending operation allocation describes the pending key and does nothing else. */
  lemma RetryDescribes(p: Primitives, t: State, again: Command)
    requires again.AllocateCmd? && again.op.Some? && again.op.value in t.backup.pending
    ensures var (t', r) := Allocate(p, t, again.parent, again.namespace, again.authority, again.op, again.persistOk);
            && t' == t
            && (if again.authority.Some? && ValidParent(p, t, again.parent)
                then r == DescribeAgain(p, t, t.backup.pending[again.op.value]) else r.Err?)
  {
  }

  /** After the run the pending key is described as the first one exactly if nothing was registered over it and the root is open. */
  lemma PendingDescribed(p: Primitives, st: State, st1: State, parent: Key, d: Description, commands: seq<Command>, op: string)
    requires SameBackend(st, st1) && Persisted(st1)
    requires d.key.derivation.Some? && DescribeChild(p, st, parent, d.key.derivation.value.path) == Ok(d)
    requires PendingThroughout(p, st1, commands, op) && st1.backup.pending[op] == d.key
    requires AllHonest(p, st1, commands) && Used(st1.backup, d.key.derivation.value.path)
    ensures var t := Run(p, st1, commands);
            && op in t.backup.pending
            && (DescribeAgain(p, t, t.backup.pending[op]) == Ok(d)
                <==> Unlocked(p, t) && !ReregisteredSince(p, st1, commands, op))
  {
    var t, path := Run(p, st1, commands), d.key.derivation.value.path;
    RunKeepsBackend(p, st1, commands);
    DescribedAgain(p, st, parent, path, t);
    if ReregisteredSince(p, st1, commands, op) {
      PendingMoved(p, st1, commands, op, path);
      if DescribeAgain(p, t, t.backup.pending[op]).Ok? {
        PathDescribedAgain(p, t, t.backup.pending[op]);
      }
    } else {
      PendingKept(p, st1, commands, op);
    }
  }

  // ---------------------------------------------------------------- a registration takes the operation over

  const KEK: string := "kkkkkkkkkkkkkkkkkkkkkkkkkkkkkkkk"

  /** Locators are marked paths, every path derives and one key opens the root. */
  function Marked(): Primitives {
    Primitives(s => s, s => "L" + s, (f: Family, s: string) => "R" + s, s => true, s => s == KEK, s => true,
               (f: Family, s: string) => true, (f: Family, s: string) => Ok(s))
  }

  lemma MarkedSound(rootId: string)
    ensures LocatorsSound(Marked(), rootId)
  {
    forall a: string, b: string | "L" + a == "L" + b ensures a == b {
      assert ("L" + a)[1..] == a && ("L" + b)[1..] == b;
    }
    forall a: string, b: string | "R" + a == "R" + b ensures a == b {
      assert ("R" + a)[1..] == a && ("R" + b)[1..] == b;
    }
    forall a: string, b: string ensures "L" + a != "R" + b {
      assert ("L" + a)[0] == 'L' && ("R" + b)[0] == 'R';
    }
    forall a: string ensures "L" + a != "root:" + rootId && "R" + a != "root:" + rootId {
      assert ("L" + a)[0] == 'L' && ("R" + a)[0] == 'R' && ("root:" + rootId)[0] == 'r';
    }
  }

  function Child(path: string): Key {
    Key("local", "i", "R" + path, false, path, Some(Derivation(Bip39Evm, "w", path)))
  }

  const PREPARE: seq<Command> :=
    [RegisterCmd(Child("m/1"), None, true), ConfigureCmd(Grant("n", "m/2", 0, 9), Some("a"), true)]

  /** A provisioned backend with a parent and a namespace. */
  function Prepared(): State {
    State("i", Some(KEK), EmptyBackup("w", Bip39Entropy).(registry := [Child("m/1")], descriptions := [Description(Child("m/1"), "m/1", "m/1")],
          namespaces := [Namespace("n", "m/2", 0, 9, "a")]),
          map[Child("m/1").locator := Child("m/1")], None)
  }

  const ASK: Command := AllocateCmd(Child("m/1"), "n", Some("a"), Some("o"), true)

  lemma Prepares()
    ensures Run(Marked(), ProvisionBip39("i", "w", KEK, false), PREPARE) == Prepared()
  {
    var start := ProvisionBip39("i", "w", KEK, false);
    var one := start.(backup := start.backup.(registry := [Child("m/1")],
                                             descriptions := [Description(Child("m/1"), "m/1", "m/1")]),
                          index := map[Child("m/1").locator := Child("m/1")]);
    assert start.backup.registry + [Child("m/1")] == [Child("m/1")];
    assert start.backup.descriptions + [Description(Child("m/1"), "m/1", "m/1")] == [Description(Child("m/1"), "m/1", "m/1")];
    assert Step(Marked(), start, PREPARE[0]) == one;
    assert one.backup.namespaces + [Namespace("n", "m/2", 0, 9, "a")] == [Namespace("n", "m/2", 0, 9, "a")];
    assert Step(Marked(), one, PREPARE[1]) == Prepared();
    RunTwo(Marked(), start, PREPARE[0], PREPARE[1]);
  }

  /** What the operation is answered in a state. */
  function Asked(st: State): (State, Result<Description, Error>) {
    Allocate(Marked(), st, ASK.parent, ASK.namespace, ASK.authority, ASK.op, ASK.persistOk)
  }

  lemma AllocatesFirst()
    ensures AllocatesIn(Marked(), Prepared(), ASK, "n")
    ensures Asked(Prepared()).1.value.key.derivation == Some(Derivation(Bip32, "w", "m/2/0"))
  {
    assert Dec(0) == "0";
    assert PathAt("m/2", 0, false) == "m/2/0";
    assert FindNamespace(Prepared().backup.namespaces, "n") == Some(0);
  }

  /** A run from provisioning, by an honest caller, after which the retry answers another key. */
  lemma RegistrationTakesOperation()
    ensures var st := Run(Marked(), ProvisionBip39("i", "w", KEK, false), PREPARE);
            var other := RegisterCmd(Child("m/3"), Some("o"), true);
            var st1 := Step(Marked(), st, ASK);
            && LocatorsSound(Marked(), "w") && AllocatesIn(Marked(), st, ASK, "n") && Honest(Marked(), st1, other)
            && Asked(Step(Marked(), st1, other)).1 == Ok(Description(Child("m/3"), "m/3", "m/3")) != Asked(st).1
  {
    MarkedSound("w");
    Prepares();
    AllocatesFirst();
    TakesOver(Prepared(), Step(Marked(), Prepared(), ASK), Asked(Prepared()).1.value.key);
  }

  lemma TakesOver(st: State, st1: State, key: Key)
    requires st1.backup == st.backup.(registry := st1.backup.registry, namespaces := st1.backup.namespaces,
                                      descriptions := st1.backup.descriptions, pending := st1.backup.pending)
    requires st.backup.registry == [Child("m/1")] && st.backup.tombstones == [] && st.backup.rootId == "w" && st1.instance == "i"
    requires st1.kek == Some(KEK) && st1.disk == None && st.backup.material == Bip39Entropy
    requires st1.backup.registry == [Child("m/1"), key] && key.derivation == Some(Derivation(Bip32, "w", "m/2/0"))
    ensures var other := RegisterCmd(Child("m/3"), Some("o"), true);
            && Honest(Marked(), st1, other)
            && Asked(Step(Marked(), st1, other)).1 == Ok(Description(Child("m/3"), "m/3", "m/3"))
  {
    assert "m/3" != "m/1" && "m/3" != "m/2/0";
  }

  // ---------------------------------------------------------------- a lock refuses the retry

  lemma PreparedHealthy()
    ensures Healthy(Marked(), Prepared()) && Truthful(Marked(), Prepared(), KEK)
  {
    assert IndexOf([Child("m/1")]) == map[Child("m/1").locator := Child("m/1")];
  }

  /** The backend once it has allocated: healthy, truthful and pending. */
  lemma AskedHealthy(st1: State)
    requires st1 == Step(Marked(), Prepared(), ASK)
    ensures Healthy(Marked(), st1) && Truthful(Marked(), st1, KEK) && SameBackend(Prepared(), st1)
  {
    MarkedSound("w");
    PreparedHealthy();
    StepHealthy(Marked(), Prepared(), ASK);
    StepKeepsTruthfulExactly(Marked(), Prepared(), ASK, KEK);
    StepKeepsBackend(Marked(), Prepared(), ASK);
  }

  /** A healthy, truthful backend, locked and activated again. */
  lemma LockAndActivate(st1: State, lock: Command)
    requires Healthy(Marked(), st1) && Truthful(Marked(), st1, KEK) && st1.backup.material == Bip39Entropy
    requires lock == DeactivateCmd || lock == RestartCmd
    ensures Step(Marked(), st1, lock) == st1.(kek := None)
    ensures Step(Marked(), st1.(kek := None), ActivateCmd(KEK)) == st1.(kek := Some(KEK))
  {
    RestartLocks(Marked(), st1);
    assert |KEK| == KEK_LENGTH;
    ActivatesExactly(Marked(), st1.(kek := None), KEK);
  }

  lemma LockedRetry(st1: State, d: Description)
    requires AllocatesIn(Marked(), Prepared(), ASK, "n") && st1 == Step(Marked(), Prepared(), ASK) && Asked(Prepared()).1 == Ok(d)
    ensures "o" in st1.backup.pending
    ensures Asked(st1.(kek := None)) == (st1.(kek := None), Err(DefinitiveRejected))
    ensures Asked(st1.(kek := Some(KEK))).1 == Ok(d)
  {
    AllocationPends(Marked(), Prepared(), ASK);
    StepKeepsBackend(Marked(), Prepared(), ASK);
    assert ASK.parent in st1.backup.registry;
    DescribedAgain(Marked(), Prepared(), ASK.parent, d.key.derivation.value.path, st1.(kek := None));
    DescribedAgain(Marked(), Prepared(), ASK.parent, d.key.derivation.value.path, st1.(kek := Some(KEK)));
    RetryDescribes(Marked(), st1.(kek := None), ASK);
    RetryDescribes(Marked(), st1.(kek := Some(KEK)), ASK);
  }

  lemma LockRegistersNothing(st1: State, lock: Command, op: string)
    requires op in st1.backup.pending && LocksOnly(lock) && Persisted(st1)
    ensures PendingThroughout(Marked(), st1, [lock], op) && !ReregisteredSince(Marked(), st1, [lock], op)
  {
    LockStep(Marked(), st1, lock);
    assert [lock][1..] == [];
  }

  /**
   Runs from provisioning in which nothing was registered over the pending key, yet a deactivation
   or a restart makes the retry refuse; activation makes it answer the first key again.
   */
  lemma LockedRetryRefused(lock: Command)
    requires lock == DeactivateCmd || lock == RestartCmd
    ensures var st := Run(Marked(), ProvisionBip39("i", "w", KEK, false), PREPARE);
            var st1 := Step(Marked(), st, ASK);
            var locked := Step(Marked(), st1, lock);
            && AllocatesIn(Marked(), st, ASK, "n")
            && PendingThroughout(Marked(), st1, [lock], "o") && !ReregisteredSince(Marked(), st1, [lock], "o")
            && Asked(locked) == (locked, Err(DefinitiveRejected))
            && Asked(Step(Marked(), locked, ActivateCmd(KEK))).1 == Asked(st).1
  {
    Prepares();
    AllocatesFirst();
    var st1 := Step(Marked(), Prepared(), ASK);
    AskedHealthy(st1);
    LockAndActivate(st1, lock);
    LockedRetry(st1, Asked(Prepared()).1.value);
    LockRegistersNothing(st1, lock, "o");
  }
}
