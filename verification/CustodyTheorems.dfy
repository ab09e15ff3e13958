/**
 Custody refines a table of factors: which credential holds which key, which ids are spent, and
 which recovery factor stands. No ciphertext is left in the table, and every answer of every
 operation is the answer the table gives.
 */
module CustodyTheorems {
  import opened Limits
  import opened Wrappers
  import opened Custody

  // ---------------------------------------------------------------- the table of factors

  datatype Table = Table(
    active: map<string, string>, spent: set<string>, recovery: Option<(string, string)>,
    generation: nat, policyVersion: nat, version: nat)

  predicate Known(t: Table, id: string) { id in t.active || id in t.spent }

  /** The session was opened with, and still holds, the registered secrets. */
  predicate Genuine(secret: Secret, s: Unlocked) {
    s.wkek == secret.wkek && s.root == secret.root && s.seed == secret.seed
  }

  datatype Command =
    | Add(s: Unlocked, id: string, key: string, nonce: Nonce, persistOk: bool)
    | Revoke(id: string, persistOk: bool)
    | Recovery(s: Unlocked, id: string, key: string, nonce: Nonce, persistOk: bool)
    | PolicyVersion(next: nat, persistOk: bool)
    | Replace(s: Unlocked, id: string, key: string, recoveryId: string, recoveryKey: string, nonces: nat -> Nonce, persistOk: bool)
    | Rekey(s: Unlocked, version: nat, keys: map<string, string>, recoveryFactor: Option<string>, rekeyNonces: RekeyNonces, persistOk: bool)

  /** Machine range of the one 32-bit argument. */
  predicate InRange(c: Command) { c.Rekey? ==> c.version < U32_LIMIT }

  function Execute(st: Store, c: Command): (Store, Result<(), Error>)
    requires InRange(c)
  {
    match c
    case Add(s, id, key, nonce, ok) => AddCredential(st, s, id, key, nonce, ok)
    case Revoke(id, ok) => RevokeCredential(st, id, ok)
    case Recovery(s, id, key, nonce, ok) => SetRecovery(st, s, id, key, nonce, ok)
    case PolicyVersion(next, ok) => SetPolicyVersion(st, next, ok)
    case Replace(s, id, key, rid, rkey, nonces, ok) => RecoverReplace(st, s, id, key, rid, rkey, nonces, ok)
    case Rekey(s, version, keys, rkey, nonces, ok) => RekeyWrapFormat(st, s, version, keys, rkey, nonces, ok)
  }

  predicate KeyGiven(keys: map<string, string>, id: string) { id in keys && |keys[id]| == KEY_LENGTH }

  /** When the table accepts a command, apart from the write to disk. */
  predicate Accepts(secret: Secret, t: Table, c: Command) {
    match c
    case Add(s, id, key, _, _) => |key| == KEY_LENGTH && !Known(t, id) && Genuine(secret, s)
    case Revoke(id, _) => Known(t, id) && (id in t.active ==> t.recovery.Some? || |t.active| > 1)
    case Recovery(s, _, key, _, _) => |key| == KEY_LENGTH && Genuine(secret, s)
    case PolicyVersion(next, _) => next > t.policyVersion
    case Replace(s, id, key, _, rkey, _, _) =>
      |key| == KEY_LENGTH && |rkey| == KEY_LENGTH && !Known(t, id) && Genuine(secret, s) && t.generation < LAST_GENERATION
    case Rekey(s, version, keys, rkey, _, _) =>
      && version > t.version && Genuine(secret, s)
      && (forall id :: id in t.active ==> KeyGiven(keys, id))
      && (t.recovery.Some? ==> rkey.Some? && |rkey.value| == KEY_LENGTH)
  }

  /** A recovery that only the last generation stands against. */
  predicate Exhausts(secret: Secret, t: Table, c: Command) {
    c.Replace? && t.generation >= LAST_GENERATION
    && |c.key| == KEY_LENGTH && |c.recoveryKey| == KEY_LENGTH && !Known(t, c.id) && Genuine(secret, c.s)
  }

  function Next(t: Table, c: Command): Table {
    match c
    case Add(_, id, key, _, _) => t.(active := t.active[id := key])
    case Revoke(id, _) => t.(active := t.active - {id}, spent := t.spent + {id})
    case Recovery(_, id, key, _, _) => t.(recovery := Some((id, key)))
    case PolicyVersion(next, _) => t.(policyVersion := next)
    case Replace(_, id, key, rid, rkey, _, _) =>
      t.(active := map[id := key], spent := t.spent + t.active.Keys, recovery := Some((rid, rkey)), generation := t.generation + 1)
    case Rekey(_, version, keys, rkey, _, _) =>
      t.(version := version,
         active := map id | id in t.active :: if id in keys then keys[id] else "",
         recovery := if t.recovery.Some? && rkey.Some? then Some((t.recovery.value.0, rkey.value)) else t.recovery)
  }

  // ---------------------------------------------------------------- what a backup represents

  predicate Opens(blob: Blob, key: string, aad: Aad, plaintext: string) {
    && blob.Sealed? && blob.key == key && |key| == KEY_LENGTH && blob.aad == aad && blob.plaintext == plaintext
    && |blob.nonce| == NONCE_LENGTH
  }

  predicate RootSound(b: Backup, secret: Secret) {
    && Opens(b.root, secret.wkek, RootData(b), secret.root)
    && Opens(b.policyKey, secret.wkek, PolicyData(b), secret.seed)
    && |secret.seed| == 32
    && RootMisfit(b.profile, b.bits, |secret.root|) == None
    && b.version != 0
  }

  /** Wrap `w` of backup `b` is what the table records under its id. */
  predicate WrapSound(b: Backup, secret: Secret, t: Table, w: Wrap) {
    && |w.wrapped.nonce| == NONCE_LENGTH && w.version <= b.version
    && (if w.active then
          && w.id in t.active && w.version == b.version
          && Opens(w.wrapped, t.active[w.id], CredentialData(b, w.id, b.version), secret.wkek)
        else w.id in t.spent)
  }

  predicate RecoverySound(b: Backup, secret: Secret, t: Table) {
    match b.recovery
    case None => t.recovery == None
    case Some(w) =>
      && t.recovery.Some? && t.recovery.value.0 == w.id && w.version == b.version
      && Opens(w.wrapped, t.recovery.value.1, RecoveryData(b, w.id, b.version), secret.wkek)
  }

  predicate DistinctIds(wraps: seq<Wrap>) {
    forall i, j :: 0 <= i < j < |wraps| ==> wraps[i].id != wraps[j].id
  }

  /** The backup stores exactly the table's factors, all of them guarding the same secrets. */
  ghost predicate Represents(b: Backup, secret: Secret, t: Table) {
    && RootSound(b, secret)
    && b.wraps != [] && DistinctIds(b.wraps)
    && (forall i :: 0 <= i < |b.wraps| ==> WrapSound(b, secret, t, b.wraps[i]))
    && (forall id :: Known(t, id) ==> HasId(b.wraps, id))
    && t.active.Keys !! t.spent
    && RecoverySound(b, secret, t)
    && t.generation == b.generation && t.policyVersion == b.policyVersion && t.version == b.version
    && (t.active != map[] || t.recovery.Some?)
  }

  /** Memory represents the table, and the disk holds what memory holds. */
  ghost predicate Healthy(st: Store, secret: Secret, t: Table) {
    Represents(st.memory, secret, t) && (st.disk.Some? ==> st.disk.value == st.memory)
  }

  // ---------------------------------------------------------------- unlocking

  function SecretsOf(b: Backup, secret: Secret): Unlocked {
    Unlocked(b.wallet, secret.root, secret.seed, secret.wkek, b.profile, b.bits)
  }

  lemma WkekUnlocks(b: Backup, secret: Secret, key: string)
    requires RootSound(b, secret)
    ensures UnlockWithWkek(b, key).Ok? <==> key == secret.wkek
    ensures UnlockWithWkek(b, secret.wkek) == Ok(SecretsOf(b, secret))
  {
  }

  lemma OnlyActive(b: Backup, secret: Secret, t: Table, i: nat)
    requires Represents(b, secret, t) && i < |b.wraps|
    ensures WrapSound(b, secret, t, b.wraps[i])
    ensures b.wraps[i].active <==> b.wraps[i].id in t.active
  {
  }

  /**
   A credential unlocks exactly when it is active and the key is its latest key, and then it
   yields the registered root, policy seed and WKEK.
   */
  lemma CredentialUnlocksExactly(b: Backup, secret: Secret, t: Table, id: string, key: string)
    requires Represents(b, secret, t)
    ensures UnlockWithCredential(b, id, key).Ok? <==> id in t.active && t.active[id] == key
    ensures id in t.active ==> UnlockWithCredential(b, id, t.active[id]) == Ok(SecretsOf(b, secret))
  {
    var test := (w: Wrap) => w.active && w.id == id;
    var found := Find(b.wraps, test);
    if id in t.active {
      assert Known(t, id);
      var i :| 0 <= i < |b.wraps| && b.wraps[i].id == id;
      OnlyActive(b, secret, t, i);
      assert test(b.wraps[i]);
    }
    if found.Some? {
      OnlyActive(b, secret, t, found.value);
      WkekUnlocks(b, secret, secret.wkek);
    }
  }

  /** So does the current recovery factor, and no earlier one. */
  lemma RecoveryUnlocksExactly(b: Backup, secret: Secret, t: Table, id: string, key: string)
    requires Represents(b, secret, t)
    ensures UnlockWithRecovery(b, id, key).Ok? <==> t.recovery == Some((id, key))
    ensures t.recovery == Some((id, key)) ==> UnlockWithRecovery(b, id, key) == Ok(SecretsOf(b, secret))
  {
  }

  /** A session is accepted exactly when it carries the registered secrets. */
  lemma SessionExactly(b: Backup, secret: Secret, s: Unlocked)
    requires RootSound(b, secret)
    ensures SessionWkek(b, s).Ok? <==> Genuine(secret, s)
    ensures SessionWkek(b, s).Ok? ==> SessionWkek(b, s).value == secret.wkek
  {
  }

  /** `restore` accepts every backup that represents a table. */
  lemma RestoreAccepts(b: Backup, secret: Secret, t: Table)
    requires Represents(b, secret, t)
    ensures ValidShape(b)
  {
  }

  // ---------------------------------------------------------------- refinement, operation by operation

  /** What the store becomes when the table accepts: the next table, unless the write fails. */
  ghost predicate Refines(st: Store, secret: Secret, t: Table, c: Command)
    requires InRange(c)
  {
    var (st', r) := Execute(st, c);
    && (r.Ok? <==> Accepts(secret, t, c) && (st.disk.None? || c.persistOk))
    && (r.Ok? ==> Healthy(st', secret, Next(t, c)) && (st'.disk.Some? <==> st.disk.Some?))
    && (r.Err? ==> st' == st || r.error == GenerationExhausted)
  }

  lemma AppendRepresents(b: Backup, secret: Secret, t: Table, id: string, key: string, nonce: Nonce)
    requires Represents(b, secret, t) && !Known(t, id) && |key| == KEY_LENGTH
    ensures !HasId(b.wraps, id)
    ensures Represents(b.(wraps := b.wraps + [NewWrap(b, id, key, secret.wkek, nonce)]), secret, t.(active := t.active[id := key]))
  {
    forall i | 0 <= i < |b.wraps| ensures b.wraps[i].id != id {
      assert WrapSound(b, secret, t, b.wraps[i]);
    }
    var b': Backup := b.(wraps := b.wraps + [NewWrap(b, id, key, secret.wkek, nonce)]);
    var t' := t.(active := t.active[id := key]);
    forall i | 0 <= i < |b'.wraps| ensures WrapSound(b', secret, t', b'.wraps[i]) {
      if i < |b.wraps| {
        assert WrapSound(b, secret, t, b.wraps[i]);
      }
    }
    forall x | Known(t', x) ensures HasId(b'.wraps, x) {
      if x == id {
        assert b'.wraps[|b.wraps|].id == x;
      } else {
        assert Known(t, x);
        var i :| 0 <= i < |b.wraps| && b.wraps[i].id == x;
        assert b'.wraps[i].id == x;
      }
    }
  }

  lemma KnownIsStored(b: Backup, secret: Secret, t: Table, id: string)
    requires Represents(b, secret, t)
    ensures Known(t, id) <==> HasId(b.wraps, id)
  {
  }

  lemma AddRefines(st: Store, secret: Secret, t: Table, c: Command)
    requires c.Add? && Healthy(st, secret, t)
    ensures Refines(st, secret, t, c)
  {
    SessionExactly(st.memory, secret, c.s);
    KnownIsStored(st.memory, secret, t, c.id);
    if Accepts(secret, t, c) {
      AppendRepresents(st.memory, secret, t, c.id, c.key, c.nonce);
    }
  }

  lemma ActiveIdsPush(wraps: seq<Wrap>, w: Wrap)
    ensures ActiveIds(wraps + [w]) == ActiveIds(wraps) + if w.active then {w.id} else {}
  {
    var all := wraps + [w];
    assert all[|wraps|] == w && forall i :: 0 <= i < |wraps| ==> all[i] == wraps[i];
  }

  lemma {:induction false} ActiveCountIsActive(wraps: seq<Wrap>)
    requires DistinctIds(wraps)
    ensures ActiveCount(wraps) == |ActiveIds(wraps)|
  {
    if |wraps| > 0 {
      var n := |wraps| - 1;
      var front, last := wraps[..n], wraps[n];
      LastIsNew(wraps);
      ActiveCountIsActive(front);
      assert wraps == front + [last];
      ActiveIdsPush(front, last);
    }
  }

  lemma LastIsNew(wraps: seq<Wrap>)
    requires |wraps| > 0 && DistinctIds(wraps)
    ensures var front := wraps[..|wraps| - 1];
            DistinctIds(front) && wraps[|wraps| - 1].id !in ActiveIds(front)
  {
  }

  lemma ActiveIdsExact(b: Backup, secret: Secret, t: Table)
    requires Represents(b, secret, t)
    ensures ActiveIds(b.wraps) == t.active.Keys
    ensures ActiveCount(b.wraps) == |t.active|
  {
    forall id ensures id in ActiveIds(b.wraps) <==> id in t.active {
      if id in t.active {
        assert Known(t, id);
        var i :| 0 <= i < |b.wraps| && b.wraps[i].id == id;
        OnlyActive(b, secret, t, i);
      }
      if id in ActiveIds(b.wraps) {
        var i :| 0 <= i < |b.wraps| && b.wraps[i].active && b.wraps[i].id == id;
        OnlyActive(b, secret, t, i);
      }
    }
    ActiveCountIsActive(b.wraps);
    assert |t.active.Keys| == |t.active|;
  }

  lemma OnlyKey(m: map<string, string>, id: string)
    requires id in m && m - {id} == map[]
    ensures |m| == 1
  {
    assert forall k :: k in m && k != id ==> k in m - {id};
    assert m.Keys == {id};
    assert |m| == |m.Keys|;
  }

  lemma RevokeRepresents(b: Backup, secret: Secret, t: Table, i: nat)
    requires Represents(b, secret, t) && i < |b.wraps|
    requires b.wraps[i].active ==> t.recovery.Some? || |t.active| > 1
    ensures var id := b.wraps[i].id;
            Represents(b.(wraps := b.wraps[i := b.wraps[i].(active := false)]), secret,
                       t.(active := t.active - {id}, spent := t.spent + {id}))
  {
    var id := b.wraps[i].id;
    var b': Backup := b.(wraps := b.wraps[i := b.wraps[i].(active := false)]);
    var t' := t.(active := t.active - {id}, spent := t.spent + {id});
    assert WrapSound(b, secret, t, b.wraps[i]);
    forall j | 0 <= j < |b'.wraps| ensures WrapSound(b', secret, t', b'.wraps[j]) {
      assert WrapSound(b, secret, t, b.wraps[j]);
    }
    forall x | Known(t', x) ensures HasId(b'.wraps, x) {
      assert Known(t, x);
      var j :| 0 <= j < |b.wraps| && b.wraps[j].id == x;
      assert b'.wraps[j].id == x;
    }
    if id !in t.active {
      assert t.active - {id} == t.active;
    } else if t.active - {id} == map[] {
      OnlyKey(t.active, id);
    }
  }

  lemma FindsKnown(b: Backup, secret: Secret, t: Table, id: string)
    requires Represents(b, secret, t)
    ensures Find(b.wraps, (w: Wrap) => w.id == id).Some? <==> Known(t, id)
  {
  }

  lemma RevokeOutcome(st: Store, secret: Secret, t: Table, c: Command) returns (i: nat)
    requires c.Revoke? && Represents(st.memory, secret, t)
    ensures if Accepts(secret, t, c) then
              && i < |st.memory.wraps| && st.memory.wraps[i].id == c.id
              && (st.memory.wraps[i].active <==> c.id in t.active)
              && Execute(st, c) == Publish(st, st.memory.(wraps := st.memory.wraps[i := st.memory.wraps[i].(active := false)]), c.persistOk)
            else Execute(st, c).1.Err? && Execute(st, c).0 == st
  {
    i := 0;
    FindsKnown(st.memory, secret, t, c.id);
    ActiveIdsExact(st.memory, secret, t);
    var found := Find(st.memory.wraps, (w: Wrap) => w.id == c.id);
    if found.Some? {
      OnlyActive(st.memory, secret, t, found.value);
      i := found.value;
    }
  }

  lemma RevokeRefines(st: Store, secret: Secret, t: Table, c: Command)
    requires c.Revoke? && Healthy(st, secret, t)
    ensures Refines(st, secret, t, c)
  {
    var b := st.memory;
    FindsKnown(b, secret, t, c.id);
    var i := RevokeOutcome(st, secret, t, c);
    if Accepts(secret, t, c) {
      RevokeRepresents(b, secret, t, i);
    }
  }

  lemma RecoveryRepresents(b: Backup, secret: Secret, t: Table, id: string, key: string, nonce: Nonce)
    requires Represents(b, secret, t) && |key| == KEY_LENGTH
    ensures Represents(b.(recovery := Some(NewRecovery(b, id, key, secret.wkek, nonce))), secret, t.(recovery := Some((id, key))))
  {
  }

  lemma RecoveryRefines(st: Store, secret: Secret, t: Table, c: Command)
    requires c.Recovery? && Healthy(st, secret, t)
    ensures Refines(st, secret, t, c)
  {
    SessionExactly(st.memory, secret, c.s);
    if Accepts(secret, t, c) {
      RecoveryRepresents(st.memory, secret, t, c.id, c.key, c.nonce);
    }
  }

  lemma PolicyVersionRefines(st: Store, secret: Secret, t: Table, c: Command)
    requires c.PolicyVersion? && Healthy(st, secret, t)
    ensures Refines(st, secret, t, c)
  {
    var b := st.memory;
    var b': Backup := b.(policyVersion := c.next);
    forall i | 0 <= i < |b.wraps| ensures WrapSound(b', secret, Next(t, c), b'.wraps[i]) {
      assert WrapSound(b, secret, t, b.wraps[i]);
    }
    forall x | Known(Next(t, c), x) ensures HasId(b'.wraps, x) {
      assert Known(t, x);
    }
  }

  function Replaced(b: Backup, wkek: string, c: Command): Backup
    requires c.Replace?
  {
    b.(wraps := Deactivated(b.wraps) + [NewWrap(b, c.id, c.key, wkek, c.nonces(0))],
       recovery := Some(NewRecovery(b, c.recoveryId, c.recoveryKey, wkek, c.nonces(1))),
       generation := b.generation + 1)
  }

  lemma ReplacedWraps(b: Backup, secret: Secret, t: Table, c: Command)
    requires Represents(b, secret, t) && c.Replace? && (Accepts(secret, t, c) || Exhausts(secret, t, c))
    ensures var b', t' := Replaced(b, secret.wkek, c), Next(t, c);
            && DistinctIds(b'.wraps)
            && forall i :: 0 <= i < |b'.wraps| ==> WrapSound(b', secret, t', b'.wraps[i])
  {
    var b', t', n := Replaced(b, secret.wkek, c), Next(t, c), |b.wraps|;
    forall i | 0 <= i < n ensures b'.wraps[i].id == b.wraps[i].id != c.id && WrapSound(b', secret, t', b'.wraps[i]) {
      assert b'.wraps[i] == Deactivated(b.wraps)[i];
      assert WrapSound(b, secret, t, b.wraps[i]);
    }
    assert WrapSound(b', secret, t', b'.wraps[n]);
  }

  lemma ReplacedIds(b: Backup, secret: Secret, t: Table, c: Command, x: string)
    requires Represents(b, secret, t) && c.Replace? && Known(Next(t, c), x)
    ensures HasId(Replaced(b, secret.wkek, c).wraps, x)
  {
    var wraps, n := Replaced(b, secret.wkek, c).wraps, |b.wraps|;
    if x == c.id {
      assert wraps[n].id == x;
    } else {
      assert Known(t, x);
      var i :| 0 <= i < n && b.wraps[i].id == x;
      assert wraps[i].id == x;
    }
  }

  lemma ReplaceRepresents(b: Backup, secret: Secret, t: Table, c: Command)
    requires Represents(b, secret, t) && c.Replace? && (Accepts(secret, t, c) || Exhausts(secret, t, c))
    ensures Represents(Replaced(b, secret.wkek, c), secret, Next(t, c))
  {
    ReplacedWraps(b, secret, t, c);
    forall x | Known(Next(t, c), x) ensures HasId(Replaced(b, secret.wkek, c).wraps, x) {
      ReplacedIds(b, secret, t, c, x);
    }
  }

  lemma ReplaceOutcome(st: Store, secret: Secret, c: Command)
    requires c.Replace? && RootSound(st.memory, secret)
    ensures var b := st.memory;
            var unchecked := |c.key| == KEY_LENGTH && |c.recoveryKey| == KEY_LENGTH && !HasId(b.wraps, c.id) && Genuine(secret, c.s);
            var (st', r) := Execute(st, c);
            if unchecked && b.generation < LAST_GENERATION then (st', r) == Publish(st, Replaced(b, secret.wkek, c), c.persistOk)
            else r.Err? && (if unchecked then r.error == GenerationExhausted else st' == st)
  {
  }

  lemma ReplaceRefines(st: Store, secret: Secret, t: Table, c: Command)
    requires c.Replace? && Healthy(st, secret, t)
    ensures Refines(st, secret, t, c)
  {
    ReplaceOutcome(st, secret, c);
    KnownIsStored(st.memory, secret, t, c.id);
    if Accepts(secret, t, c) {
      ReplaceRepresents(st.memory, secret, t, c);
    }
  }

  predicate AllKeysGiven(wraps: seq<Wrap>, keys: map<string, string>) {
    forall i :: 0 <= i < |wraps| && wraps[i].active ==> KeyGiven(keys, wraps[i].id)
  }

  lemma {:induction false} RewrapExact(next: Backup, wraps: seq<Wrap>, keys: map<string, string>, wkek: string, nonces: nat -> Nonce)
    ensures var r := Rewrap(next, wraps, keys, wkek, nonces);
            && (r.Ok? <==> AllKeysGiven(wraps, keys))
            && (r.Ok? ==>
                  && |r.value| == |wraps|
                  && forall i :: 0 <= i < |wraps| ==>
                       r.value[i] == if wraps[i].active then NewWrap(next, wraps[i].id, keys[wraps[i].id], wkek, nonces(i))
                                     else wraps[i])
  {
    if |wraps| > 0 {
      var n := |wraps| - 1;
      RewrapExact(next, wraps[..n], keys, wkek, nonces);
      assert AllKeysGiven(wraps, keys) <==> AllKeysGiven(wraps[..n], keys) && (wraps[n].active ==> KeyGiven(keys, wraps[n].id)) by {
        assert forall i :: 0 <= i < n ==> wraps[..n][i] == wraps[i];
      }
    }
  }

  lemma RekeyRepresents(b: Backup, secret: Secret, t: Table, c: Command, wraps: seq<Wrap>, recovery: Option<RecoveryWrap>)
    requires Represents(b, secret, t) && c.Rekey? && InRange(c) && Accepts(secret, t, c)
    requires var next := Resealed(b, c.s, c.version, c.rekeyNonces.root, c.rekeyNonces.policyKey);
             && Rewrap(next, b.wraps, c.keys, secret.wkek, c.rekeyNonces.wraps) == Ok(wraps)
             && RewrapRecovery(next, b.recovery, c.recoveryFactor, secret.wkek, c.rekeyNonces.recovery) == Ok(recovery)
    ensures var next := Resealed(b, c.s, c.version, c.rekeyNonces.root, c.rekeyNonces.policyKey);
            Represents(next.(wraps := wraps, recovery := recovery), secret, Next(t, c))
  {
    var next := Resealed(b, c.s, c.version, c.rekeyNonces.root, c.rekeyNonces.policyKey);
    var b': Backup := next.(wraps := wraps, recovery := recovery);
    var t' := Next(t, c);
    RewrapExact(next, b.wraps, c.keys, secret.wkek, c.rekeyNonces.wraps);
    RekeyRootSound(b, secret, t, c, b');
    forall i | 0 <= i < |wraps| ensures wraps[i].id == b.wraps[i].id && WrapSound(b', secret, t', wraps[i]) {
      assert WrapSound(b, secret, t, b.wraps[i]);
    }
    assert |wraps| == |b.wraps|;
    forall x | Known(t', x) ensures HasId(b'.wraps, x) {
      assert Known(t, x);
      var i :| 0 <= i < |b.wraps| && b.wraps[i].id == x;
      assert wraps[i].id == x;
    }
    if t'.active == map[] {
      assert t'.active.Keys == t.active.Keys;
      assert t.active == map[];
    }
  }

  lemma RekeyRootSound(b: Backup, secret: Secret, t: Table, c: Command, b': Backup)
    requires Represents(b, secret, t) && c.Rekey? && InRange(c) && Accepts(secret, t, c)
    requires b' == Resealed(b, c.s, c.version, c.rekeyNonces.root, c.rekeyNonces.policyKey).(wraps := b'.wraps, recovery := b'.recovery)
    ensures RootSound(b', secret)
  {
  }

  lemma RekeyRefines(st: Store, secret: Secret, t: Table, c: Command)
    requires c.Rekey? && InRange(c) && Healthy(st, secret, t)
    ensures Refines(st, secret, t, c)
  {
    var b := st.memory;
    SessionExactly(b, secret, c.s);
    if c.version > b.version && Genuine(secret, c.s) {
      var next := Resealed(b, c.s, c.version, c.rekeyNonces.root, c.rekeyNonces.policyKey);
      RewrapExact(next, b.wraps, c.keys, secret.wkek, c.rekeyNonces.wraps);
      KeysGivenExactly(b, secret, t, c.keys);
      var wraps := Rewrap(next, b.wraps, c.keys, secret.wkek, c.rekeyNonces.wraps);
      var recovery := RewrapRecovery(next, b.recovery, c.recoveryFactor, secret.wkek, c.rekeyNonces.recovery);
      if wraps.Ok? && recovery.Ok? {
        RekeyRepresents(b, secret, t, c, wraps.value, recovery.value);
      }
    }
  }

  lemma KeysGivenExactly(b: Backup, secret: Secret, t: Table, keys: map<string, string>)
    requires Represents(b, secret, t)
    ensures AllKeysGiven(b.wraps, keys) <==> forall id :: id in t.active ==> KeyGiven(keys, id)
  {
    forall i | 0 <= i < |b.wraps| ensures b.wraps[i].active <==> b.wraps[i].id in t.active {
      OnlyActive(b, secret, t, i);
    }
    forall id | id in t.active ensures exists i :: 0 <= i < |b.wraps| && b.wraps[i].active && b.wraps[i].id == id {
      assert Known(t, id);
      var i :| 0 <= i < |b.wraps| && b.wraps[i].id == id;
      assert b.wraps[i].active;
    }
  }

  /** Every answer is the table's answer; a refusal or failed write leaves memory and disk alone. */
  lemma StepRefines(st: Store, secret: Secret, t: Table, c: Command)
    requires Healthy(st, secret, t) && InRange(c)
    ensures Refines(st, secret, t, c)
  {
    match c
    case Add(_, _, _, _, _) => AddRefines(st, secret, t, c);
    case Revoke(_, _) => RevokeRefines(st, secret, t, c);
    case Recovery(_, _, _, _, _) => RecoveryRefines(st, secret, t, c);
    case PolicyVersion(_, _) => PolicyVersionRefines(st, secret, t, c);
    case Replace(_, _, _, _, _, _, _) => ReplaceRefines(st, secret, t, c);
    case Rekey(_, _, _, _, _, _) => RekeyRefines(st, secret, t, c);
  }

  // ---------------------------------------------------------------- whole runs

  function Run(st: Store, commands: seq<Command>): Store
    requires forall c :: c in commands ==> InRange(c)
    decreases |commands|
  {
    if commands == [] then st else Run(Execute(st, commands[0]).0, commands[1..])
  }

  function StepTable(secret: Secret, durable: bool, t: Table, c: Command): Table {
    if Accepts(secret, t, c) && (durable ==> c.persistOk) then Next(t, c) else t
  }

  /** The table's own run; `durable` says whether there is a disk that can refuse a write. */
  function RunTable(secret: Secret, durable: bool, t: Table, commands: seq<Command>): Table
    decreases |commands|
  {
    if commands == [] then t
    else RunTable(secret, durable, StepTable(secret, durable, t, commands[0]), commands[1..])
  }

  /** No step of the table's run is a recovery past the last generation. */
  predicate NeverExhausts(secret: Secret, durable: bool, t: Table, commands: seq<Command>)
    decreases |commands|
  {
    commands != [] ==>
      && !Exhausts(secret, t, commands[0])
      && NeverExhausts(secret, durable, StepTable(secret, durable, t, commands[0]), commands[1..])
  }

  lemma ExhaustedExactly(st: Store, secret: Secret, t: Table, c: Command)
    requires Represents(st.memory, secret, t) && InRange(c)
    ensures Execute(st, c).1 == Err(GenerationExhausted) <==> Exhausts(secret, t, c)
  {
    WkekErrors(st.memory);
    if c.Replace? {
      ReplaceOutcome(st, secret, c);
      KnownIsStored(st.memory, secret, t, c.id);
      ReplaceErrors(st, c);
    } else {
      OtherErrors(st, c);
    }
  }

  lemma ReplaceErrors(st: Store, c: Command)
    requires c.Replace?
    requires forall s :: SessionWkek(st.memory, s) != Err(GenerationExhausted)
    ensures Execute(st, c).1 == Err(GenerationExhausted) ==>
              st.memory.generation >= LAST_GENERATION && |Execute(st, c).0.memory.wraps| == |st.memory.wraps| + 1
  {
  }

  lemma WkekErrors(b: Backup)
    ensures forall s :: SessionWkek(b, s) != Err(GenerationExhausted)
  {
  }

  lemma {:induction false} RewrapErrors(next: Backup, wraps: seq<Wrap>, keys: map<string, string>, wkek: string, nonces: nat -> Nonce)
    ensures Rewrap(next, wraps, keys, wkek, nonces) != Err(GenerationExhausted)
  {
    if |wraps| > 0 {
      RewrapErrors(next, wraps[..|wraps| - 1], keys, wkek, nonces);
    }
  }

  lemma OtherErrors(st: Store, c: Command)
    requires InRange(c) && !c.Replace?
    requires forall s :: SessionWkek(st.memory, s) != Err(GenerationExhausted)
    ensures Execute(st, c).1 != Err(GenerationExhausted)
  {
    if c.Rekey? && SessionWkek(st.memory, c.s).Ok? {
      RewrapErrors(Resealed(st.memory, c.s, c.version, c.rekeyNonces.root, c.rekeyNonces.policyKey), st.memory.wraps,
                   c.keys, c.s.wkek, c.rekeyNonces.wraps);
    }
  }

  /**
   A step leaves the store healthy, with the table moved on, if and only if it is not a recovery
   past the last generation.
   */
  lemma StepHealthyExactly(st: Store, secret: Secret, t: Table, c: Command)
    requires Healthy(st, secret, t) && InRange(c)
    ensures Healthy(Execute(st, c).0, secret, StepTable(secret, st.disk.Some?, t, c)) <==> !Exhausts(secret, t, c)
    ensures !Exhausts(secret, t, c) ==> (Execute(st, c).0.disk.Some? <==> st.disk.Some?)
  {
    StepRefines(st, secret, t, c);
    ExhaustedExactly(st, secret, t, c);
    if Exhausts(secret, t, c) {
      ReplaceOutcome(st, secret, c);
      KnownIsStored(st.memory, secret, t, c.id);
      ExhaustionStores(st, secret, c);
      if Healthy(Execute(st, c).0, secret, t) {
        KnownIsStored(Execute(st, c).0.memory, secret, t, c.id);
      }
    }
  }

  /** What such a recovery leaves in memory; the disk keeps the old backup. */
  lemma ExhaustionStores(st: Store, secret: Secret, c: Command)
    requires c.Replace? && RootSound(st.memory, secret) && st.memory.generation >= LAST_GENERATION
    requires |c.key| == KEY_LENGTH && |c.recoveryKey| == KEY_LENGTH && !HasId(st.memory.wraps, c.id) && Genuine(secret, c.s)
    ensures Execute(st, c)
            == (st.(memory := Replaced(st.memory, secret.wkek, c).(generation := st.memory.generation)), Err(GenerationExhausted))
    ensures HasId(Execute(st, c).0.memory.wraps, c.id)
  {
    SessionExactly(st.memory, secret, c.s);
    var wraps := Replaced(st.memory, secret.wkek, c).wraps;
    assert wraps[|st.memory.wraps|].id == c.id;
  }

  /** Custody refines the table over every run that never recovers past the last generation. */
  lemma {:induction false} RunRefines(st: Store, secret: Secret, t: Table, commands: seq<Command>)
    requires Healthy(st, secret, t) && forall c :: c in commands ==> InRange(c)
    requires NeverExhausts(secret, st.disk.Some?, t, commands)
    ensures Healthy(Run(st, commands), secret, RunTable(secret, st.disk.Some?, t, commands))
    ensures Run(st, commands).disk.Some? <==> st.disk.Some?
    decreases |commands|
  {
    if commands != [] {
      StepHealthyExactly(st, secret, t, commands[0]);
      RunRefines(Execute(st, commands[0]).0, secret, StepTable(secret, st.disk.Some?, t, commands[0]), commands[1..]);
    }
  }

  function FirstTable(id: string, key: string): Table {
    Table(map[id := key], {}, None, 0, 1, WRAP_FORMAT_CURRENT)
  }

  lemma RegisterRepresents(wallet: string, secret: Secret, id: string, key: string, nonces: nat -> Nonce, b: Backup)
    requires RegisterBip39(wallet, secret, id, key, nonces) == Ok(b) || RegisterImported(wallet, secret, id, key, nonces) == Ok(b)
    ensures Represents(b, secret, FirstTable(id, key))
  {
    assert b.wraps[0].id == id;
  }

  /**
   From registration on, whatever ran and whatever failed to persist: the credentials and the
   recovery factor of the table, and only those, unlock the registered root, seed and WKEK; some
   factor is always left; the disk holds what memory holds; and restoring accepts it.
   */
  lemma UnlockAfterAnyRun(wallet: string, secret: Secret, first: string, firstKey: string, nonces: nat -> Nonce, b: Backup,
                          disk: bool, commands: seq<Command>, id: string, key: string)
    requires RegisterBip39(wallet, secret, first, firstKey, nonces) == Ok(b)
             || RegisterImported(wallet, secret, first, firstKey, nonces) == Ok(b)
    requires forall c :: c in commands ==> InRange(c)
    requires NeverExhausts(secret, disk, FirstTable(first, firstKey), commands)
    ensures var st := Run(Store(b, if disk then Some(b) else None), commands);
            var t := RunTable(secret, disk, FirstTable(first, firstKey), commands);
            && (UnlockWithCredential(st.memory, id, key).Ok? <==> id in t.active && t.active[id] == key)
            && (UnlockWithRecovery(st.memory, id, key).Ok? <==> t.recovery == Some((id, key)))
            && (UnlockWithCredential(st.memory, id, key).Ok? ==>
                  UnlockWithCredential(st.memory, id, key).value == SecretsOf(st.memory, secret))
            && (UnlockWithRecovery(st.memory, id, key).Ok? ==>
                  UnlockWithRecovery(st.memory, id, key).value == SecretsOf(st.memory, secret))
            && (t.active != map[] || t.recovery.Some?)
            && (st.disk.Some? ==> st.disk.value == st.memory)
            && ValidShape(st.memory)
  {
    RegisterRepresents(wallet, secret, first, firstKey, nonces, b);
    var start := Store(b, if disk then Some(b) else None);
    RunRefines(start, secret, FirstTable(first, firstKey), commands);
    var st, t := Run(start, commands), RunTable(secret, disk, FirstTable(first, firstKey), commands);
    CredentialUnlocksExactly(st.memory, secret, t, id, key);
    RecoveryUnlocksExactly(st.memory, secret, t, id, key);
    RestoreAccepts(st.memory, secret, t);
  }

  /** A credential id that was revoked or replaced stays spent: it is never active again. */
  lemma {:induction false} SpentForever(secret: Secret, durable: bool, t: Table, commands: seq<Command>, id: string)
    requires id in t.spent && id !in t.active
    ensures var t' := RunTable(secret, durable, t, commands);
            id in t'.spent && id !in t'.active
    decreases |commands|
  {
    if commands != [] {
      SpentForever(secret, durable, StepTable(secret, durable, t, commands[0]), commands[1..], id);
    }
  }

  /** The generation counts the recoveries that went through. */
  function Recoveries(secret: Secret, durable: bool, t: Table, commands: seq<Command>): nat
    decreases |commands|
  {
    if commands == [] then 0
    else
      var c := commands[0];
      (if c.Replace? && Accepts(secret, t, c) && (durable ==> c.persistOk) then 1 else 0)
      + Recoveries(secret, durable, StepTable(secret, durable, t, c), commands[1..])
  }

  lemma {:induction false} GenerationCountsRecoveries(secret: Secret, durable: bool, t: Table, commands: seq<Command>)
    ensures RunTable(secret, durable, t, commands).generation == t.generation + Recoveries(secret, durable, t, commands)
    decreases |commands|
  {
    if commands != [] {
      GenerationCountsRecoveries(secret, durable, StepTable(secret, durable, t, commands[0]), commands[1..]);
    }
  }

  /** A refused operation changes nothing, except exactly a recovery past the last generation. */
  lemma RefusalChangesNothingExactly(st: Store, secret: Secret, t: Table, c: Command)
    requires Healthy(st, secret, t) && InRange(c) && Execute(st, c).1.Err?
    ensures Execute(st, c).0 == st <==> !Exhausts(secret, t, c)
  {
    StepRefines(st, secret, t, c);
    ExhaustedExactly(st, secret, t, c);
    if c.Replace? {
      WkekErrors(st.memory);
      ReplaceErrors(st, c);
    }
  }
}
