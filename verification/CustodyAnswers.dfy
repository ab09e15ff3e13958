/**
 What every custody operation answers, and whose keys unlock the wallet afterwards, told without the
 table of factors: by the wraps' ids and by what unlocks.
 */
module CustodyAnswers {
  import opened Limits
  import opened Wrappers
  import opened Custody
  import opened CustodyTheorems

  predicate Opened(b: Backup, id: string, key: string) { UnlockWithCredential(b, id, key).Ok? }

  predicate Recovered(b: Backup, id: string, key: string) { UnlockWithRecovery(b, id, key).Ok? }

  /** The session holds the secrets the wallet guards. */
  predicate Holds(s: Unlocked, secret: Secret) { s.root == secret.root && s.seed == secret.seed && s.wkek == secret.wkek }

  predicate Writable(st: Store, persistOk: bool) { st.disk.None? || persistOk }

  /** Some key of the credential unlocks. */
  ghost predicate Active(b: Backup, id: string) { exists key :: Opened(b, id, key) }

  // ---------------------------------------------------------------- registration

  /** A mnemonic wallet: entropy of a BIP-39 length, and a profile that says so. */
  lemma RegisterBip39Exactly(wallet: string, secret: Secret, id: string, key: string, nonces: nat -> Nonce)
    ensures var r := RegisterBip39(wallet, secret, id, key, nonces);
            && (r.Ok? <==> |secret.root| in {16, 20, 24, 28, 32} && |secret.seed| == 32 && |secret.wkek| == 32 && |key| == 32)
            && (r.Ok? ==> r.value.wallet == wallet && r.value.profile == Bip39MulticurveV1 && r.value.bits == Some(8 * |secret.root|)
                          && r.value.generation == 0 && r.value.recovery.None?)
    ensures forall b :: RegisterBip39(wallet, secret, id, key, nonces) == Ok(b) ==>
              forall i, k :: (Opened(b, i, k) <==> i == id && k == key) && !Recovered(b, i, k)
  {
    forall b | RegisterBip39(wallet, secret, id, key, nonces) == Ok(b)
      ensures forall i, k :: (Opened(b, i, k) <==> i == id && k == key) && !Recovered(b, i, k)
    {
      FirstUnlocks(wallet, secret, id, key, nonces, b);
    }
  }

  /** An imported key: a 32-byte scalar, its own profile, no entropy length. */
  lemma RegisterImportedExactly(wallet: string, secret: Secret, id: string, key: string, nonces: nat -> Nonce)
    ensures var r := RegisterImported(wallet, secret, id, key, nonces);
            && (r.Ok? <==> |secret.root| == 32 && |secret.seed| == 32 && |secret.wkek| == 32 && |key| == 32)
            && (r.Ok? ==> r.value.wallet == wallet && r.value.profile == ImportedSecp256k1Scalar && r.value.bits == None
                          && r.value.generation == 0 && r.value.recovery.None?)
    ensures forall b :: RegisterImported(wallet, secret, id, key, nonces) == Ok(b) ==>
              forall i, k :: (Opened(b, i, k) <==> i == id && k == key) && !Recovered(b, i, k)
  {
    forall b | RegisterImported(wallet, secret, id, key, nonces) == Ok(b)
      ensures forall i, k :: (Opened(b, i, k) <==> i == id && k == key) && !Recovered(b, i, k)
    {
      FirstUnlocks(wallet, secret, id, key, nonces, b);
    }
  }

  lemma FirstUnlocks(wallet: string, secret: Secret, id: string, key: string, nonces: nat -> Nonce, b: Backup)
    requires RegisterBip39(wallet, secret, id, key, nonces) == Ok(b) || RegisterImported(wallet, secret, id, key, nonces) == Ok(b)
    ensures forall i, k :: (Opened(b, i, k) <==> i == id && k == key) && !Recovered(b, i, k)
  {
    RegisterRepresents(wallet, secret, id, key, nonces, b);
    forall i, k ensures (Opened(b, i, k) <==> i == id && k == key) && !Recovered(b, i, k) {
      CredentialUnlocksExactly(b, secret, FirstTable(id, key), i, k);
      RecoveryUnlocksExactly(b, secret, FirstTable(id, key), i, k);
    }
  }

  /** Nothing after registration changes whose wallet it is, nor what kind of root it has. */
  predicate SameWallet(a: Backup, b: Backup) { b.wallet == a.wallet && b.profile == a.profile && b.bits == a.bits }

  lemma StepKeepsWallet(st: Store, c: Command)
    requires InRange(c)
    ensures SameWallet(st.memory, Execute(st, c).0.memory)
  {
    match c
    case Add(_, _, _, _, _) =>
    case Revoke(_, _) =>
    case Recovery(_, _, _, _, _) =>
    case PolicyVersion(_, _) =>
    case Replace(_, _, _, _, _, _, _) =>
    case Rekey(_, _, _, _, _, _) =>
  }

  lemma {:induction false} RunKeepsWallet(st: Store, commands: seq<Command>)
    requires forall c :: c in commands ==> InRange(c)
    ensures SameWallet(st.memory, Run(st, commands).memory)
    decreases |commands|
  {
    if commands != [] {
      StepKeepsWallet(st, commands[0]);
      RunKeepsWallet(Execute(st, commands[0]).0, commands[1..]);
    }
  }

  // ---------------------------------------------------------------- the factors

  /** The two unlockings of a backup that represents a table. */
  lemma UnlocksByTable(b: Backup, secret: Secret, t: Table)
    requires Represents(b, secret, t)
    ensures forall i, k :: Opened(b, i, k) <==> i in t.active && t.active[i] == k
    ensures forall i, k :: Recovered(b, i, k) <==> t.recovery == Some((i, k))
    ensures forall i :: Active(b, i) <==> i in t.active
    ensures forall i :: HasId(b.wraps, i) <==> Known(t, i)
  {
    forall i, k ensures (Opened(b, i, k) <==> i in t.active && t.active[i] == k) && (Recovered(b, i, k) <==> t.recovery == Some((i, k))) {
      CredentialUnlocksExactly(b, secret, t, i, k);
      RecoveryUnlocksExactly(b, secret, t, i, k);
    }
    forall i ensures Active(b, i) <==> i in t.active {
      if i in t.active {
        assert Opened(b, i, t.active[i]);
      }
    }
    forall i ensures HasId(b.wraps, i) <==> Known(t, i) {
      KnownIsStored(b, secret, t, i);
    }
  }

  /** After an accepted operation the next table unlocks. */
  lemma AcceptedUnlocks(st: Store, secret: Secret, t: Table, c: Command)
    requires Healthy(st, secret, t) && InRange(c) && Execute(st, c).1.Ok?
    ensures var b', n := Execute(st, c).0.memory, Next(t, c);
            && (forall i, k :: Opened(b', i, k) <==> i in n.active && n.active[i] == k)
            && (forall i, k :: Recovered(b', i, k) <==> n.recovery == Some((i, k)))
            && b'.generation == n.generation && b'.version == n.version
  {
    StepRefines(st, secret, t, c);
    UnlocksByTable(Execute(st, c).0.memory, secret, Next(t, c));
  }

  /** When the table accepts, and that a refusal leaves the store alone. */
  lemma AcceptedExactly(st: Store, secret: Secret, t: Table, c: Command)
    requires Healthy(st, secret, t) && InRange(c)
    ensures Execute(st, c).1.Ok? <==> Accepts(secret, t, c) && Writable(st, c.persistOk)
    ensures Execute(st, c).1.Err? && !Exhausts(secret, t, c) ==> Execute(st, c).0 == st
  {
    StepRefines(st, secret, t, c);
    ExhaustedExactly(st, secret, t, c);
  }

  lemma AddedAt(st: Store, secret: Secret, t: Table, s: Unlocked, id: string, key: string, nonce: Nonce, persistOk: bool, i: string, k: string)
    requires Healthy(st, secret, t) && AddCredential(st, s, id, key, nonce, persistOk).1.Ok?
    ensures var b, b' := st.memory, AddCredential(st, s, id, key, nonce, persistOk).0.memory;
            (Opened(b', i, k) <==> Opened(b, i, k) || (i == id && k == key)) && (Recovered(b', i, k) <==> Recovered(b, i, k))
  {
    var c := Add(s, id, key, nonce, persistOk);
    StepRefines(st, secret, t, c);
    CredentialUnlocksExactly(st.memory, secret, t, i, k);
    RecoveryUnlocksExactly(st.memory, secret, t, i, k);
    CredentialUnlocksExactly(Execute(st, c).0.memory, secret, Next(t, c), i, k);
    RecoveryUnlocksExactly(Execute(st, c).0.memory, secret, Next(t, c), i, k);
  }

  /**
   A credential is added if and only if its key and id are fit and new and the session is the wallet's; then it unlocks
   too, and nothing else changes.
   */
  lemma AddExactly(st: Store, secret: Secret, t: Table, s: Unlocked, id: string, key: string, nonce: Nonce, persistOk: bool)
    requires Healthy(st, secret, t)
    ensures var (st', r) := AddCredential(st, s, id, key, nonce, persistOk);
            && (r.Ok? <==> |key| == 32 && !HasId(st.memory.wraps, id) && Holds(s, secret) && Writable(st, persistOk))
            && (r.Ok? ==> forall i, k :: (Opened(st'.memory, i, k) <==> Opened(st.memory, i, k) || (i == id && k == key))
                                         && (Recovered(st'.memory, i, k) <==> Recovered(st.memory, i, k)))
            && (r.Err? ==> st' == st)
  {
    AcceptedExactly(st, secret, t, Add(s, id, key, nonce, persistOk));
    KnownIsStored(st.memory, secret, t, id);
    if AddCredential(st, s, id, key, nonce, persistOk).1.Ok? {
      forall i, k
        ensures var b, b' := st.memory, AddCredential(st, s, id, key, nonce, persistOk).0.memory;
                (Opened(b', i, k) <==> Opened(b, i, k) || (i == id && k == key)) && (Recovered(b', i, k) <==> Recovered(b, i, k))
      {
        AddedAt(st, secret, t, s, id, key, nonce, persistOk, i, k);
      }
    }
  }

  /** A credential is revoked if and only if it is known and, while it unlocks, another factor remains. */
  lemma RevokeAnswers(st: Store, secret: Secret, t: Table, id: string, persistOk: bool)
    requires Healthy(st, secret, t)
    ensures RevokeCredential(st, id, persistOk).1.Ok?
            <==> && HasId(st.memory.wraps, id) && Writable(st, persistOk)
                 && (Active(st.memory, id) ==> (exists i, k :: Recovered(st.memory, i, k)) || exists i :: i != id && Active(st.memory, i))
  {
    AcceptedExactly(st, secret, t, Revoke(id, persistOk));
    UnlocksByTable(st.memory, secret, t);
    OthersRemain(st.memory, t, id);
  }

  lemma RevokedAt(st: Store, secret: Secret, t: Table, id: string, persistOk: bool, i: string, k: string)
    requires Healthy(st, secret, t) && RevokeCredential(st, id, persistOk).1.Ok?
    ensures var b, b' := st.memory, RevokeCredential(st, id, persistOk).0.memory;
            (Opened(b', i, k) <==> Opened(b, i, k) && i != id) && (Recovered(b', i, k) <==> Recovered(b, i, k))
  {
    var c := Revoke(id, persistOk);
    StepRefines(st, secret, t, c);
    CredentialUnlocksExactly(st.memory, secret, t, i, k);
    RecoveryUnlocksExactly(st.memory, secret, t, i, k);
    CredentialUnlocksExactly(Execute(st, c).0.memory, secret, Next(t, c), i, k);
    RecoveryUnlocksExactly(Execute(st, c).0.memory, secret, Next(t, c), i, k);
  }

  /** After a revocation none of the credential's keys unlocks, and all others do as before; a refusal changes nothing. */
  lemma RevokeLeaves(st: Store, secret: Secret, t: Table, id: string, persistOk: bool)
    requires Healthy(st, secret, t)
    ensures var (st', r) := RevokeCredential(st, id, persistOk);
            && (r.Ok? ==> forall i, k :: (Opened(st'.memory, i, k) <==> Opened(st.memory, i, k) && i != id)
                                         && (Recovered(st'.memory, i, k) <==> Recovered(st.memory, i, k)))
            && (r.Err? ==> st' == st)
  {
    AcceptedExactly(st, secret, t, Revoke(id, persistOk));
    if RevokeCredential(st, id, persistOk).1.Ok? {
      forall i, k
        ensures var b, b' := st.memory, RevokeCredential(st, id, persistOk).0.memory;
                (Opened(b', i, k) <==> Opened(b, i, k) && i != id) && (Recovered(b', i, k) <==> Recovered(b, i, k))
      {
        RevokedAt(st, secret, t, id, persistOk, i, k);
      }
    }
  }

  lemma TwoIds(m: map<string, string>, id: string)
    requires id in m
    ensures |m| > 1 <==> exists i :: i in m && i != id
  {
    assert |m| == |m.Keys| && |m.Keys - {id}| == |m.Keys| - 1;
    if i :| i in m && i != id {
      SubsetSize({id, i}, m.Keys);
    }
    if |m| > 1 {
      var i :| i in m.Keys - {id};
    }
  }

  lemma OthersRemain(b: Backup, t: Table, id: string)
    requires forall i, k :: Recovered(b, i, k) <==> t.recovery == Some((i, k))
    requires forall i :: Active(b, i) <==> i in t.active
    ensures t.recovery.Some? <==> exists i, k :: Recovered(b, i, k)
    ensures id in t.active ==> (|t.active| > 1 <==> exists i :: i != id && Active(b, i))
  {
    if t.recovery.Some? {
      assert Recovered(b, t.recovery.value.0, t.recovery.value.1);
    }
    if id in t.active {
      TwoIds(t.active, id);
    }
  }

  /** A recovery factor is set by a session of the wallet and replaces the one before. */
  lemma SetRecoveryExactly(st: Store, secret: Secret, t: Table, s: Unlocked, id: string, key: string, nonce: Nonce, persistOk: bool)
    requires Healthy(st, secret, t)
    ensures var (st', r) := SetRecovery(st, s, id, key, nonce, persistOk);
            && (r.Ok? <==> |key| == 32 && Holds(s, secret) && Writable(st, persistOk))
            && (r.Ok? ==> && (forall i, k :: Opened(st'.memory, i, k) <==> Opened(st.memory, i, k))
                          && (forall i, k :: Recovered(st'.memory, i, k) <==> i == id && k == key))
            && (r.Err? ==> st' == st)
  {
    var c := Recovery(s, id, key, nonce, persistOk);
    AcceptedExactly(st, secret, t, c);
    UnlocksByTable(st.memory, secret, t);
    if Execute(st, c).1.Ok? {
      AcceptedUnlocks(st, secret, t, c);
    }
  }

  /** After a recovery the new credential and the new recovery factor unlock, and nothing that did before. */
  lemma ReplaceExactly(st: Store, secret: Secret, t: Table, s: Unlocked, id: string, key: string, rid: string, rkey: string,
                       nonces: nat -> Nonce, persistOk: bool)
    requires Healthy(st, secret, t)
    ensures RecoverReplace(st, s, id, key, rid, rkey, nonces, persistOk).1.Ok?
            <==> && |key| == 32 && |rkey| == 32 && !HasId(st.memory.wraps, id) && Holds(s, secret)
                 && st.memory.generation < LAST_GENERATION && Writable(st, persistOk)
    ensures var (st', r) := RecoverReplace(st, s, id, key, rid, rkey, nonces, persistOk);
            r.Ok? ==> && (forall i, k :: Opened(st'.memory, i, k) <==> i == id && k == key)
                      && (forall i, k :: Recovered(st'.memory, i, k) <==> i == rid && k == rkey)
                      && st'.memory.generation == st.memory.generation + 1
  {
    var c := Replace(s, id, key, rid, rkey, nonces, persistOk);
    AcceptedExactly(st, secret, t, c);
    KnownIsStored(st.memory, secret, t, id);
    if Execute(st, c).1.Ok? {
      AcceptedUnlocks(st, secret, t, c);
    }
  }

  lemma RekeyAnswers(st: Store, secret: Secret, t: Table, s: Unlocked, version: nat, keys: map<string, string>, rkey: Option<string>,
                     nonces: RekeyNonces, persistOk: bool)
    requires Healthy(st, secret, t) && version < U32_LIMIT
    ensures RekeyWrapFormat(st, s, version, keys, rkey, nonces, persistOk).1.Ok?
            <==> && version > st.memory.version && Holds(s, secret) && Writable(st, persistOk)
                 && (forall i :: Active(st.memory, i) ==> i in keys && |keys[i]| == 32)
                 && ((exists i, k :: Recovered(st.memory, i, k)) ==> rkey.Some? && |rkey.value| == 32)
  {
    AcceptedExactly(st, secret, t, Rekey(s, version, keys, rkey, nonces, persistOk));
    UnlocksByTable(st.memory, secret, t);
    if t.recovery.Some? {
      assert Recovered(st.memory, t.recovery.value.0, t.recovery.value.1);
    }
  }

  lemma RekeyEffect(st: Store, secret: Secret, t: Table, s: Unlocked, version: nat, keys: map<string, string>, rkey: Option<string>,
                    nonces: RekeyNonces, persistOk: bool)
    requires Healthy(st, secret, t) && version < U32_LIMIT
    requires RekeyWrapFormat(st, s, version, keys, rkey, nonces, persistOk).1.Ok?
    ensures var (st', r) := RekeyWrapFormat(st, s, version, keys, rkey, nonces, persistOk);
            && (forall i, k :: Opened(st'.memory, i, k) <==> Active(st.memory, i) && i in keys && keys[i] == k)
            && (forall i, k :: Recovered(st'.memory, i, k) <==> rkey == Some(k) && exists k0 :: Recovered(st.memory, i, k0))
            && st'.memory.version == version
  {
    var c := Rekey(s, version, keys, rkey, nonces, persistOk);
    AcceptedExactly(st, secret, t, c);
    UnlocksByTable(st.memory, secret, t);
    AcceptedUnlocks(st, secret, t, c);
    if t.recovery.Some? {
      assert Recovered(st.memory, t.recovery.value.0, t.recovery.value.1);
    }
  }

  lemma RefusedKeeps(st: Store, secret: Secret, t: Table, s: Unlocked, version: nat, keys: map<string, string>, rkey: Option<string>,
                     nonces: RekeyNonces, persistOk: bool)
    requires Healthy(st, secret, t) && version < U32_LIMIT
    ensures RekeyWrapFormat(st, s, version, keys, rkey, nonces, persistOk).1.Err?
            ==> RekeyWrapFormat(st, s, version, keys, rkey, nonces, persistOk).0 == st
  {
    AcceptedExactly(st, secret, t, Rekey(s, version, keys, rkey, nonces, persistOk));
  }

  /** A rekey to a later format needs a key for every credential that unlocks and for the recovery factor, and these then unlock in their places. */
  lemma RekeyExactly(st: Store, secret: Secret, t: Table, s: Unlocked, version: nat, keys: map<string, string>, rkey: Option<string>,
                     nonces: RekeyNonces, persistOk: bool)
    requires Healthy(st, secret, t) && version < U32_LIMIT
    ensures RekeyWrapFormat(st, s, version, keys, rkey, nonces, persistOk).1.Ok?
            <==> && version > st.memory.version && Holds(s, secret) && Writable(st, persistOk)
                 && (forall i :: Active(st.memory, i) ==> i in keys && |keys[i]| == 32)
                 && ((exists i, k :: Recovered(st.memory, i, k)) ==> rkey.Some? && |rkey.value| == 32)
    ensures var (st', r) := RekeyWrapFormat(st, s, version, keys, rkey, nonces, persistOk);
            && (r.Ok? ==> && (forall i, k :: Opened(st'.memory, i, k) <==> Active(st.memory, i) && i in keys && keys[i] == k)
                          && (forall i, k :: Recovered(st'.memory, i, k) <==> rkey == Some(k) && exists k0 :: Recovered(st.memory, i, k0))
                          && st'.memory.version == version)
            && (r.Err? ==> st' == st)
  {
    RekeyAnswers(st, secret, t, s, version, keys, rkey, nonces, persistOk);
    RefusedKeeps(st, secret, t, s, version, keys, rkey, nonces, persistOk);
    if RekeyWrapFormat(st, s, version, keys, rkey, nonces, persistOk).1.Ok? {
      RekeyEffect(st, secret, t, s, version, keys, rkey, nonces, persistOk);
    }
  }

  /** The policy version only rises, and touches no factor. */
  lemma PolicyVersionExactly(st: Store, next: nat, persistOk: bool)
    ensures var (st', r) := SetPolicyVersion(st, next, persistOk);
            && (r.Ok? <==> next > st.memory.policyVersion && Writable(st, persistOk))
            && st'.memory == if r.Ok? then st.memory.(policyVersion := next) else st.memory
  {
  }
}
