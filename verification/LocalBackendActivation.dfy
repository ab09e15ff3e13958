/**
 Locking and unlocking. A restart or a deactivation loses the active key and nothing else, and the
 root's key opens the backend again exactly when every registered key is what its derivation gives.
 */
module LocalBackendActivation {
  import opened Wrappers
  import opened LocalBackend
  import opened LocalBackendTheorems

  /** Under an active key that opens the root, every registered key is what its derivation gives. */
  predicate Truthful(p: Primitives, st: State, kek: string) {
    forall i :: 0 <= i < |st.backup.registry| ==> SelfDescribed(p, st.(kek := Some(kek)), st.backup.registry[i])
  }

  /** What describes a key is the backend and the open root, not the rest of its state. */
  lemma DescriptionsStay(p: Primitives, st: State, st': State, key: Key)
    requires SameBackend(st, st') && Unlocked(p, st) && Unlocked(p, st')
    ensures SelfDescribed(p, st, key) <==> SelfDescribed(p, st', key)
  {
  }

  lemma IndexedAreRegistered(p: Primitives, st: State, kek: string)
    requires Healthy(p, st)
    ensures (forall l :: l in st.index ==> SelfDescribed(p, st.(kek := Some(kek)), st.index[l])) <==> Truthful(p, st, kek)
  {
    var keys := st.backup.registry;
    forall l | l in st.index ensures st.index[l] in keys {
      IndexHas(keys, l);
      var i :| 0 <= i < |keys| && keys[i].locator == l;
      IndexAt(keys, i);
    }
    forall i | 0 <= i < |keys| ensures keys[i].locator in st.index && st.index[keys[i].locator] == keys[i] {
      IndexAt(keys, i);
    }
  }

  /** Activation succeeds exactly for a key of the right length that opens the root, over true descriptions. */
  lemma ActivatesExactly(p: Primitives, st: State, secret: string)
    requires Healthy(p, st)
    ensures Activate(p, st, secret) == (st.(kek := Some(secret)), Ok(()))
            <==> && |secret| == KEK_LENGTH && p.opens(secret)
                 && RootDescribed(p, st.(kek := Some(secret))) && Truthful(p, st, secret)
    ensures Activate(p, st, secret).1.Err? ==> Activate(p, st, secret).0 == if |secret| == KEK_LENGTH then st.(kek := None) else st
  {
    IndexedAreRegistered(p, st, secret);
  }

  // ---------------------------------------------------------------- keeping descriptions true

  /** The step registers a key that its derivation does not give. */
  predicate Misdescribes(p: Primitives, st: State, c: Command, kek: string) {
    && Registers(c) && Entered(p, st, c).Some? && (st.disk.None? || c.persistOk)
    && Entered(p, st, c).value.0 !in st.backup.registry
    && !SelfDescribed(p, st.(kek := Some(kek)), Entered(p, st, c).value.0)
  }

  /** An allocated key is what its derivation gives. */
  lemma AllocatedIsTruthful(p: Primitives, st: State, parent: Key, path: string, kek: string)
    requires Healthy(p, st) && ValidParent(p, st, parent) && p.opens(kek) && DescribeChild(p, st, parent, path).Ok?
    ensures SelfDescribed(p, st.(kek := Some(kek)), DescribeChild(p, st, parent, path).value.key)
  {
  }

  lemma PushedTruthful(p: Primitives, st: State, st': State, key: Key, kek: string)
    requires Truthful(p, st, kek) && SameBackend(st, st') && p.opens(kek)
    requires st'.backup.registry == st.backup.registry + [key]
    ensures Truthful(p, st', kek) <==> SelfDescribed(p, st.(kek := Some(kek)), key)
  {
    var a, b := st.(kek := Some(kek)), st'.(kek := Some(kek));
    var n := |st.backup.registry|;
    assert st'.backup.registry[n] == key;
    DescriptionsStay(p, a, b, key);
    forall i | 0 <= i < n ensures SelfDescribed(p, b, st'.backup.registry[i]) {
      DescriptionsStay(p, a, b, st.backup.registry[i]);
    }
  }

  /** Fewer keys, or the same ones, stay truthful. */
  lemma SubsetTruthful(p: Primitives, st: State, st': State, kek: string)
    requires Truthful(p, st, kek) && SameBackend(st, st') && p.opens(kek)
    requires forall k :: k in st'.backup.registry ==> k in st.backup.registry
    ensures Truthful(p, st', kek)
  {
    forall i | 0 <= i < |st'.backup.registry| ensures SelfDescribed(p, st'.(kek := Some(kek)), st'.backup.registry[i]) {
      var key := st'.backup.registry[i];
      assert key in st.backup.registry;
      DescriptionsStay(p, st.(kek := Some(kek)), st'.(kek := Some(kek)), key);
    }
  }

  lemma AllocateAtTruthful(p: Primitives, st: State, parent: Key, i: nat, op: Option<string>, persistOk: bool, kek: string)
    requires Healthy(p, st) && Truthful(p, st, kek) && p.opens(kek) && ValidParent(p, st, parent) && i < |st.backup.namespaces|
    ensures Truthful(p, AllocateAt(p, st, parent, i, op, persistOk).0, kek)
  {
    var st', n := AllocateAt(p, st, parent, i, op, persistOk).0, st.backup.namespaces[i];
    var path := PathAt(n.prefix, n.next, parent.ed25519);
    AllocateAtKeepsBackend(p, st, parent, i, op, persistOk);
    if st'.backup.registry == st.backup.registry {
      SubsetTruthful(p, st, st', kek);
    } else {
      var d := DescribeChild(p, st, parent, path).value;
      AllocatedIsTruthful(p, st, parent, path, kek);
      PushedTruthful(p, st, st', d.key, kek);
    }
  }

  lemma AllocateTruthful(p: Primitives, st: State, parent: Key, id: string, authority: Option<string>, op: Option<string>,
                         persistOk: bool, kek: string)
    requires Healthy(p, st) && Truthful(p, st, kek) && p.opens(kek)
    ensures Truthful(p, Allocate(p, st, parent, id, authority, op, persistOk).0, kek)
  {
    var found := FindNamespace(st.backup.namespaces, id);
    if found.Some? && ValidParent(p, st, parent) {
      AllocateAtTruthful(p, st, parent, found.value, op, persistOk, kek);
    }
  }

  lemma ChildTruthful(p: Primitives, st: State, key: Key, description: Option<Description>, op: Option<string>, persistOk: bool, kek: string)
    requires Persisted(st) && Truthful(p, st, kek) && p.opens(kek)
    ensures Truthful(p, RegisterChild(st, key, description, op, persistOk).0, kek)
            <==> key in st.backup.registry || (st.disk.Some? && !persistOk) || SelfDescribed(p, st.(kek := Some(kek)), key)
  {
    var st' := RegisterChild(st, key, description, op, persistOk).0;
    ChildKeepsBackend(st, key, description, op, persistOk);
    if key in st.backup.registry || st'.backup.registry == st.backup.registry {
      SubsetTruthful(p, st, st', kek);
    } else {
      PushedTruthful(p, st, st', key, kek);
    }
  }

  lemma RegisterTruthful(p: Primitives, st: State, c: Command, kek: string)
    requires Registers(c) && Persisted(st) && Truthful(p, st, kek) && p.opens(kek)
    ensures Truthful(p, Step(p, st, c), kek) <==> !Misdescribes(p, st, c, kek)
  {
    EnteredIsRegistered(p, st, c);
    if Entered(p, st, c).Some? {
      ChildTruthful(p, st, Entered(p, st, c).value.0, Entered(p, st, c).value.1, c.op, c.persistOk, kek);
    }
  }

  /** The entry that derives the child never misdescribes a BIP-39 one. */
  lemma DerivedEntryIsTruthful(p: Primitives, st: State, c: Command, kek: string)
    requires c.RegisterCmd? && p.opens(kek) && st.backup.material == Bip39Entropy
    requires c.key.derivation.Some? ==> c.key.derivation.value.family != Bip32
    ensures !Misdescribes(p, st, c, kek)
  {
  }

  lemma TombstoneTruthful(p: Primitives, st: State, key: Key, persistOk: bool, kek: string)
    requires Persisted(st) && Truthful(p, st, kek) && p.opens(kek)
    ensures Truthful(p, Tombstone(st, key, persistOk).0, kek)
  {
    var st' := Tombstone(st, key, persistOk).0;
    TombstoneKeepsBackend(st, key, persistOk);
    var from := KeptKeys(st.backup.registry, key);
    forall k | k in st'.backup.registry ensures k in st.backup.registry {
      var i :| 0 <= i < |st'.backup.registry| && st'.backup.registry[i] == k;
    }
    SubsetTruthful(p, st, st', kek);
  }

  /** A step keeps every registered key true exactly when it does not register a misdescribed one. */
  lemma StepKeepsTruthfulExactly(p: Primitives, st: State, c: Command, kek: string)
    requires Healthy(p, st) && Truthful(p, st, kek) && p.opens(kek)
    ensures Truthful(p, Step(p, st, c), kek) <==> !Misdescribes(p, st, c, kek)
  {
    match c
    case AllocateCmd(parent, id, authority, op, ok) => AllocateTruthful(p, st, parent, id, authority, op, ok, kek);
    case RegisterCmd(_, _, _) => RegisterTruthful(p, st, c, kek);
    case RegisterDescriptionCmd(_, _, _) => RegisterTruthful(p, st, c, kek);
    case TombstoneCmd(key, ok) => TombstoneTruthful(p, st, key, ok, kek);
    case _ =>
      StepKeepsBackend(p, st, c);
      SubsetTruthful(p, st, Step(p, st, c), kek);
  }

  /** Every key but the dropped one was true. */
  lemma DroppedTruthful(p: Primitives, st: State, st': State, key: Key, kek: string)
    requires Truthful(p, st, kek) && p.opens(kek) && SameBackend(st, st')
    requires st'.backup.registry == WithoutKey(st.backup.registry + [key], key)
    ensures Truthful(p, st', kek)
  {
    var from := KeptKeys(st.backup.registry + [key], key);
    forall k | k in st'.backup.registry ensures k in st.backup.registry {
      var i :| 0 <= i < |st'.backup.registry| && st'.backup.registry[i] == k;
      assert (st.backup.registry + [key])[from[i]] == k != key;
    }
    SubsetTruthful(p, st, st', kek);
  }

  lemma RegisteredKey(st: State, key: Key, description: Option<Description>, op: Option<string>, persistOk: bool)
    requires key !in st.backup.registry && (st.disk.None? || persistOk)
    ensures var st1 := RegisterChild(st, key, description, op, persistOk).0;
            st1.backup.registry == st.backup.registry + [key] && key.locator in st1.index && st1.index[key.locator] == key
  {
  }

  lemma TombstonedKey(st: State, key: Key)
    requires key.derivation.Some? && key.locator in st.index && st.index[key.locator] == key
    ensures var st1 := Tombstone(st, key, true).0;
            st1.backup.registry == WithoutKey(st.backup.registry, key)
  {
  }

  lemma DropActivates(p: Primitives, st: State, st1: State, key: Key, kek: string, st2: State)
    requires Healthy(p, st1) && SameBackend(st, st1) && Truthful(p, st, kek)
    requires |kek| == KEK_LENGTH && p.opens(kek) && RootDescribed(p, st.(kek := Some(kek)))
    requires st2 == Tombstone(st1, key, true).0 && st2.backup.registry == WithoutKey(st.backup.registry + [key], key)
    ensures Activate(p, st2, kek) == (st2.(kek := Some(kek)), Ok(()))
  {
    TombstoneHealthy(p, st1, key, true);
    TombstoneKeepsBackend(st1, key, true);
    DroppedTruthful(p, st, st2, key, kek);
    RootStays(p, st, st2, kek);
    ActivatesExactly(p, st2, kek);
  }

  lemma RootStays(p: Primitives, st: State, st': State, kek: string)
    requires SameBackend(st, st') && RootDescribed(p, st.(kek := Some(kek)))
    ensures RootDescribed(p, st'.(kek := Some(kek)))
  {
  }

  /** Registering a key and tombstoning it again leaves a backend that its root's key opens. */
  lemma DropLetsIn(p: Primitives, st: State, key: Key, description: Option<Description>, op: Option<string>, persistOk: bool,
                   kek: string, st1: State, st2: State)
    requires Healthy(p, st1) && SameBackend(st, st1) && Truthful(p, st, kek)
    requires |kek| == KEK_LENGTH && p.opens(kek) && RootDescribed(p, st.(kek := Some(kek)))
    requires key.derivation.Some? && key !in st.backup.registry && (st.disk.None? || persistOk)
    requires st1 == RegisterChild(st, key, description, op, persistOk).0 && st2 == Tombstone(st1, key, true).0
    ensures Activate(p, st2, kek) == (st2.(kek := Some(kek)), Ok(()))
  {
    RegisteredKey(st, key, description, op, persistOk);
    TombstonedKey(st1, key);
    DropActivates(p, st, st1, key, kek, st2);
  }

  lemma MisdescribedRefused(p: Primitives, st: State, c: Command, kek: string, st1: State)
    requires Healthy(p, st) && LocatorsSound(p, st.backup.rootId) && Honest(p, st, c) && Truthful(p, st, kek)
    requires |kek| == KEK_LENGTH && p.opens(kek) && Misdescribes(p, st, c, kek) && st1 == Step(p, st, c)
    ensures Healthy(p, st1) && SameBackend(st, st1)
    ensures Activate(p, st1, kek) == (st1.(kek := None), Err(DefinitiveRejected))
  {
    StepHealthy(p, st, c);
    StepKeepsBackend(p, st, c);
    RegisterTruthful(p, st, c, kek);
    ActivatesExactly(p, st1, kek);
  }

  /** The key a misdescribing step registers, and how. */
  lemma MisdescribedKey(p: Primitives, st: State, c: Command, kek: string) returns (key: Key, description: Option<Description>)
    requires Misdescribes(p, st, c, kek)
    ensures Entered(p, st, c) == Some((key, description)) && key.derivation.Some? && key !in st.backup.registry
    ensures Step(p, st, c) == RegisterChild(st, key, description, c.op, c.persistOk).0
  {
    EnteredIsRegistered(p, st, c);
    key, description := Entered(p, st, c).value.0, Entered(p, st, c).value.1;
  }

  /**
   A registration by description derives nothing: after a misdescribed key the root's own key is
   refused, and tombstoning that key lets it in again.
   */
  lemma MisdescribedBlocksActivation(p: Primitives, st: State, c: Command, kek: string, st1: State, st2: State)
    requires Healthy(p, st) && LocatorsSound(p, st.backup.rootId) && Honest(p, st, c) && Truthful(p, st, kek)
    requires |kek| == KEK_LENGTH && p.opens(kek) && RootDescribed(p, st.(kek := Some(kek))) && Misdescribes(p, st, c, kek)
    requires st1 == Step(p, st, c) && st2 == Tombstone(st1, Entered(p, st, c).value.0, true).0
    ensures Activate(p, st1, kek) == (st1.(kek := None), Err(DefinitiveRejected))
    ensures Activate(p, st2, kek) == (st2.(kek := Some(kek)), Ok(()))
  {
    MisdescribedRefused(p, st, c, kek, st1);
    var key, description := MisdescribedKey(p, st, c, kek);
    DropLetsIn(p, st, key, description, c.op, c.persistOk, kek, st1, st2);
  }

  predicate NoneMisdescribed(p: Primitives, st: State, commands: seq<Command>, kek: string)
    decreases |commands|
  {
    commands != [] ==>
      !Misdescribes(p, st, commands[0], kek) && NoneMisdescribed(p, Step(p, st, commands[0]), commands[1..], kek)
  }

  lemma {:induction false} RunTruthful(p: Primitives, st: State, commands: seq<Command>, kek: string)
    requires Healthy(p, st) && LocatorsSound(p, st.backup.rootId) && AllHonest(p, st, commands)
    requires Truthful(p, st, kek) && p.opens(kek) && NoneMisdescribed(p, st, commands, kek)
    ensures Truthful(p, Run(p, st, commands), kek)
    decreases |commands|
  {
    if commands != [] {
      StepKeepsTruthfulExactly(p, st, commands[0], kek);
      StepHealthy(p, st, commands[0]);
      StepKeepsBackend(p, st, commands[0]);
      RunTruthful(p, Step(p, st, commands[0]), commands[1..], kek);
    }
  }

  // ---------------------------------------------------------------- restart and activation

  /** A provisioned root keeps the fingerprint it is known by. */
  lemma ProvisionedRoot(p: Primitives, instance: string, rootId: string, kek: string, onDisk: bool, start: State, t: State, secret: string)
    requires Provisioned(p, instance, rootId, kek, onDisk, start) && SameBackend(start, t) && p.opens(secret)
    ensures RootDescribed(p, t.(kek := Some(secret)))
  {
  }

  /**
   From provisioning on, whatever runs, a restart loses the active key only, and activation brings
   back exactly the state before it if and only if the key has the right length, opens the root and
   every registered key is what its derivation gives.
   */
  lemma RestartThenActivate(p: Primitives, instance: string, rootId: string, kek: string, onDisk: bool, start: State,
                            commands: seq<Command>, secret: string)
    requires LocatorsSound(p, rootId) && Provisioned(p, instance, rootId, kek, onDisk, start) && AllHonest(p, start, commands)
    ensures var t := Run(p, start, commands);
            && Restart(p, t) == Ok(t.(kek := None))
            && (Activate(p, Restart(p, t).value, secret) == (t.(kek := Some(secret)), Ok(()))
                <==> |secret| == KEK_LENGTH && p.opens(secret) && Truthful(p, t, secret))
  {
    RestoreRebuildsMemory(p, instance, rootId, kek, onDisk, start, commands);
    ProvisionedHealthy(p, instance, rootId, kek, onDisk, start);
    RunHealthy(p, start, commands);
    RunKeepsBackend(p, start, commands);
    var t := Run(p, start, commands);
    if p.opens(secret) {
      ProvisionedRoot(p, instance, rootId, kek, onDisk, start, t, secret);
    }
    ActivatesExactly(p, t.(kek := None), secret);
  }

  /** A run that registers only what derivation gives can always be restarted and activated. */
  lemma TruthfulRunActivates(p: Primitives, instance: string, rootId: string, kek: string, onDisk: bool, start: State,
                             commands: seq<Command>, secret: string)
    requires LocatorsSound(p, rootId) && Provisioned(p, instance, rootId, kek, onDisk, start) && AllHonest(p, start, commands)
    requires |secret| == KEK_LENGTH && p.opens(secret) && NoneMisdescribed(p, start, commands, secret)
    ensures var t := Run(p, start, commands);
            Run(p, t, [RestartCmd, ActivateCmd(secret)]) == t.(kek := Some(secret))
  {
    ProvisionedHealthy(p, instance, rootId, kek, onDisk, start);
    RunTruthful(p, start, commands, secret);
    RestartThenActivate(p, instance, rootId, kek, onDisk, start, commands, secret);
    var t := Run(p, start, commands);
    RunTwo(p, t, RestartCmd, ActivateCmd(secret));
  }

  lemma RunTwo(p: Primitives, st: State, a: Command, b: Command)
    ensures Run(p, st, [a, b]) == Step(p, Step(p, st, a), b)
  {
    assert [a, b][1..] == [b] && [b][1..] == [];
    assert Run(p, st, [a, b]) == Run(p, Step(p, st, a), [b]);
    assert Run(p, Step(p, st, a), [b]) == Run(p, Step(p, Step(p, st, a), b), []);
  }
}
