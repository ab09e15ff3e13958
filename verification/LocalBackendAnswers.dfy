/**
 What every operation of the backend answers and leaves, told in the fields of its state; that every
 pending operation's key is registered; and what finalizing and tombstoning end.
 */
module LocalBackendAnswers {
  import opened Limits
  import opened Wrappers
  import opened LocalBackend
  import opened LocalBackendTheorems
  import opened LocalBackendAllocation
  import opened LocalBackendRetry

  /** A backup can be written out, or there is no file. */
  predicate Writable(st: State, persistOk: bool) { st.disk.None? || persistOk }

  /** The backup is replaced in memory and in the file, and nothing else changes but the index. */
  function Rewritten(st: State, b: Backup, index: map<string, Key>): State {
    st.(backup := b, index := index, disk := if st.disk.Some? then Some(b) else None)
  }

  // ---------------------------------------------------------------- every pending key is registered

  predicate PendingRegistered(b: Backup) { forall op :: op in b.pending ==> b.pending[op] in b.registry }

  lemma CommitKeepsPending(st: State, next: Backup, persistOk: bool)
    requires PendingRegistered(st.backup) && PendingRegistered(next)
    ensures PendingRegistered(CommitBackup(st, next, persistOk).0.backup)
  {
  }

  lemma PushKeepsPending(b: Backup, key: Key, description: Option<Description>, op: Option<string>)
    requires PendingRegistered(b)
    ensures PendingRegistered(PushKey(b, key, description, op))
  {
    var next := PushKey(b, key, description, op);
    assert next.registry[|b.registry|] == key;
    forall o | o in next.pending ensures next.pending[o] in next.registry {
      if next.pending[o] != key {
        assert b.pending[o] in b.registry;
      }
    }
  }

  lemma DropKeepsPending(b: Backup, key: Key, path: string)
    requires PendingRegistered(b)
    ensures PendingRegistered(DropKey(b, key, path))
  {
    var next := DropKey(b, key, path);
    forall o | o in next.pending ensures next.pending[o] in next.registry {
      OthersKept(b.registry, key, b.pending[o]);
    }
  }

  lemma ChildKeepsPending(st: State, key: Key, description: Option<Description>, op: Option<string>, persistOk: bool)
    requires PendingRegistered(st.backup)
    ensures PendingRegistered(RegisterChild(st, key, description, op, persistOk).0.backup)
  {
    PushKeepsPending(st.backup, key, description, op);
  }

  lemma RegisterKeepsPending(p: Primitives, st: State, c: Command)
    requires Registers(c) && PendingRegistered(st.backup)
    ensures PendingRegistered(Step(p, st, c).backup)
  {
    EnteredIsRegistered(p, st, c);
    if Entered(p, st, c).Some? {
      ChildKeepsPending(st, Entered(p, st, c).value.0, Entered(p, st, c).value.1, c.op, c.persistOk);
    }
  }

  lemma AllocateAtKeepsPending(p: Primitives, st: State, parent: Key, i: nat, op: Option<string>, persistOk: bool)
    requires i < |st.backup.namespaces| && PendingRegistered(st.backup)
    ensures PendingRegistered(AllocateAt(p, st, parent, i, op, persistOk).0.backup)
  {
    var n := st.backup.namespaces[i];
    var d := DescribeChild(p, st, parent, PathAt(n.prefix, n.next, parent.ed25519));
    if d.Ok? {
      PushKeepsPending(Advanced(st.backup, i), d.value.key, Some(d.value), op);
    }
  }

  lemma AllocateKeepsPending(p: Primitives, st: State, c: Command)
    requires c.AllocateCmd? && PendingRegistered(st.backup)
    ensures PendingRegistered(Step(p, st, c).backup)
  {
    var found := FindNamespace(st.backup.namespaces, c.namespace);
    if found.Some? {
      AllocateAtKeepsPending(p, st, c.parent, found.value, c.op, c.persistOk);
    }
  }

  lemma StepKeepsPending(p: Primitives, st: State, c: Command)
    requires Persisted(st) && PendingRegistered(st.backup)
    ensures PendingRegistered(Step(p, st, c).backup)
  {
    match c
    case AllocateCmd(_, _, _, _, _) => AllocateKeepsPending(p, st, c);
    case RegisterCmd(_, _, _) => RegisterKeepsPending(p, st, c);
    case RegisterDescriptionCmd(_, _, _) => RegisterKeepsPending(p, st, c);
    case TombstoneCmd(key, _) =>
      if key.derivation.Some? {
        DropKeepsPending(st.backup, key, key.derivation.value.path);
      }
    case ConfigureCmd(_, _, _) =>
    case FinalizeCmd(_, _) =>
    case _ => LockStep(p, st, c);
  }

  /** Over every run, wherever writing fails, every pending operation's key is registered. */
  lemma {:induction false} RunKeepsPending(p: Primitives, st: State, commands: seq<Command>)
    requires Persisted(st) && PendingRegistered(st.backup)
    ensures PendingRegistered(Run(p, st, commands).backup)
    decreases |commands|
  {
    if commands != [] {
      StepKeepsPending(p, st, commands[0]);
      StepKeepsBackend(p, st, commands[0]);
      RunKeepsPending(p, Step(p, st, commands[0]), commands[1..]);
    }
  }

  // ---------------------------------------------------------------- tombstoning

  /** What `DropKey` keeps, told by membership. */
  ghost predicate Dropped(b: Backup, b': Backup, key: Key, path: string) {
    && (forall k :: k in b'.registry <==> k in b.registry && k != key)
    && (forall d :: d in b'.descriptions <==> d in b.descriptions && d.key != key)
    && (forall op :: op in b'.pending <==> op in b.pending && b.pending[op] != key)
    && (forall op :: op in b'.pending ==> b'.pending[op] == b.pending[op])
    && (forall x :: x in b'.tombstones <==> x in b.tombstones || x == path)
    && b' == b.(registry := b'.registry, descriptions := b'.descriptions, pending := b'.pending, tombstones := b'.tombstones)
  }

  lemma {:induction false} KeptKeysExactly(keys: seq<Key>, key: Key, k: Key)
    ensures k in WithoutKey(keys, key) <==> k in keys && k != key
    decreases |keys|
  {
    if |keys| > 0 {
      var n := |keys| - 1;
      KeptKeysExactly(keys[..n], key, k);
      assert keys == keys[..n] + [keys[n]];
    }
  }

  lemma {:induction false} KeptDescriptionsExactly(ds: seq<Description>, key: Key, d: Description)
    ensures d in WithoutDescription(ds, key) <==> d in ds && d.key != key
    decreases |ds|
  {
    if |ds| > 0 {
      var n := |ds| - 1;
      KeptDescriptionsExactly(ds[..n], key, d);
      assert ds == ds[..n] + [ds[n]];
    }
  }

  lemma DropsExactly(b: Backup, key: Key, path: string)
    ensures Dropped(b, DropKey(b, key, path), key, path)
  {
    var b' := DropKey(b, key, path);
    forall k ensures k in b'.registry <==> k in b.registry && k != key {
      KeptKeysExactly(b.registry, key, k);
    }
    forall d ensures d in b'.descriptions <==> d in b.descriptions && d.key != key {
      KeptDescriptionsExactly(b.descriptions, key, d);
    }
  }

  /**
   A derived key is tombstoned if and only if it is indexed and the backup can be written; it is then dropped everywhere,
   its pending operations with it.
   */
  lemma TombstoneExactly(st: State, key: Key, persistOk: bool)
    ensures var (st', r) := Tombstone(st, key, persistOk);
            && (r.Ok? <==> key.derivation.Some? && key.locator in st.index && st.index[key.locator] == key && Writable(st, persistOk))
            && (if r.Ok? then
                  && Dropped(st.backup, st'.backup, key, key.derivation.value.path)
                  && st' == Rewritten(st, st'.backup, st.index - {key.locator})
                else st' == st)
  {
    if key.derivation.Some? {
      DropsExactly(st.backup, key, key.derivation.value.path);
    }
  }

  /** No allocation, new or repeated, answers a tombstoned path. */
  lemma AnswersNoTombstone(p: Primitives, st: State, c: Command)
    requires c.AllocateCmd? && Healthy(p, st) && PendingRegistered(st.backup)
    ensures var r := Allocate(p, st, c.parent, c.namespace, c.authority, c.op, c.persistOk).1;
            r.Ok? ==> r.value.key.derivation.Some? && r.value.key.derivation.value.path !in st.backup.tombstones
  {
    var r := Allocate(p, st, c.parent, c.namespace, c.authority, c.op, c.persistOk).1;
    if r.Ok? {
      if c.op.Some? && c.op.value in st.backup.pending {
        var key := st.backup.pending[c.op.value];
        var i :| 0 <= i < |st.backup.registry| && st.backup.registry[i] == key;
        assert KeyFits(st.instance, st.backup, st.backup.registry[i]);
        PathDescribedAgain(p, st, key);
      } else {
        AllocationTakesNext(p, st, c, c.namespace);
      }
    }
  }

  /**
   After an accepted tombstone no operation is pending for the key, and whatever runs then, no
   allocation or retry under any operation answers the key or its path.
   */
  lemma TombstoneEnds(p: Primitives, st: State, key: Key, persistOk: bool, commands: seq<Command>, c: Command)
    requires Healthy(p, st) && PendingRegistered(st.backup) && LocatorsSound(p, st.backup.rootId)
    requires Tombstone(st, key, persistOk).1.Ok? && AllHonest(p, Tombstone(st, key, persistOk).0, commands) && c.AllocateCmd?
    ensures var st1 := Tombstone(st, key, persistOk).0;
            && (forall op :: op in st1.backup.pending ==> st1.backup.pending[op] != key)
            && var r := Allocate(p, Run(p, st1, commands), c.parent, c.namespace, c.authority, c.op, c.persistOk).1;
               r.Ok? ==> r.value.key.derivation.Some? && r.value.key.derivation.value.path != key.derivation.value.path && r.value.key != key
  {
    var st1 := Tombstone(st, key, persistOk).0;
    TombstoneExactly(st, key, persistOk);
    TombstoneHealthy(p, st, key, persistOk);
    TombstoneKeepsBackend(st, key, persistOk);
    StepKeepsPending(p, st, TombstoneCmd(key, persistOk));
    RunHealthy(p, st1, commands);
    RunKeepsPending(p, st1, commands);
    TombstonedForever(p, st1, commands, key.derivation.value.path);
    AnswersNoTombstone(p, Run(p, st1, commands), c);
  }

  // ---------------------------------------------------------------- finalizing

  /** An operation is finalized if and only if it is pending and the backup can be written, and then it alone is no longer pending. */
  lemma FinalizeExactly(st: State, op: string, persistOk: bool)
    ensures var (st', r) := Finalize(st, op, persistOk);
            && (r.Ok? <==> op in st.backup.pending && Writable(st, persistOk))
            && (if r.Ok? then
                  && (forall o :: o in st'.backup.pending <==> o in st.backup.pending && o != op)
                  && (forall o :: o in st'.backup.pending ==> st'.backup.pending[o] == st.backup.pending[o])
                  && st' == Rewritten(st, st.backup.(pending := st'.backup.pending), st.index)
                else st' == st)
  {
  }

  /** After it, an allocation under the operation is a new one: it takes the namespace's next index and moves its counter. */
  lemma FinalizedAllocatesAnew(p: Primitives, st: State, op: string, persistOk: bool, c: Command)
    requires Finalize(st, op, persistOk).1.Ok? && c.AllocateCmd? && c.op == Some(op)
    ensures var st1 := Finalize(st, op, persistOk).0;
            var r := Allocate(p, st1, c.parent, c.namespace, c.authority, c.op, c.persistOk).1;
            r.Ok? ==>
              && NamespaceOf(st1, c.namespace).Some? && r.value.key.derivation.Some?
              && var n := NamespaceOf(st1, c.namespace).value;
                 && r.value.key.derivation.value.path == PathAt(n.prefix, n.next, c.parent.ed25519)
                 && !HasPath(st1.backup.registry, r.value.key.derivation.value.path)
  {
    FinalizeExactly(st, op, persistOk);
    var st1 := Finalize(st, op, persistOk).0;
    if Allocate(p, st1, c.parent, c.namespace, c.authority, c.op, c.persistOk).1.Ok? {
      AllocationTakesNext(p, st1, c, c.namespace);
    }
  }

  /** From provisioning on, failing writes included. */
  lemma PendingFromProvisioning(p: Primitives, instance: string, rootId: string, kek: string, onDisk: bool, start: State,
                                commands: seq<Command>, op: string)
    requires Provisioned(p, instance, rootId, kek, onDisk, start)
    ensures var b := Run(p, start, commands).backup;
            op in b.pending ==> b.pending[op] in b.registry
  {
    RunKeepsPending(p, start, commands);
  }

  // ---------------------------------------------------------------- granting

  /** The first namespace of an id. */
  predicate IsNamespace(b: Backup, id: string, i: nat) {
    i < |b.namespaces| && b.namespaces[i].id == id && forall j :: 0 <= j < i ==> b.namespaces[j].id != id
  }

  lemma FoundIsFirst(b: Backup, id: string, i: nat)
    ensures IsNamespace(b, id, i) <==> FindNamespace(b.namespaces, id) == Some(i)
  {
  }

  predicate Named(b: Backup, id: string) { exists i :: 0 <= i < |b.namespaces| && b.namespaces[i].id == id }

  /** The namespace was made by this very grant. */
  predicate MadeBy(b: Backup, i: nat, g: Grant, authority: string) {
    && IsNamespace(b, g.namespace, i) && b.namespaces[i].authority == authority && b.namespaces[i].prefix == g.prefix
    && b.namespaces[i].limit == g.start + g.maximum
  }

  /** A verified grant of at least one index, all of them below 2^31. */
  predicate Granted(p: Primitives, st: State, g: Grant, authority: Option<string>) {
    && st.backup.material != ImportedScalar && authority.Some? && p.validPrefix(g.prefix)
    && g.maximum > 0 && g.start < HARDENED_OFFSET && g.start + g.maximum <= HARDENED_OFFSET
  }

  /** A grant is accepted if and only if it is verified, in range, and new and writable, or the very one its namespace was made by. */
  lemma ConfigureExactly(p: Primitives, st: State, g: Grant, authority: Option<string>, persistOk: bool)
    ensures var (st', r) := ConfigureNamespace(p, st, g, authority, persistOk);
            && (r.Ok? <==> Granted(p, st, g, authority)
                           && if Named(st.backup, g.namespace) then exists i: nat :: MadeBy(st.backup, i, g, authority.value)
                              else Writable(st, persistOk))
            && (if r.Ok? && !Named(st.backup, g.namespace) then
                  st' == Rewritten(st, st.backup.(namespaces := st.backup.namespaces
                                                    + [Namespace(g.namespace, g.prefix, g.start, g.start + g.maximum, authority.value)]), st.index)
                else st' == st)
  {
    var found := FindNamespace(st.backup.namespaces, g.namespace);
    if found.Some? && authority.Some? {
      FoundIsFirst(st.backup, g.namespace, found.value);
      forall i: nat | MadeBy(st.backup, i, g, authority.value) ensures i == found.value {
        FoundIsFirst(st.backup, g.namespace, i);
      }
      assert ConfigureNamespace(p, st, g, authority, persistOk).1.Ok? ==> MadeBy(st.backup, found.value, g, authority.value);
    }
  }

  // ---------------------------------------------------------------- allocating

  /** The parent allocation asks for: a registered key over BIP-39 entropy, else the root, pinned or described. */
  predicate IsParent(p: Primitives, st: State, parent: Key) {
    if st.backup.material == Bip39Entropy then parent in st.backup.registry
    else if st.backup.pinnedRoot.Some? then parent == st.backup.pinnedRoot.value
    else Unlocked(p, st) && p.derive(Bip32, "m").Ok?
         && parent == Key("local", st.instance, "root:" + st.backup.rootId, false, p.digest(p.derive(Bip32, "m").value), None)
  }

  lemma ParentExactly(p: Primitives, st: State, parent: Key)
    ensures CheckParent(p, st, parent).Ok? <==> IsParent(p, st, parent)
  {
  }

  /** The child of a parent at a path: BIP-32 from the raw material, or Solana under a Solana parent. */
  function ChildKey(p: Primitives, st: State, parent: Key, path: string, spki: string): Key {
    Key("local", st.instance, p.locate(path), parent.ed25519, p.digest(spki),
        Some(if parent.ed25519 && parent.derivation.Some? then Derivation(Bip39Solana, parent.derivation.value.root, path)
             else Derivation(Bip32, st.backup.rootId, path)))
  }

  predicate Derivable(p: Primitives, st: State, parent: Key, path: string, spki: string) {
    && Unlocked(p, st)
    && (if parent.ed25519 then
          && parent.derivation.Some? && parent.derivation.value.family == Bip39Solana && p.parses(Bip39Solana, path)
          && p.derive(Bip39Solana, path) == Ok(spki)
        else
          && p.derive(Bip32, path) == Ok(spki)
          && (if path == "m" then st.backup.material != Bip39Entropy else p.canonical(path) && st.backup.material != ImportedScalar))
  }

  lemma ChildExactly(p: Primitives, st: State, parent: Key, path: string)
    ensures DescribeChild(p, st, parent, path).Ok? <==> exists spki :: Derivable(p, st, parent, path, spki)
    ensures forall spki :: Derivable(p, st, parent, path, spki) ==>
              DescribeChild(p, st, parent, path) == Ok(Description(ChildKey(p, st, parent, path, spki), spki, p.digest(spki)))
  {
    if DescribeChild(p, st, parent, path).Ok? {
      assert Derivable(p, st, parent, path, DescribeChild(p, st, parent, path).value.spki);
    }
  }

  /** The namespace has an index left below 2^31, on a path nobody has or had. */
  predicate Available(st: State, i: nat, path: string)
    requires i < |st.backup.namespaces|
  {
    var n := st.backup.namespaces[i];
    && n.next < n.limit && n.next < HARDENED_OFFSET && path !in st.backup.tombstones
    && forall k :: k in st.backup.registry && k.derivation.Some? ==> k.derivation.value.path != path
  }

  /** The new key an allocation makes, when it makes one. */
  predicate Allocates(p: Primitives, st: State, parent: Key, id: string, authority: Option<string>, persistOk: bool, i: nat, spki: string) {
    && authority.Some? && IsParent(p, st, parent) && IsNamespace(st.backup, id, i)
    && authority.value == st.backup.namespaces[i].authority
    && var path := PathAt(st.backup.namespaces[i].prefix, st.backup.namespaces[i].next, parent.ed25519);
       Available(st, i, path) && Derivable(p, st, parent, path, spki) && Writable(st, persistOk)
  }

  /** What it leaves: the counter moved, the key registered, described, indexed and pending. */
  function AfterAllocation(p: Primitives, st: State, parent: Key, i: nat, op: Option<string>, spki: string): State
    requires i < |st.backup.namespaces|
  {
    var n, b := st.backup.namespaces[i], st.backup;
    var key := ChildKey(p, st, parent, PathAt(n.prefix, n.next, parent.ed25519), spki);
    Rewritten(st, b.(namespaces := b.namespaces[i := n.(next := n.next + 1)],
                     registry := b.registry + [key],
                     descriptions := b.descriptions + [Description(key, spki, p.digest(spki))],
                     pending := if op.Some? then b.pending[op.value := key] else b.pending),
              st.index[key.locator := key])
  }

  lemma AllocateAtExactly(p: Primitives, st: State, parent: Key, i: nat, op: Option<string>, persistOk: bool, spki: string)
    requires i < |st.backup.namespaces|
    requires var n := st.backup.namespaces[i];
             var path := PathAt(n.prefix, n.next, parent.ed25519);
             n.next < n.limit && Available(st, i, path) && Derivable(p, st, parent, path, spki) && Writable(st, persistOk)
    ensures var n := st.backup.namespaces[i];
            var key := ChildKey(p, st, parent, PathAt(n.prefix, n.next, parent.ed25519), spki);
            AllocateAt(p, st, parent, i, op, persistOk)
            == (AfterAllocation(p, st, parent, i, op, spki), Ok(Description(key, spki, p.digest(spki))))
  {
    var n := st.backup.namespaces[i];
    ChildExactly(p, st, parent, PathAt(n.prefix, n.next, parent.ed25519));
  }

  lemma AllocateAtRefuses(p: Primitives, st: State, parent: Key, i: nat, op: Option<string>, persistOk: bool)
    requires i < |st.backup.namespaces|
    requires var n := st.backup.namespaces[i];
             var path := PathAt(n.prefix, n.next, parent.ed25519);
             n.next < n.limit && n.next < HARDENED_OFFSET
             && (!Available(st, i, path) || !Writable(st, persistOk) || forall spki :: !Derivable(p, st, parent, path, spki))
    ensures AllocateAt(p, st, parent, i, op, persistOk).0 == st && AllocateAt(p, st, parent, i, op, persistOk).1.Err?
  {
    var n := st.backup.namespaces[i];
    var path := PathAt(n.prefix, n.next, parent.ed25519);
    ChildExactly(p, st, parent, path);
    if !HasPath(st.backup.registry, path) {
      forall k | k in st.backup.registry && k.derivation.Some? ensures k.derivation.value.path != path {
        var j :| 0 <= j < |st.backup.registry| && st.backup.registry[j] == k;
      }
    }
  }

  /**
   Under no pending operation a key is allocated if and only if the grant is verified and the
   namespace's own, the parent is the root or a registered key, the namespace has an index left whose
   path is neither registered nor tombstoned, that path derives from the open root, and the backup can
   be written; a refusal changes nothing.
   */
  lemma AllocateExactly(p: Primitives, st: State, parent: Key, id: string, authority: Option<string>, op: Option<string>, persistOk: bool, i: nat)
    requires (op.Some? ==> op.value !in st.backup.pending) && IsNamespace(st.backup, id, i)
    ensures var (st', r) := Allocate(p, st, parent, id, authority, op, persistOk);
            && (r.Ok? <==> exists spki :: Allocates(p, st, parent, id, authority, persistOk, i, spki))
            && (forall spki :: Allocates(p, st, parent, id, authority, persistOk, i, spki) ==>
                  && st' == AfterAllocation(p, st, parent, i, op, spki)
                  && r == Ok(Description(ChildKey(p, st, parent, PathAt(st.backup.namespaces[i].prefix, st.backup.namespaces[i].next, parent.ed25519), spki),
                                         spki, p.digest(spki))))
            && (r.Err? ==> st' == st)
  {
    ParentExactly(p, st, parent);
    FoundIsFirst(st.backup, id, i);
    if authority.Some? && IsParent(p, st, parent) && authority.value == st.backup.namespaces[i].authority {
      AllocateInExactly(p, st, parent, id, authority.value, op, persistOk, i);
      var path := PathAt(st.backup.namespaces[i].prefix, st.backup.namespaces[i].next, parent.ed25519);
      if Available(st, i, path) && Writable(st, persistOk) && exists spki :: Derivable(p, st, parent, path, spki) {
        var spki :| Derivable(p, st, parent, path, spki);
        assert Allocates(p, st, parent, id, authority, persistOk, i, spki);
      }
    }
  }

  lemma UnnamedRefused(p: Primitives, st: State, parent: Key, id: string, authority: Option<string>, op: Option<string>, persistOk: bool)
    requires (op.Some? ==> op.value !in st.backup.pending) && !Named(st.backup, id)
    ensures Allocate(p, st, parent, id, authority, op, persistOk).0 == st && Allocate(p, st, parent, id, authority, op, persistOk).1.Err?
  {
  }

  lemma AllocateInExactly(p: Primitives, st: State, parent: Key, id: string, authority: string, op: Option<string>, persistOk: bool, i: nat)
    requires (op.Some? ==> op.value !in st.backup.pending) && FindNamespace(st.backup.namespaces, id) == Some(i)
    requires CheckParent(p, st, parent).Ok? && authority == st.backup.namespaces[i].authority
    ensures var (st', r) := Allocate(p, st, parent, id, Some(authority), op, persistOk);
            var n := st.backup.namespaces[i];
            var path := PathAt(n.prefix, n.next, parent.ed25519);
            && (r.Ok? <==> Available(st, i, path) && Writable(st, persistOk) && exists spki :: Derivable(p, st, parent, path, spki))
            && (forall spki :: Available(st, i, path) && Writable(st, persistOk) && Derivable(p, st, parent, path, spki) ==>
                  && st' == AfterAllocation(p, st, parent, i, op, spki)
                  && r == Ok(Description(ChildKey(p, st, parent, path, spki), spki, p.digest(spki))))
            && (r.Err? ==> st' == st)
  {
    var n := st.backup.namespaces[i];
    var path := PathAt(n.prefix, n.next, parent.ed25519);
    if n.next < n.limit && n.next < HARDENED_OFFSET {
      if Available(st, i, path) && Writable(st, persistOk) && exists spki :: Derivable(p, st, parent, path, spki) {
        forall spki | Derivable(p, st, parent, path, spki)
          ensures AllocateAt(p, st, parent, i, op, persistOk)
                  == (AfterAllocation(p, st, parent, i, op, spki), Ok(Description(ChildKey(p, st, parent, path, spki), spki, p.digest(spki))))
        {
          AllocateAtExactly(p, st, parent, i, op, persistOk, spki);
        }
      } else {
        AllocateAtRefuses(p, st, parent, i, op, persistOk);
      }
    }
  }

  // ---------------------------------------------------------------- registering

  predicate DescribesKey(b: Backup, key: Key) { exists d :: d in b.descriptions && d.key == key }

  /** What a registration leaves: nothing for a key that is there and described, its description for one that is there, else the key. */
  function AfterRegistration(st: State, key: Key, description: Option<Description>, op: Option<string>): State {
    var b := st.backup;
    if key !in b.registry then
      Rewritten(st, b.(registry := b.registry + [key],
                       descriptions := if description.Some? then b.descriptions + [description.value] else b.descriptions,
                       pending := if op.Some? then b.pending[op.value := key] else b.pending),
                st.index[key.locator := key])
    else if description.Some? && !DescribesKey(b, key) then
      Rewritten(st, b.(descriptions := b.descriptions + [description.value]), st.index)
    else st
  }

  lemma ChildRegistered(st: State, key: Key, description: Option<Description>, op: Option<string>, persistOk: bool)
    ensures var (st', r) := RegisterChild(st, key, description, op, persistOk);
            && (r.Ok? <==> Writable(st, persistOk) || (key in st.backup.registry && (description.None? || DescribesKey(st.backup, key))))
            && st' == if r.Ok? then AfterRegistration(st, key, description, op) else st
  {
    var b := st.backup;
    assert DescribesKey(b, key) <==> exists i :: 0 <= i < |b.descriptions| && b.descriptions[i].key == key by {
      if d :| d in b.descriptions && d.key == key {
        var i :| 0 <= i < |b.descriptions| && b.descriptions[i] == d;
      }
      if i :| 0 <= i < |b.descriptions| && b.descriptions[i].key == key {
        assert b.descriptions[i] in b.descriptions;
      }
    }
  }

  /** What a registration by key is given to describe: a BIP-39 child's public key, when the open root derives its fingerprint. */
  predicate Vouched(p: Primitives, st: State, key: Key, description: Option<Description>) {
    && key.derivation.Some?
    && var d := key.derivation.value;
       if d.family == Bip32 then description.None?
       else
         && Unlocked(p, st) && p.parses(d.family, d.path) && p.derive(d.family, d.path).Ok?
         && p.digest(p.derive(d.family, d.path).value) == key.fingerprint
         && description == Some(Description(key, p.derive(d.family, d.path).value, key.fingerprint))
  }

  /**
   A key is registered if and only if it has a derivation, a BIP-39 one is what the open root derives, and the backup can
   be written where it must.
   */
  lemma RegisterKeyExactly(p: Primitives, st: State, key: Key, op: Option<string>, persistOk: bool)
    ensures var (st', r) := RegisterKey(p, st, key, op, persistOk);
            && (r.Ok? <==> exists d :: Vouched(p, st, key, d)
                             && (Writable(st, persistOk) || (key in st.backup.registry && (d.None? || DescribesKey(st.backup, key)))))
            && (forall d :: Vouched(p, st, key, d) && r.Ok? ==> st' == AfterRegistration(st, key, d, op))
            && (r.Err? ==> st' == st)
  {
    if key.derivation.Some? {
      var d := key.derivation.value;
      var description: Option<Description> :=
        if d.family == Bip32 || p.derive(d.family, d.path).Err? then None
        else Some(Description(key, p.derive(d.family, d.path).value, key.fingerprint));
      ChildRegistered(st, key, description, op, persistOk);
      assert forall x :: Vouched(p, st, key, x) ==> x == description;
      if Vouched(p, st, key, description) {
        assert RegisterKey(p, st, key, op, persistOk) == RegisterChild(st, key, description, op, persistOk);
      }
    }
  }

  /** By description: if and only if it states its own BIP-39 key, and the backup can be written where it must. */
  lemma RegisterDescriptionExactly(p: Primitives, st: State, d: Description, op: Option<string>, persistOk: bool)
    ensures var (st', r) := RegisterDescription(p, st, d, op, persistOk);
            && (r.Ok? <==> && d.key.derivation.Some? && d.key.derivation.value.family != Bip32
                           && d.fingerprint == d.key.fingerprint == p.digest(d.spki)
                           && (Writable(st, persistOk) || (d.key in st.backup.registry && DescribesKey(st.backup, d.key))))
            && st' == if r.Ok? then AfterRegistration(st, d.key, Some(d), op) else st
  {
    ChildRegistered(st, d.key, Some(d), op, persistOk);
  }

  // ---------------------------------------------------------------- locking

  /** A deactivated backend keeps everything but its key, and allocates nothing until it is activated again. */
  lemma DeactivationLocks(p: Primitives, st: State, c: Command)
    requires c.AllocateCmd?
    ensures Deactivate(st) == st.(kek := None)
    ensures Allocate(p, Deactivate(st), c.parent, c.namespace, c.authority, c.op, c.persistOk).0 == Deactivate(st)
    ensures Allocate(p, Deactivate(st), c.parent, c.namespace, c.authority, c.op, c.persistOk).1.Err?
  {
    var locked := Deactivate(st);
    if c.op.Some? && c.op.value in st.backup.pending {
      RetryDescribes(p, locked, c);
    } else if Named(locked.backup, c.namespace) {
      var found := FindNamespace(locked.backup.namespaces, c.namespace);
      FoundIsFirst(locked.backup, c.namespace, found.value);
      AllocateExactly(p, locked, c.parent, c.namespace, c.authority, c.op, c.persistOk, found.value);
    } else {
      UnnamedRefused(p, locked, c.parent, c.namespace, c.authority, c.op, c.persistOk);
    }
  }

  /** A key is what its derivation gives: BIP-32 in every part, BIP-39 by its fingerprint and over entropy. */
  lemma SelfDescribedExactly(p: Primitives, st: State, key: Key)
    requires key.derivation.Some? && Unlocked(p, st)
    ensures var d := key.derivation.value;
            SelfDescribed(p, st, key)
            <==> if d.family == Bip32 then
                   exists spki :: Derivable(p, st, key.(ed25519 := false), d.path, spki)
                                  && key == Key("local", st.instance, p.locate(d.path), false, p.digest(spki), Some(Derivation(Bip32, st.backup.rootId, d.path)))
                 else st.backup.material == Bip39Entropy && p.parses(d.family, d.path) && p.derive(d.family, d.path).Ok?
                      && p.digest(p.derive(d.family, d.path).value) == key.fingerprint
  {
    var d := key.derivation.value;
    if d.family == Bip32 {
      ChildExactly(p, st, key.(ed25519 := false), d.path);
    }
  }

  /** And the root has the fingerprint it is known by. */
  lemma RootDescribedExactly(p: Primitives, st: State)
    requires Unlocked(p, st)
    ensures RootDescribed(p, st)
            <==> st.backup.material == Bip39Entropy
                 || (p.derive(Bip32, "m").Ok?
                     && (st.backup.pinnedRoot.Some? ==> st.backup.pinnedRoot.value.fingerprint == p.digest(p.derive(Bip32, "m").value)))
  {
  }

  /**
   An imported scalar is provisioned if and only if the new key opens it and its root derives. The root is then pinned
   and described by what it derives, it alone may be a parent, and restore accepts the backup.
   */
  lemma ImportedExactly(p: Primitives, instance: string, rootId: string, kek: string, onDisk: bool)
    ensures ProvisionImported(p, instance, rootId, kek, onDisk).Ok? <==> p.opens(kek) && p.derive(Bip32, "m").Ok?
    ensures ProvisionImported(p, instance, rootId, kek, onDisk).Ok? ==>
              var st, spki := ProvisionImported(p, instance, rootId, kek, onDisk).value, p.derive(Bip32, "m").value;
              var root := Key("local", instance, "root:" + rootId, false, p.digest(spki), None);
              && st.backup.pinnedRoot == Some(root) && st.backup.descriptions == [Description(root, spki, p.digest(spki))]
              && st.backup.registry == [] && st.index == map[] && st.kek == Some(kek)
              && st.disk == (if onDisk then Some(st.backup) else None)
              && (forall parent :: ValidParent(p, st, parent) <==> parent == root)
              && Restorable(p, instance, st.backup)
  {
  }
}
