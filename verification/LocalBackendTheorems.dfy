/**
 In every reachable state of the local backend `restore` accepts the backup and rebuilds exactly
 the index in memory, memory and disk agree, and namespaces hand out consecutive indexes.
 */
module LocalBackendTheorems {
  import opened Wrappers
  import opened LocalBackend

  /** The two locator hashes do not collide on different paths or with each other, and are never the root's locator. */
  ghost predicate LocatorsSound(p: Primitives, rootId: string) {
    && (forall a, b :: p.locate(a) == p.locate(b) ==> a == b)
    && (forall f, g, a, b :: p.locateRegistered(f, a) == p.locateRegistered(g, b) ==> a == b)
    && (forall f, a, b :: p.locate(a) != p.locateRegistered(f, b))
    && (forall a :: p.locate(a) != "root:" + rootId)
    && (forall f, a :: p.locateRegistered(f, a) != "root:" + rootId)
  }

  /** The key's locator is the one its allocation or its registration gives its path. */
  predicate DerivedLocator(p: Primitives, key: Key) {
    key.derivation.Some? ==>
      var d := key.derivation.value;
      key.locator == p.locate(d.path) || key.locator == p.locateRegistered(d.family, d.path)
  }

  predicate DerivedLocators(p: Primitives, b: Backup) {
    forall i :: 0 <= i < |b.registry| ==> DerivedLocator(p, b.registry[i])
  }

  predicate Healthy(p: Primitives, st: State) {
    && Restorable(p, st.instance, st.backup)
    && DerivedLocators(p, st.backup)
    && st.index == IndexOf(st.backup.registry)
    && Persisted(st)
  }

  /** The file holds the backup in memory. */
  predicate Persisted(st: State) { st.disk.Some? ==> st.disk.value == st.backup }

  // ---------------------------------------------------------------- the index

  predicate AllApart(keys: seq<Key>) {
    forall i, j :: 0 <= i < j < |keys| ==> KeysApart(keys[i], keys[j])
  }

  lemma LocatorOfPush(keys: seq<Key>, key: Key, l: string)
    ensures HasLocator(keys + [key], l) <==> HasLocator(keys, l) || key.locator == l
  {
    assert (keys + [key])[|keys|] == key;
    assert forall i :: 0 <= i < |keys| ==> (keys + [key])[i] == keys[i];
  }

  lemma {:induction false} IndexHas(keys: seq<Key>, l: string)
    ensures l in IndexOf(keys) <==> HasLocator(keys, l)
    decreases |keys|
  {
    if |keys| > 0 {
      var n := |keys| - 1;
      IndexHas(keys[..n], l);
      LocatorOfPush(keys[..n], keys[n], l);
      assert keys[..n] + [keys[n]] == keys;
    }
  }

  lemma {:induction false} IndexAt(keys: seq<Key>, i: nat)
    requires AllApart(keys) && i < |keys|
    ensures keys[i].locator in IndexOf(keys) && IndexOf(keys)[keys[i].locator] == keys[i]
    decreases |keys|
  {
    var n := |keys| - 1;
    if i < n {
      assert KeysApart(keys[i], keys[n]);
      IndexAt(keys[..n], i);
    }
  }

  lemma IndexOfPush(keys: seq<Key>, key: Key)
    ensures IndexOf(keys + [key]) == IndexOf(keys)[key.locator := key]
  {
  }

  // ---------------------------------------------------------------- filtering

  /** Where each kept key comes from, in order. */
  lemma {:induction false} KeptKeys(keys: seq<Key>, key: Key) returns (from: seq<nat>)
    ensures var r := WithoutKey(keys, key);
            && |from| == |r|
            && (forall i :: 0 <= i < |r| ==> from[i] < |keys| && r[i] == keys[from[i]] && r[i] != key)
            && (forall i, j :: 0 <= i < j < |r| ==> from[i] < from[j])
  {
    from := [];
    if |keys| > 0 {
      var n := |keys| - 1;
      from := KeptKeys(keys[..n], key);
      assert forall i :: 0 <= i < |from| ==> keys[..n][from[i]] == keys[from[i]];
      if keys[n] != key {
        from := from + [n];
      }
    }
  }

  lemma {:induction false} OthersKept(keys: seq<Key>, key: Key, k: Key)
    requires k in keys && k != key
    ensures k in WithoutKey(keys, key)
  {
    var n := |keys| - 1;
    if k != keys[n] {
      assert k in keys[..n];
      OthersKept(keys[..n], key, k);
    }
  }

  lemma {:induction false} KeptDescriptions(ds: seq<Description>, key: Key) returns (from: seq<nat>)
    ensures var r := WithoutDescription(ds, key);
            && |from| == |r|
            && (forall i :: 0 <= i < |r| ==> from[i] < |ds| && r[i] == ds[from[i]] && r[i].key != key)
            && (forall i, j :: 0 <= i < j < |r| ==> from[i] < from[j])
  {
    from := [];
    if |ds| > 0 {
      var n := |ds| - 1;
      from := KeptDescriptions(ds[..n], key);
      assert forall i :: 0 <= i < |from| ==> ds[..n][from[i]] == ds[from[i]];
      if ds[n].key != key {
        from := from + [n];
      }
    }
  }

  lemma KeptApart(keys: seq<Key>, key: Key)
    requires AllApart(keys)
    ensures AllApart(WithoutKey(keys, key))
  {
    var r := WithoutKey(keys, key);
    var from := KeptKeys(keys, key);
    forall i, j | 0 <= i < j < |r| ensures KeysApart(r[i], r[j]) {
      assert KeysApart(keys[from[i]], keys[from[j]]);
    }
  }

  lemma IndexOfDrop(keys: seq<Key>, key: Key)
    requires key in keys && AllApart(keys)
    ensures IndexOf(WithoutKey(keys, key)) == IndexOf(keys) - {key.locator}
  {
    var r := WithoutKey(keys, key);
    KeptApart(keys, key);
    forall l ensures l in IndexOf(r) <==> l in IndexOf(keys) && l != key.locator {
      DroppedLocator(keys, key, l);
    }
    forall l | l in IndexOf(r) ensures IndexOf(r)[l] == IndexOf(keys)[l] {
      KeptEntry(keys, key, l);
    }
  }

  lemma DroppedLocator(keys: seq<Key>, key: Key, l: string)
    requires key in keys && AllApart(keys)
    ensures l in IndexOf(WithoutKey(keys, key)) <==> l in IndexOf(keys) && l != key.locator
  {
    KeptApart(keys, key);
    IndexHas(keys, l);
    IndexHas(WithoutKey(keys, key), l);
    var from := KeptKeys(keys, key);
    SameLocators(keys, key, WithoutKey(keys, key), from, l);
  }

  lemma KeptEntry(keys: seq<Key>, key: Key, l: string)
    requires AllApart(keys) && l in IndexOf(WithoutKey(keys, key))
    ensures l in IndexOf(keys) && IndexOf(WithoutKey(keys, key))[l] == IndexOf(keys)[l]
  {
    var r := WithoutKey(keys, key);
    KeptApart(keys, key);
    var from := KeptKeys(keys, key);
    IndexHas(r, l);
    var i :| 0 <= i < |r| && r[i].locator == l;
    IndexAt(r, i);
    IndexAt(keys, from[i]);
  }

  lemma SameLocators(keys: seq<Key>, key: Key, r: seq<Key>, from: seq<nat>, l: string)
    requires key in keys && AllApart(keys)
    requires r == WithoutKey(keys, key)
    requires |from| == |r| && forall i :: 0 <= i < |r| ==> from[i] < |keys| && r[i] == keys[from[i]] && r[i] != key
    ensures HasLocator(r, l) <==> HasLocator(keys, l) && l != key.locator
  {
    var at :| 0 <= at < |keys| && keys[at] == key;
    if HasLocator(r, l) {
      var i :| 0 <= i < |r| && r[i].locator == l;
      assert keys[from[i]].locator == l;
      assert from[i] < at ==> KeysApart(keys[from[i]], keys[at]);
      assert at < from[i] ==> KeysApart(keys[at], keys[from[i]]);
    }
    if HasLocator(keys, l) && l != key.locator {
      var i :| 0 <= i < |keys| && keys[i].locator == l;
      OthersKept(keys, key, keys[i]);
      var j :| 0 <= j < |r| && r[j] == keys[i];
      assert r[j].locator == l;
    }
  }

  // ---------------------------------------------------------------- registering a child

  /** What a child must satisfy for the backup to stay restorable. */
  predicate ChildFits(p: Primitives, instance: string, b: Backup, key: Key, description: Option<Description>) {
    && KeyFits(instance, b, key)
    && !HasLocator(b.registry, key.locator) && !HasPath(b.registry, key.derivation.value.path)
    && (description.Some? ==>
          && description.value.fingerprint == key.fingerprint && p.digest(description.value.spki) == key.fingerprint
          && !Describes(b.descriptions, key.locator))
  }

  lemma PushRegistry(instance: string, b: Backup, key: Key, b': Backup)
    requires RegistryFits(instance, b) && b'.registry == b.registry + [key]
    requires b'.tombstones == b.tombstones && b'.rootId == b.rootId
    ensures RegistryFits(instance, b')
            <==> KeyFits(instance, b, key) && !HasLocator(b.registry, key.locator)
                 && !HasPath(b.registry, key.derivation.value.path)
  {
    var n := |b.registry|;
    assert forall i :: 0 <= i < n ==> b'.registry[i] == b.registry[i];
    assert b'.registry[n] == key;
    if KeyFits(instance, b, key) && !HasLocator(b.registry, key.locator) && !HasPath(b.registry, key.derivation.value.path) {
      forall i | 0 <= i < |b'.registry| ensures KeyFits(instance, b', b'.registry[i]) {
        assert i < n ==> KeyFits(instance, b, b.registry[i]);
      }
      forall i, j | 0 <= i < j < |b'.registry| ensures KeysApart(b'.registry[i], b'.registry[j]) {
        assert j < n ==> KeysApart(b.registry[i], b.registry[j]);
      }
    }
    if RegistryFits(instance, b') {
      assert KeyFits(instance, b', b'.registry[n]);
      forall i | 0 <= i < n ensures KeysApart(b.registry[i], key) && b.registry[i].derivation.Some? {
        assert KeysApart(b'.registry[i], b'.registry[n]) && KeyFits(instance, b, b.registry[i]);
      }
    }
  }

  lemma PushDescriptions(p: Primitives, b: Backup, key: Key, description: Option<Description>, b': Backup)
    requires DescriptionsFit(p, b) && (description.Some? ==> description.value.key == key)
    requires b'.pinnedRoot == b.pinnedRoot && (forall k :: k in b.registry ==> k in b'.registry) && key in b'.registry
    requires b'.descriptions == if description.Some? then b.descriptions + [description.value] else b.descriptions
    ensures DescriptionsFit(p, b')
            <==> (description.Some? ==>
                    description.value.fingerprint == key.fingerprint && p.digest(description.value.spki) == key.fingerprint
                    && !Describes(b.descriptions, key.locator))
  {
    var n := |b.descriptions|;
    assert forall i :: 0 <= i < n ==> b'.descriptions[i] == b.descriptions[i];
    forall i | 0 <= i < n ensures DescriptionFits(p, b', b'.descriptions[i]) {
      assert DescriptionFits(p, b, b.descriptions[i]);
    }
    if description.Some? {
      assert b'.descriptions[n] == description.value;
      if DescriptionsFit(p, b') {
        assert DescriptionFits(p, b', b'.descriptions[n]);
        assert forall i :: 0 <= i < n ==> b'.descriptions[i].key.locator != b'.descriptions[n].key.locator;
      }
    }
  }

  /** Registering a new child keeps the backup restorable exactly when the child fits. */
  lemma RegisterKeepsRestorableExactly(p: Primitives, instance: string, b: Backup, key: Key,
                                       description: Option<Description>, op: Option<string>)
    requires Restorable(p, instance, b) && (description.Some? ==> description.value.key == key)
    ensures Restorable(p, instance, PushKey(b, key, description, op)) <==> ChildFits(p, instance, b, key, description)
  {
    var b' := PushKey(b, key, description, op);
    PushRegistry(instance, b, key, b');
    assert b'.registry[|b.registry|] == key;
    PushDescriptions(p, b, key, description, b');
  }

  /** A key of this backend with a fresh path and a locator of that path. */
  predicate FreshKey(p: Primitives, instance: string, b: Backup, key: Key) {
    KeyFits(instance, b, key) && DerivedLocator(p, key) && !HasPath(b.registry, key.derivation.value.path)
  }

  predicate Describing(p: Primitives, key: Key, description: Option<Description>) {
    description.Some? ==>
      description.value.key == key && description.value.fingerprint == key.fingerprint
      && p.digest(description.value.spki) == key.fingerprint
  }

  /** A fresh key with a description of it. */
  predicate FreshChild(p: Primitives, instance: string, b: Backup, key: Key, description: Option<Description>) {
    FreshKey(p, instance, b, key) && Describing(p, key, description)
  }

  lemma FreshChildFits(p: Primitives, st: State, key: Key, description: Option<Description>)
    requires Healthy(p, st) && LocatorsSound(p, st.backup.rootId) && FreshChild(p, st.instance, st.backup, key, description)
    ensures ChildFits(p, st.instance, st.backup, key, description)
  {
  }

  /** Committing a backup and then an index entry, when both fit, or neither. */
  lemma CommittedHealthy(p: Primitives, st: State, next: Backup, key: Key, persistOk: bool)
    requires Healthy(p, st) && Restorable(p, st.instance, next) && DerivedLocators(p, next)
    requires IndexOf(next.registry) == st.index[key.locator := key]
    ensures Healthy(p, CommitKey(st, next, key, persistOk).0)
  {
  }

  lemma PushedLocators(p: Primitives, b: Backup, key: Key, next: Backup)
    requires DerivedLocators(p, b) && DerivedLocator(p, key) && next.registry == b.registry + [key]
    ensures DerivedLocators(p, next)
  {
    forall i | 0 <= i < |next.registry| ensures DerivedLocator(p, next.registry[i]) {
      assert i < |b.registry| ==> next.registry[i] == b.registry[i];
    }
  }

  lemma PushedRestorable(p: Primitives, st: State, b: Backup, key: Key, description: Option<Description>, op: Option<string>)
    requires Healthy(p, st) && LocatorsSound(p, st.backup.rootId) && FreshChild(p, st.instance, st.backup, key, description)
    requires b == st.backup.(namespaces := b.namespaces) && NamespacesFit(p, b)
    ensures Restorable(p, st.instance, PushKey(b, key, description, op))
  {
    FreshChildFits(p, st, key, description);
    RegisterKeepsRestorableExactly(p, st.instance, st.backup, key, description, op);
    PushedNamespaces(p, st.instance, st.backup, b, key, description, op);
  }

  lemma CommitKeyHealthy(p: Primitives, st: State, b: Backup, key: Key, description: Option<Description>, op: Option<string>,
                         next: Backup, persistOk: bool)
    requires Healthy(p, st) && LocatorsSound(p, st.backup.rootId) && FreshChild(p, st.instance, st.backup, key, description)
    requires b == st.backup.(namespaces := b.namespaces) && NamespacesFit(p, b) && next == PushKey(b, key, description, op)
    ensures Healthy(p, CommitKey(st, next, key, persistOk).0)
  {
    PushedRestorable(p, st, b, key, description, op);
    PushedLocators(p, st.backup, key, next);
    IndexOfPush(st.backup.registry, key);
    CommittedHealthy(p, st, next, key, persistOk);
  }

  lemma PushedNamespaces(p: Primitives, instance: string, old': Backup, b: Backup, key: Key, description: Option<Description>, op: Option<string>)
    requires b == old'.(namespaces := b.namespaces) && NamespacesFit(p, b)
    requires Restorable(p, instance, PushKey(old', key, description, op))
    ensures Restorable(p, instance, PushKey(b, key, description, op))
  {
  }

  predicate Registers(c: Command) { c.RegisterCmd? || c.RegisterDescriptionCmd? }

  /** The key and description that a registration passes on once its own checks hold. */
  function Entered(p: Primitives, st: State, c: Command): Option<(Key, Option<Description>)> {
    match c
    case RegisterCmd(key, _, _) =>
      if key.derivation.None? then None
      else if key.derivation.value.family == Bip32 then Some((key, None))
      else (match DescribeProfile(p, st, key, key.derivation.value)
            case Err(_) => None
            case Ok(d) => Some((key, Some(d))))
    case RegisterDescriptionCmd(d, _, _) => if StatesItself(p, d) then Some((d.key, Some(d))) else None
    case _ => None
  }

  lemma EnteredIsRegistered(p: Primitives, st: State, c: Command)
    requires Registers(c)
    ensures Step(p, st, c)
            == if Entered(p, st, c).None? then st
               else RegisterChild(st, Entered(p, st, c).value.0, Entered(p, st, c).value.1, c.op, c.persistOk).0
    ensures Entered(p, st, c).Some? ==> Describing(p, Entered(p, st, c).value.0, Entered(p, st, c).value.1)
  {
  }

  /** What the caller of a registration guarantees: a new key is fresh. */
  predicate Honest(p: Primitives, st: State, c: Command) {
    Entered(p, st, c).Some? ==>
      var key := Entered(p, st, c).value.0;
      key in st.backup.registry || FreshKey(p, st.instance, st.backup, key)
  }

  lemma DescribeHealthy(p: Primitives, st: State, key: Key, d: Description, persistOk: bool)
    requires Healthy(p, st) && LocatorsSound(p, st.backup.rootId) && key in st.backup.registry
    requires d.key == key && d.fingerprint == key.fingerprint && p.digest(d.spki) == key.fingerprint
    requires forall i :: 0 <= i < |st.backup.descriptions| ==> st.backup.descriptions[i].key != key
    ensures Healthy(p, CommitBackup(st, st.backup.(descriptions := st.backup.descriptions + [d]), persistOk).0)
  {
    var b := st.backup;
    var b' := b.(descriptions := b.descriptions + [d]);
    var at :| 0 <= at < |b.registry| && b.registry[at] == key;
    assert KeyFits(st.instance, b, b.registry[at]);
    forall i | 0 <= i < |b.descriptions| ensures b.descriptions[i].key.locator != key.locator {
      assert DescriptionFits(p, b, b.descriptions[i]);
      if b.descriptions[i].key in b.registry {
        var j :| 0 <= j < |b.registry| && b.registry[j] == b.descriptions[i].key;
        assert j < at ==> KeysApart(b.registry[j], b.registry[at]);
        assert at < j ==> KeysApart(b.registry[at], b.registry[j]);
      }
    }
    PushDescriptions(p, b, key, Some(d), b');
    forall i | 0 <= i < |b'.registry| ensures KeyFits(st.instance, b', b'.registry[i]) {
      assert KeyFits(st.instance, b, b.registry[i]);
    }
  }

  lemma ChildHealthy(p: Primitives, st: State, key: Key, description: Option<Description>, op: Option<string>, persistOk: bool)
    requires Healthy(p, st) && LocatorsSound(p, st.backup.rootId) && Describing(p, key, description)
    requires key in st.backup.registry || FreshKey(p, st.instance, st.backup, key)
    ensures Healthy(p, RegisterChild(st, key, description, op, persistOk).0)
  {
    if key !in st.backup.registry {
      var next := PushKey(st.backup, key, description, op);
      CommitKeyHealthy(p, st, st.backup, key, description, op, next, persistOk);
    } else if description.Some? && forall i :: 0 <= i < |st.backup.descriptions| ==> st.backup.descriptions[i].key != key {
      DescribeHealthy(p, st, key, description.value, persistOk);
    }
  }

  lemma RegisterHealthy(p: Primitives, st: State, c: Command)
    requires Registers(c) && Healthy(p, st) && LocatorsSound(p, st.backup.rootId) && Honest(p, st, c)
    ensures Healthy(p, Step(p, st, c))
  {
    EnteredIsRegistered(p, st, c);
    if Entered(p, st, c).Some? {
      ChildHealthy(p, st, Entered(p, st, c).value.0, Entered(p, st, c).value.1, c.op, c.persistOk);
    }
  }

  // ---------------------------------------------------------------- dropping a key

  lemma DropRegistry(instance: string, b: Backup, key: Key)
    requires RegistryFits(instance, b) && key in b.registry
    ensures RegistryFits(instance, DropKey(b, key, key.derivation.value.path))
  {
    var b' := DropKey(b, key, key.derivation.value.path);
    var from := KeptKeys(b.registry, key);
    var at :| 0 <= at < |b.registry| && b.registry[at] == key;
    assert KeyFits(instance, b, b.registry[at]);
    forall i | 0 <= i < |b'.registry| ensures KeyFits(instance, b', b'.registry[i]) {
      assert KeyFits(instance, b, b.registry[from[i]]);
      assert from[i] < at ==> KeysApart(b.registry[from[i]], b.registry[at]);
      assert at < from[i] ==> KeysApart(b.registry[at], b.registry[from[i]]);
    }
    assert AllApart(b.registry);
    KeptApart(b.registry, key);
  }

  lemma DropDescriptions(p: Primitives, b: Backup, key: Key, path: string)
    requires DescriptionsFit(p, b)
    ensures DescriptionsFit(p, DropKey(b, key, path))
  {
    var b' := DropKey(b, key, path);
    var from := KeptDescriptions(b.descriptions, key);
    forall i | 0 <= i < |b'.descriptions| ensures DescriptionFits(p, b', b'.descriptions[i]) {
      var d := b.descriptions[from[i]];
      assert DescriptionFits(p, b, d);
      if d.key in b.registry {
        OthersKept(b.registry, key, d.key);
      }
    }
  }

  lemma DropRest(p: Primitives, b: Backup, key: Key, path: string)
    requires DerivedLocators(p, b) && NoDuplicates(b.tombstones) && NamespacesFit(p, b)
    ensures var b' := DropKey(b, key, path);
            DerivedLocators(p, b') && NoDuplicates(b'.tombstones) && NamespacesFit(p, b')
  {
    var from := KeptKeys(b.registry, key);
    var b' := DropKey(b, key, path);
    assert b'.namespaces == b.namespaces;
    forall i | 0 <= i < |b'.registry| ensures DerivedLocator(p, b'.registry[i]) {
      assert b'.registry[i] == b.registry[from[i]];
    }
  }

  lemma TombstoneHealthy(p: Primitives, st: State, key: Key, persistOk: bool)
    requires Healthy(p, st)
    ensures Healthy(p, Tombstone(st, key, persistOk).0)
  {
    var b := st.backup;
    if key.derivation.Some? && key.locator in st.index && st.index[key.locator] == key {
      IndexedIsRegistered(b.registry, key);
      DropRegistry(st.instance, b, key);
      DropDescriptions(p, b, key, key.derivation.value.path);
      DropRest(p, b, key, key.derivation.value.path);
      IndexOfDrop(b.registry, key);
    }
  }

  lemma IndexedIsRegistered(keys: seq<Key>, key: Key)
    requires AllApart(keys) && key.locator in IndexOf(keys) && IndexOf(keys)[key.locator] == key
    ensures key in keys
  {
  }

  // ---------------------------------------------------------------- allocation

  lemma AdvancedNamespaces(p: Primitives, b: Backup, i: nat)
    requires NamespacesFit(p, b) && i < |b.namespaces| && b.namespaces[i].next < b.namespaces[i].limit
    ensures NamespacesFit(p, Advanced(b, i))
  {
  }

  /** The description an allocation commits is that of a fresh child. */
  lemma AllocatedIsFresh(p: Primitives, st: State, parent: Key, path: string)
    requires Healthy(p, st) && ValidParent(p, st, parent) && path !in st.backup.tombstones && !HasPath(st.backup.registry, path)
    requires DescribeChild(p, st, parent, path).Ok?
    ensures var d := DescribeChild(p, st, parent, path).value;
            FreshChild(p, st.instance, st.backup, d.key, Some(d))
  {
  }

  lemma AllocateHealthy(p: Primitives, st: State, parent: Key, id: string, authority: Option<string>, op: Option<string>, persistOk: bool)
    requires Healthy(p, st) && LocatorsSound(p, st.backup.rootId)
    ensures Healthy(p, Allocate(p, st, parent, id, authority, op, persistOk).0)
  {
    var found := FindNamespace(st.backup.namespaces, id);
    if found.Some? && st.backup.namespaces[found.value].next < st.backup.namespaces[found.value].limit && ValidParent(p, st, parent) {
      AllocateAtHealthy(p, st, parent, found.value, op, persistOk);
    }
  }

  lemma AllocateAtHealthy(p: Primitives, st: State, parent: Key, i: nat, op: Option<string>, persistOk: bool)
    requires Healthy(p, st) && LocatorsSound(p, st.backup.rootId) && ValidParent(p, st, parent)
    requires i < |st.backup.namespaces| && st.backup.namespaces[i].next < st.backup.namespaces[i].limit
    ensures Healthy(p, AllocateAt(p, st, parent, i, op, persistOk).0)
  {
    var n := st.backup.namespaces[i];
    var path := PathAt(n.prefix, n.next, parent.ed25519);
    if path !in st.backup.tombstones && !HasPath(st.backup.registry, path) && DescribeChild(p, st, parent, path).Ok? {
      var d := DescribeChild(p, st, parent, path).value;
      AdvancedNamespaces(p, st.backup, i);
      AllocatedIsFresh(p, st, parent, path);
      var next := PushKey(Advanced(st.backup, i), d.key, Some(d), op);
      CommitKeyHealthy(p, st, Advanced(st.backup, i), d.key, Some(d), op, next, persistOk);
    }
  }

  lemma ConfigureHealthy(p: Primitives, st: State, g: Grant, authority: Option<string>, persistOk: bool)
    requires Healthy(p, st)
    ensures Healthy(p, ConfigureNamespace(p, st, g, authority, persistOk).0)
  {
  }

  lemma FinalizeHealthy(p: Primitives, st: State, op: string, persistOk: bool)
    requires Healthy(p, st)
    ensures Healthy(p, Finalize(st, op, persistOk).0)
  {
  }

  // ---------------------------------------------------------------- runs

  lemma StepHealthy(p: Primitives, st: State, c: Command)
    requires Healthy(p, st) && LocatorsSound(p, st.backup.rootId) && Honest(p, st, c)
    ensures Healthy(p, Step(p, st, c))
  {
    match c
    case ConfigureCmd(g, authority, ok) => ConfigureHealthy(p, st, g, authority, ok);
    case AllocateCmd(parent, id, authority, op, ok) => AllocateHealthy(p, st, parent, id, authority, op, ok);
    case RegisterCmd(_, _, _) => RegisterHealthy(p, st, c);
    case RegisterDescriptionCmd(_, _, _) => RegisterHealthy(p, st, c);
    case FinalizeCmd(op, ok) => FinalizeHealthy(p, st, op, ok);
    case TombstoneCmd(key, ok) => TombstoneHealthy(p, st, key, ok);
    case _ =>
  }

  /** Nothing a step does changes whose keys these are, what the root is, or where it is kept. */
  predicate SameBackend(st: State, st': State) {
    && st'.instance == st.instance
    && st'.backup.rootId == st.backup.rootId && st'.backup.material == st.backup.material
    && st'.backup.pinnedRoot == st.backup.pinnedRoot
    && (st'.disk.Some? <==> st.disk.Some?)
  }

  lemma CommitKeepsBackend(st: State, next: Backup, persistOk: bool)
    requires Persisted(st) && next.rootId == st.backup.rootId && next.material == st.backup.material
    requires next.pinnedRoot == st.backup.pinnedRoot
    ensures var st' := CommitBackup(st, next, persistOk).0;
            SameBackend(st, st') && Persisted(st')
  {
  }

  lemma AllocateAtKeepsBackend(p: Primitives, st: State, parent: Key, i: nat, op: Option<string>, persistOk: bool)
    requires Persisted(st) && i < |st.backup.namespaces|
    ensures var st' := AllocateAt(p, st, parent, i, op, persistOk).0;
            SameBackend(st, st') && Persisted(st')
  {
    var n := st.backup.namespaces[i];
    var d := DescribeChild(p, st, parent, PathAt(n.prefix, n.next, parent.ed25519));
    if d.Ok? {
      CommitKeepsBackend(st, PushKey(Advanced(st.backup, i), d.value.key, Some(d.value), op), persistOk);
    }
  }

  lemma AllocateKeepsBackend(p: Primitives, st: State, parent: Key, id: string, authority: Option<string>, op: Option<string>, persistOk: bool)
    requires Persisted(st)
    ensures var st' := Allocate(p, st, parent, id, authority, op, persistOk).0;
            SameBackend(st, st') && Persisted(st')
  {
    var found := FindNamespace(st.backup.namespaces, id);
    if found.Some? {
      AllocateAtKeepsBackend(p, st, parent, found.value, op, persistOk);
    }
  }

  lemma ChildKeepsBackend(st: State, key: Key, description: Option<Description>, op: Option<string>, persistOk: bool)
    requires Persisted(st)
    ensures var st' := RegisterChild(st, key, description, op, persistOk).0;
            SameBackend(st, st') && Persisted(st')
  {
  }

  lemma RegisterKeepsBackend(p: Primitives, st: State, c: Command)
    requires Persisted(st) && Registers(c)
    ensures SameBackend(st, Step(p, st, c)) && Persisted(Step(p, st, c))
  {
    EnteredIsRegistered(p, st, c);
    if Entered(p, st, c).Some? {
      ChildKeepsBackend(st, Entered(p, st, c).value.0, Entered(p, st, c).value.1, c.op, c.persistOk);
    }
  }

  lemma TombstoneKeepsBackend(st: State, key: Key, persistOk: bool)
    requires Persisted(st)
    ensures var st' := Tombstone(st, key, persistOk).0;
            SameBackend(st, st') && Persisted(st')
  {
    if key.derivation.Some? {
      CommitKeepsBackend(st, DropKey(st.backup, key, key.derivation.value.path), persistOk);
    }
  }

  lemma StepKeepsBackend(p: Primitives, st: State, c: Command)
    requires Persisted(st)
    ensures SameBackend(st, Step(p, st, c)) && Persisted(Step(p, st, c))
  {
    match c
    case AllocateCmd(parent, id, authority, op, ok) => AllocateKeepsBackend(p, st, parent, id, authority, op, ok);
    case RegisterCmd(_, _, _) => RegisterKeepsBackend(p, st, c);
    case RegisterDescriptionCmd(_, _, _) => RegisterKeepsBackend(p, st, c);
    case TombstoneCmd(key, ok) => TombstoneKeepsBackend(st, key, ok);
    case _ =>
  }

  lemma {:induction false} RunKeepsBackend(p: Primitives, st: State, commands: seq<Command>)
    requires Persisted(st)
    ensures SameBackend(st, Run(p, st, commands)) && Persisted(Run(p, st, commands))
    decreases |commands|
  {
    if commands != [] {
      StepKeepsBackend(p, st, commands[0]);
      RunKeepsBackend(p, Step(p, st, commands[0]), commands[1..]);
    }
  }

  /** The steps that only lock, unlock or reload. */
  predicate LocksOnly(c: Command) { c.ActivateCmd? || c.DeactivateCmd? || c.RestartCmd? }

  lemma LockStep(p: Primitives, st: State, c: Command)
    requires LocksOnly(c) && Persisted(st)
    ensures Step(p, st, c).backup == st.backup && Step(p, st, c).disk == st.disk
  {
  }

  predicate AllHonest(p: Primitives, st: State, commands: seq<Command>)
    decreases |commands|
  {
    commands != [] ==> Honest(p, st, commands[0]) && AllHonest(p, Step(p, st, commands[0]), commands[1..])
  }

  /** Whatever runs and wherever persisting fails, the state stays healthy. */
  lemma {:induction false} RunHealthy(p: Primitives, st: State, commands: seq<Command>)
    requires Healthy(p, st) && LocatorsSound(p, st.backup.rootId) && AllHonest(p, st, commands)
    ensures Healthy(p, Run(p, st, commands))
    decreases |commands|
  {
    if commands != [] {
      StepHealthy(p, st, commands[0]);
      StepKeepsBackend(p, st, commands[0]);
      RunHealthy(p, Step(p, st, commands[0]), commands[1..]);
    }
  }

  /** A backend as it was provisioned, as BIP-39 entropy or as an imported key. */
  predicate Provisioned(p: Primitives, instance: string, rootId: string, kek: string, onDisk: bool, st: State) {
    st == ProvisionBip39(instance, rootId, kek, onDisk) || ProvisionImported(p, instance, rootId, kek, onDisk) == Ok(st)
  }

  lemma ProvisionedHealthy(p: Primitives, instance: string, rootId: string, kek: string, onDisk: bool, st: State)
    requires Provisioned(p, instance, rootId, kek, onDisk, st)
    ensures Healthy(p, st) && st.backup.rootId == rootId && st.instance == instance
  {
  }

  /** In a healthy state a restart succeeds, and loses the active key and nothing else. */
  lemma RestartLocks(p: Primitives, st: State)
    requires Healthy(p, st)
    ensures Restart(p, st) == Ok(st.(kek := None))
  {
  }

  /** From provisioning on, whatever runs: restore accepts what was saved and rebuilds the very state in memory, locked. */
  lemma RestoreRebuildsMemory(p: Primitives, instance: string, rootId: string, kek: string, onDisk: bool, start: State, commands: seq<Command>)
    requires LocatorsSound(p, rootId) && Provisioned(p, instance, rootId, kek, onDisk, start) && AllHonest(p, start, commands)
    ensures var st := Run(p, start, commands);
            && (onDisk ==> st.disk == Some(st.backup))
            && Restorable(p, instance, st.backup)
            && IndexOf(st.backup.registry) == st.index
            && Restart(p, st) == Ok(st.(kek := None))
  {
    ProvisionedHealthy(p, instance, rootId, kek, onDisk, start);
    RunHealthy(p, start, commands);
    RunKeepsBackend(p, start, commands);
    RestartLocks(p, Run(p, start, commands));
  }
}
