/**
 What restoring accepts, told as the program checks it: by the sizes of the sets it collects.
 */
module LocalBackendRestore {
  import opened Wrappers
  import opened LocalBackend

  function Elements(s: seq<string>): set<string> { set x | x in s }

  /** Nothing is collected twice exactly when as many different texts are collected as there are. */
  lemma {:induction false} DistinctBySize(s: seq<string>)
    ensures |Elements(s)| <= |s|
    ensures |Elements(s)| == |s| <==> NoDuplicates(s)
    decreases |s|
  {
    if |s| > 0 {
      var n := |s| - 1;
      var front := s[..n];
      DistinctBySize(front);
      assert s == front + [s[n]];
      assert Elements(s) == Elements(front) + {s[n]};
      if s[n] in front {
        var i :| 0 <= i < n && front[i] == s[n];
        assert Elements(s) == Elements(front);
        assert s[i] == s[n];
      } else {
        assert |Elements(s)| == |Elements(front)| + 1;
        LastIsNew(s);
      }
    }
  }

  lemma LastIsNew(s: seq<string>)
    requires |s| > 0 && s[|s| - 1] !in s[..|s| - 1]
    ensures NoDuplicates(s) <==> NoDuplicates(s[..|s| - 1])
  {
    var front := s[..|s| - 1];
    assert forall i :: 0 <= i < |front| ==> front[i] == s[i];
    forall i | 0 <= i < |s| - 1 ensures s[i] != s[|s| - 1] {
      assert front[i] in front;
    }
  }

  function Locators(keys: seq<Key>): seq<string> { seq(|keys|, i requires 0 <= i < |keys| => keys[i].locator) }

  function PathOf(key: Key): string { if key.derivation.Some? then key.derivation.value.path else "" }

  function PathTexts(keys: seq<Key>): seq<string> { seq(|keys|, i requires 0 <= i < |keys| => PathOf(keys[i])) }

  function DescribedLocators(ds: seq<Description>): seq<string> { seq(|ds|, i requires 0 <= i < |ds| => ds[i].key.locator) }

  function NamespaceIds(ns: seq<Namespace>): seq<string> { seq(|ns|, i requires 0 <= i < |ns| => ns[i].id) }

  /** The key belongs to this backend and root, on a path that is not tombstoned. */
  predicate Belongs(instance: string, b: Backup, key: Key) {
    && key.backend == "local" && key.instance == instance
    && key.derivation.Some? && key.derivation.value.root == b.rootId && key.derivation.value.path !in b.tombstones
  }

  predicate AcceptedKeys(instance: string, b: Backup) {
    && (forall key :: key in b.registry ==> Belongs(instance, b, key))
    && |Elements(Locators(b.registry))| == |b.registry| && |Elements(PathTexts(b.registry))| == |b.registry|
  }

  lemma KeysExactly(instance: string, b: Backup)
    ensures RegistryFits(instance, b) <==> AcceptedKeys(instance, b)
  {
    var keys := b.registry;
    DistinctBySize(Locators(keys));
    DistinctBySize(PathTexts(keys));
    assert (forall i :: 0 <= i < |keys| ==> KeyFits(instance, b, keys[i])) <==> forall key :: key in keys ==> Belongs(instance, b, key) by {
      if forall key :: key in keys ==> Belongs(instance, b, key) {
        forall i | 0 <= i < |keys| ensures KeyFits(instance, b, keys[i]) {
          assert Belongs(instance, b, keys[i]);
        }
      }
      if forall i :: 0 <= i < |keys| ==> KeyFits(instance, b, keys[i]) {
        forall key | key in keys ensures Belongs(instance, b, key) {
          var i :| 0 <= i < |keys| && keys[i] == key;
          assert KeyFits(instance, b, keys[i]);
        }
      }
    }
    if forall i :: 0 <= i < |keys| ==> KeyFits(instance, b, keys[i]) {
      ApartBySize(instance, b);
    }
  }

  lemma ApartBySize(instance: string, b: Backup)
    requires forall i :: 0 <= i < |b.registry| ==> KeyFits(instance, b, b.registry[i])
    ensures (forall i, j :: 0 <= i < j < |b.registry| ==> KeysApart(b.registry[i], b.registry[j]))
            <==> NoDuplicates(Locators(b.registry)) && NoDuplicates(PathTexts(b.registry))
  {
    var keys, locators, paths := b.registry, Locators(b.registry), PathTexts(b.registry);
    forall i, j | 0 <= i < j < |keys| ensures KeysApart(keys[i], keys[j]) <==> locators[i] != locators[j] && paths[i] != paths[j] {
      assert KeyFits(instance, b, keys[i]) && KeyFits(instance, b, keys[j]);
    }
    if NoDuplicates(locators) && NoDuplicates(paths) {
      forall i, j | 0 <= i < j < |keys| ensures KeysApart(keys[i], keys[j]) {
        assert locators[i] != locators[j] && paths[i] != paths[j];
      }
    }
    if forall i, j :: 0 <= i < j < |keys| ==> KeysApart(keys[i], keys[j]) {
      forall i, j | 0 <= i < j < |keys| ensures locators[i] != locators[j] && paths[i] != paths[j] {
        assert KeysApart(keys[i], keys[j]);
      }
    }
  }

  predicate AcceptedDescriptions(p: Primitives, b: Backup) {
    && (forall d :: d in b.descriptions ==>
          && (d.key in b.registry || b.pinnedRoot == Some(d.key))
          && d.fingerprint == d.key.fingerprint == p.digest(d.spki))
    && |Elements(DescribedLocators(b.descriptions))| == |b.descriptions|
  }

  lemma DescriptionsExactly(p: Primitives, b: Backup)
    ensures DescriptionsFit(p, b) <==> AcceptedDescriptions(p, b)
  {
    var ds, locators := b.descriptions, DescribedLocators(b.descriptions);
    DistinctBySize(locators);
    assert forall i :: 0 <= i < |ds| ==> locators[i] == ds[i].key.locator;
    if DescriptionsFit(p, b) {
      forall d | d in ds ensures DescriptionFits(p, b, d) {
        var i :| 0 <= i < |ds| && ds[i] == d;
        assert DescriptionFits(p, b, ds[i]);
      }
    }
    if AcceptedDescriptions(p, b) {
      forall i | 0 <= i < |ds| ensures DescriptionFits(p, b, ds[i]) {
        assert ds[i] in ds;
      }
      forall i, j | 0 <= i < j < |ds| ensures ds[i].key.locator != ds[j].key.locator {
        assert locators[i] != locators[j];
      }
    }
  }

  predicate AcceptedNamespaces(p: Primitives, b: Backup) {
    && (forall n :: n in b.namespaces ==> p.validPrefix(n.prefix) && n.next <= n.limit && n.limit <= 0x8000_0000)
    && |Elements(NamespaceIds(b.namespaces))| == |b.namespaces|
  }

  lemma NamespacesExactly(p: Primitives, b: Backup)
    ensures NamespacesFit(p, b) <==> AcceptedNamespaces(p, b)
  {
    var ns, ids := b.namespaces, NamespaceIds(b.namespaces);
    DistinctBySize(ids);
    assert forall i :: 0 <= i < |ns| ==> ids[i] == ns[i].id;
    if NamespacesFit(p, b) {
      forall n | n in ns ensures NamespaceFits(p, n) {
        var i :| 0 <= i < |ns| && ns[i] == n;
        assert NamespaceFits(p, ns[i]);
      }
    }
    if AcceptedNamespaces(p, b) {
      forall i | 0 <= i < |ns| ensures NamespaceFits(p, ns[i]) {
        assert ns[i] in ns;
      }
      forall i, j | 0 <= i < j < |ns| ensures ns[i].id != ns[j].id {
        assert ids[i] != ids[j];
      }
    }
  }

  /** The formats restoring knows, and a pinned root of this very backend. */
  predicate AcceptedHeader(instance: string, b: Backup) {
    && b.version == 1 && b.nonceLength == 24 && b.authorityKeyLength == 32
    && match b.pinnedRoot
       case None => true
       case Some(root) =>
         root.backend == "local" && root.instance == instance && !root.ed25519 && root.locator == "root:" + b.rootId && root.derivation.None?
  }

  /**
   A backup is restored if and only if its formats are known, every key, description and namespace
   belongs, and as many different locators, paths, tombstones and names are collected as there are
   keys, descriptions, tombstones and namespaces.
   */
  lemma RestoreExactly(p: Primitives, instance: string, b: Backup)
    ensures Restorable(p, instance, b)
            <==> AcceptedHeader(instance, b) && AcceptedKeys(instance, b) && AcceptedDescriptions(p, b) && AcceptedNamespaces(p, b)
                 && |Elements(b.tombstones)| == |b.tombstones|
  {
    KeysExactly(instance, b);
    DescriptionsExactly(p, b);
    NamespacesExactly(p, b);
    DistinctBySize(b.tombstones);
  }
}
