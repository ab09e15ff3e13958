/**
 The local backend as the program runs it: the backup is copied, edited, swapped in and written
 out, and the index follows. Every method is proved equal to the operation it implements.
 */
module LocalSignerBackend {
  import opened Limits
  import opened Wrappers
  import opened LocalBackend

  /** Walk the registry collecting locators and paths; stop at the first key that does not fit. */
  method RegistryAccepted(instance: string, b: Backup) returns (ok: bool)
    ensures ok == RegistryFits(instance, b)
  {
    var locators: set<string>, paths: set<string> := {}, {};
    for i := 0 to |b.registry|
      invariant forall l :: l in locators <==> HasLocator(b.registry[..i], l)
      invariant forall x :: x in paths <==> HasPath(b.registry[..i], x)
      invariant forall k :: 0 <= k < i ==> KeyFits(instance, b, b.registry[k])
      invariant forall j, k :: 0 <= j < k < i ==> KeysApart(b.registry[j], b.registry[k])
    {
      var key := b.registry[i];
      if !KeyFits(instance, b, key) {
        return false;
      }
      var path := key.derivation.value.path;
      if key.locator in locators || path in paths {
        assert exists j :: 0 <= j < i && !KeysApart(b.registry[j], key) by {
          Clash(b.registry[..i], key);
        }
        return false;
      }
      Apart(b.registry[..i], key);
      assert forall j :: 0 <= j < i ==> KeysApart(b.registry[..i][j], key);
      locators, paths := locators + {key.locator}, paths + {path};
      Grown(b.registry, i);
    }
    assert b.registry[..|b.registry|] == b.registry;
    return true;
  }

  lemma Clash(keys: seq<Key>, key: Key)
    requires key.derivation.Some? && (HasLocator(keys, key.locator) || HasPath(keys, key.derivation.value.path))
    ensures exists j :: 0 <= j < |keys| && !KeysApart(keys[j], key)
  {
  }

  lemma Apart(keys: seq<Key>, key: Key)
    requires key.derivation.Some? && !HasLocator(keys, key.locator) && !HasPath(keys, key.derivation.value.path)
    ensures forall j :: 0 <= j < |keys| ==> KeysApart(keys[j], key)
  {
  }

  lemma Grown(keys: seq<Key>, i: nat)
    requires i < |keys| && keys[i].derivation.Some?
    ensures forall l :: HasLocator(keys[..i + 1], l) <==> HasLocator(keys[..i], l) || l == keys[i].locator
    ensures forall x :: HasPath(keys[..i + 1], x) <==> HasPath(keys[..i], x) || x == keys[i].derivation.value.path
  {
    assert keys[..i + 1] == keys[..i] + [keys[i]];
    assert keys[..i + 1][i] == keys[i];
    assert forall j :: 0 <= j < i ==> keys[..i + 1][j] == keys[..i][j];
  }

  class LocalSignerBackend {
    const primitives: Primitives
    const instance: string
    var kek: Option<string>
    var backup: Backup
    var index: map<string, Key>
    var disk: Option<Backup>

    /** `restore`, once the backup is accepted: locked, with the index rebuilt by locator. */
    constructor Restore(primitives: Primitives, instance: string, saved: Backup, onDisk: bool)
      requires Restorable(primitives, instance, saved)
      ensures this.primitives == primitives
      ensures Contents() == State(instance, None, saved, IndexOf(saved.registry), if onDisk then Some(saved) else None)
    {
      this.primitives, this.instance := primitives, instance;
      kek := None;
      backup := saved;
      disk := if onDisk then Some(saved) else None;
      var built: map<string, Key> := map[];
      for i := 0 to |saved.registry|
        invariant built == IndexOf(saved.registry[..i])
      {
        built := built[saved.registry[i].locator := saved.registry[i]];
        assert saved.registry[..i + 1][..i] == saved.registry[..i];
      }
      assert saved.registry[..|saved.registry|] == saved.registry;
      index := built;
    }

    /** `restore`: a backup is accepted or nothing is created. */
    static method Open(primitives: Primitives, instance: string, saved: Backup, onDisk: bool) returns (r: Result<LocalSignerBackend, Error>)
      ensures r.Ok? <==> Restorable(primitives, instance, saved)
      ensures r.Err? ==> r.error == InvalidRequest
      ensures r.Ok? ==> fresh(r.value) && r.value.primitives == primitives
                        && r.value.Contents() == State(instance, None, saved, IndexOf(saved.registry), if onDisk then Some(saved) else None)
    {
      var registered := RegistryAccepted(instance, saved);
      if !registered || !HeaderFits(instance, saved) || !DescriptionsFit(primitives, saved)
         || !NoDuplicates(saved.tombstones) || !NamespacesFit(primitives, saved)
      {
        return Err(InvalidRequest);
      }
      var backend := new LocalSignerBackend.Restore(primitives, instance, saved, onDisk);
      return Ok(backend);
    }

    function Contents(): State
      reads this
    {
      State(instance, kek, backup, index, disk)
    }

    /** `commit_backup`. */
    method Commit(next: Backup, writable: bool) returns (r: Result<(), Error>)
      modifies this`backup, this`disk
      ensures (Contents(), r) == CommitBackup(old(Contents()), next, writable)
    {
      var previous := backup;
      backup := next;
      if disk.Some? {
        if !writable {
          backup := previous;
          return Err(DefinitiveRejected);
        }
        disk := Some(backup);
      }
      return Ok(());
    }

    /** `configure_namespace`. */
    method ConfigureNamespace(g: Grant, authority: Option<string>, writable: bool) returns (r: Result<(), Error>)
      modifies this
      ensures (Contents(), r) == LocalBackend.ConfigureNamespace(primitives, old(Contents()), g, authority, writable)
    {
      if backup.material == ImportedScalar {
        return Err(Unsupported);
      }
      if authority.None? {
        return Err(DefinitiveRejected);
      }
      if !GrantFits(primitives, g) {
        return Err(InvalidRequest);
      }
      var found := FindNamespace(backup.namespaces, g.namespace);
      if found.Some? {
        var existing := backup.namespaces[found.value];
        if existing.authority == authority.value && existing.prefix == g.prefix && existing.limit == g.start + g.maximum {
          return Ok(());
        }
        return Err(InvalidRequest);
      }
      var next := backup;
      next := next.(namespaces := next.namespaces + [Namespace(g.namespace, g.prefix, g.start, g.start + g.maximum, authority.value)]);
      r := Commit(next, writable);
    }

    /** `allocate_derived_key_inner`. */
    method AllocateDerivedKey(parent: Key, id: string, authority: Option<string>, op: Option<string>, writable: bool)
        returns (r: Result<Description, Error>)
      modifies this
      ensures (Contents(), r) == Allocate(primitives, old(Contents()), parent, id, authority, op, writable)
    {
      if authority.None? {
        return Err(DefinitiveRejected);
      }
      var checked := CheckParent(primitives, Contents(), parent);
      if checked.Err? {
        return Err(checked.error);
      }
      if op.Some? && op.value in backup.pending {
        return DescribeAgain(primitives, Contents(), backup.pending[op.value]);
      }
      var found := FindNamespace(backup.namespaces, id);
      if found.None? {
        return Err(InvalidRequest);
      }
      var n := backup.namespaces[found.value];
      if authority.value != n.authority || n.next >= n.limit || n.next >= HARDENED_OFFSET {
        return Err(InvalidRequest);
      }
      var path := PathAt(n.prefix, n.next, parent.ed25519);
      if path in backup.tombstones || HasPath(backup.registry, path) {
        return Err(DefinitiveRejected);
      }
      var described := DescribeChild(primitives, Contents(), parent, path);
      if described.Err? {
        return Err(described.error);
      }
      var key := described.value.key;
      var next := backup.(namespaces := backup.namespaces[found.value := n.(next := n.next + 1)]);
      next := next.(registry := next.registry + [key]);
      next := next.(descriptions := next.descriptions + [described.value]);
      if op.Some? {
        next := next.(pending := next.pending[op.value := key]);
      }
      var committed := Commit(next, writable);
      if committed.Err? {
        return Err(committed.error);
      }
      index := index[key.locator := key];
      return Ok(described.value);
    }

    /** `register_child`. */
    method RegisterChild(key: Key, description: Option<Description>, op: Option<string>, writable: bool) returns (r: Result<(), Error>)
      modifies this
      ensures (Contents(), r) == LocalBackend.RegisterChild(old(Contents()), key, description, op, writable)
    {
      if key in backup.registry {
        if description.Some? && !(exists i :: 0 <= i < |backup.descriptions| && backup.descriptions[i].key == key) {
          r := Commit(backup.(descriptions := backup.descriptions + [description.value]), writable);
          return;
        }
        return Ok(());
      }
      var next := backup.(registry := backup.registry + [key]);
      if description.Some? {
        next := next.(descriptions := next.descriptions + [description.value]);
      }
      if op.Some? {
        next := next.(pending := next.pending[op.value := key]);
      }
      r := Commit(next, writable);
      if r.Ok? {
        index := index[key.locator := key];
      }
    }

    /** `register_bip39_child`. */
    method RegisterKey(key: Key, op: Option<string>, writable: bool) returns (r: Result<(), Error>)
      modifies this
      ensures (Contents(), r) == LocalBackend.RegisterKey(primitives, old(Contents()), key, op, writable)
    {
      if key.derivation.None? {
        return Err(InvalidRequest);
      }
      var description: Option<Description> := None;
      if key.derivation.value.family != Bip32 {
        var described := DescribeProfile(primitives, Contents(), key, key.derivation.value);
        if described.Err? {
          return Err(described.error);
        }
        description := Some(described.value);
      }
      r := RegisterChild(key, description, op, writable);
    }

    /** `register_bip39_child_description`. */
    method RegisterDescription(d: Description, op: Option<string>, writable: bool) returns (r: Result<(), Error>)
      modifies this
      ensures (Contents(), r) == LocalBackend.RegisterDescription(primitives, old(Contents()), d, op, writable)
    {
      if !StatesItself(primitives, d) {
        return Err(InvalidRequest);
      }
      r := RegisterChild(d.key, Some(d), op, writable);
    }

    /** `finalize_derived_key`. */
    method FinalizeDerivedKey(op: string, writable: bool) returns (r: Result<(), Error>)
      modifies this
      ensures (Contents(), r) == Finalize(old(Contents()), op, writable)
    {
      if op !in backup.pending {
        return Err(InvalidRequest);
      }
      r := Commit(backup.(pending := backup.pending - {op}), writable);
    }

    /** `tombstone_derived_key` and `retire_bip39_child`. */
    method TombstoneDerivedKey(key: Key, writable: bool) returns (r: Result<(), Error>)
      modifies this
      ensures (Contents(), r) == Tombstone(old(Contents()), key, writable)
    {
      if key.derivation.None? || key.locator !in index || index[key.locator] != key {
        return Err(InvalidRequest);
      }
      var path := key.derivation.value.path;
      var next := backup.(
        registry := WithoutKey(backup.registry, key),
        descriptions := WithoutDescription(backup.descriptions, key));
      var kept := next.pending;
      next := next.(pending := map o | o in kept && kept[o] != key :: kept[o]);
      if path !in next.tombstones {
        next := next.(tombstones := next.tombstones + [path]);
      }
      r := Commit(next, writable);
      if r.Ok? {
        index := index - {key.locator};
      }
    }

    /** `validate_registered_derivations`: describe the root and every indexed key again. */
    method ValidateDerivations() returns (ok: bool)
      ensures ok == DerivationsHold(primitives, Contents())
    {
      if !RootDescribed(primitives, Contents()) {
        return false;
      }
      var left := index.Keys;
      while left != {}
        invariant left <= index.Keys
        invariant forall l :: l in index && l !in left ==> SelfDescribed(primitives, Contents(), index[l])
        decreases |left|
      {
        var l :| l in left;
        if !SelfDescribed(primitives, Contents(), index[l]) {
          return false;
        }
        left := left - {l};
      }
      return true;
    }

    /** `activate_blocking`: take the key, try it, and drop it again when anything fails. */
    method Activate(secret: string) returns (r: Result<(), Error>)
      modifies this`kek
      ensures (Contents(), r) == LocalBackend.Activate(primitives, old(Contents()), secret)
    {
      if |secret| != KEK_LENGTH {
        return Err(InvalidRequest);
      }
      kek := Some(secret);
      var valid := Unlocked(primitives, Contents());
      if valid {
        valid := ValidateDerivations();
      }
      if !valid {
        kek := None;
        return Err(DefinitiveRejected);
      }
      return Ok(());
    }

    /** `deactivate`. */
    method Deactivate()
      modifies this`kek
      ensures Contents() == LocalBackend.Deactivate(old(Contents()))
    {
      kek := None;
    }
  }
}
