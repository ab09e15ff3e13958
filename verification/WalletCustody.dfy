/**
 Custody as the program runs it: one backup edited field by field under a lock, with the previous
 backup put back when writing the file fails. Every method is proved equal to its operation.
 */
module WalletCustody {
  import opened Limits
  import opened Wrappers
  import opened Custody

  class WalletCustody {
    var backup: Backup
    var disk: Option<Backup>

    constructor Restore(saved: Backup, onDisk: bool)
      requires ValidShape(saved)
      ensures Contents() == Store(saved, if onDisk then Some(saved) else None)
    {
      backup := saved;
      disk := if onDisk then Some(saved) else None;
    }

    function Contents(): Store
      reads this
    {
      Store(backup, disk)
    }

    /** `persist_custody`: write beside, then rename; nothing to do without a storage path. */
    method Persist(writable: bool) returns (ok: bool)
      modifies this`disk
      ensures ok == (old(disk).None? || writable)
      ensures disk == if ok && old(disk).Some? then Some(backup) else old(disk)
    {
      if disk.None? {
        return true;
      }
      if writable {
        disk := Some(backup);
      }
      return writable;
    }

    method PersistOrRollBack(previous: Backup, writable: bool) returns (r: Result<(), Error>)
      modifies this
      ensures (Contents(), r) == Publish(Store(previous, old(disk)), old(backup), writable)
    {
      var ok := Persist(writable);
      if !ok {
        backup := previous;
        return Err(PersistFailed);
      }
      return Ok(());
    }

    method HasCredential(id: string) returns (found: bool)
      ensures found == HasId(backup.wraps, id)
    {
      for i := 0 to |backup.wraps|
        invariant forall k :: 0 <= k < i ==> backup.wraps[k].id != id
      {
        if backup.wraps[i].id == id {
          return true;
        }
      }
      return false;
    }

    /** `unlock_with_credential`. */
    method UnlockWithCredential(id: string, key: string) returns (r: Result<Unlocked, Error>)
      ensures r == Custody.UnlockWithCredential(backup, id, key)
    {
      if |key| != KEY_LENGTH {
        return Err(InvalidKey);
      }
      var i := 0;
      ghost var test := (w: Wrap) => w.active && w.id == id;
      while i < |backup.wraps| && !(backup.wraps[i].active && backup.wraps[i].id == id)
        invariant 0 <= i <= |backup.wraps|
        invariant forall k :: 0 <= k < i ==> !test(backup.wraps[k])
      {
        i := i + 1;
      }
      FindUnique(backup.wraps, test, i);
      if i == |backup.wraps| {
        return Err(Revoked);
      }
      var wkek := Decrypt(key, backup.wraps[i].wrapped, CredentialData(backup, id, backup.wraps[i].version));
      if wkek.Err? {
        return Err(wkek.error);
      }
      return UnlockWithWkek(backup, wkek.value);
    }

    /** `add_credential`. */
    method AddCredential(s: Unlocked, id: string, key: string, nonce: Nonce, writable: bool) returns (r: Result<(), Error>)
      modifies this
      ensures (Contents(), r) == Custody.AddCredential(old(Contents()), s, id, key, nonce, writable)
    {
      if |key| != KEY_LENGTH {
        return Err(InvalidKey);
      }
      var previous := backup;
      var exists' := HasCredential(id);
      if exists' {
        return Err(IdConflict);
      }
      var wkek := SessionWkek(backup, s);
      if wkek.Err? {
        return Err(wkek.error);
      }
      backup := backup.(wraps := backup.wraps + [NewWrap(backup, id, key, wkek.value, nonce)]);
      r := PersistOrRollBack(previous, writable);
    }

    /** `revoke_credential`. */
    method RevokeCredential(id: string, writable: bool) returns (r: Result<(), Error>)
      modifies this
      ensures (Contents(), r) == Custody.RevokeCredential(old(Contents()), id, writable)
    {
      var previous := backup;
      var activeCount := 0;
      for k := 0 to |backup.wraps|
        invariant activeCount == ActiveCount(backup.wraps[..k])
      {
        if backup.wraps[k].active {
          activeCount := activeCount + 1;
        }
        assert backup.wraps[..k + 1][..k] == backup.wraps[..k];
      }
      assert backup.wraps[..|backup.wraps|] == backup.wraps;
      var i := 0;
      ghost var test := (w: Wrap) => w.id == id;
      while i < |backup.wraps| && backup.wraps[i].id != id
        invariant 0 <= i <= |backup.wraps|
        invariant forall k :: 0 <= k < i ==> !test(backup.wraps[k])
      {
        i := i + 1;
      }
      FindUnique(backup.wraps, test, i);
      if i == |backup.wraps| {
        return Err(NotFound);
      }
      if backup.wraps[i].active && activeCount == 1 && backup.recovery.None? {
        return Err(FinalCredential);
      }
      backup := backup.(wraps := backup.wraps[i := backup.wraps[i].(active := false)]);
      r := PersistOrRollBack(previous, writable);
    }

    /** `set_recovery`. */
    method SetRecovery(s: Unlocked, id: string, key: string, nonce: Nonce, writable: bool) returns (r: Result<(), Error>)
      modifies this
      ensures (Contents(), r) == Custody.SetRecovery(old(Contents()), s, id, key, nonce, writable)
    {
      if |key| != KEY_LENGTH {
        return Err(InvalidKey);
      }
      var previous := backup;
      var wkek := SessionWkek(backup, s);
      if wkek.Err? {
        return Err(wkek.error);
      }
      backup := backup.(recovery := Some(NewRecovery(backup, id, key, wkek.value, nonce)));
      r := PersistOrRollBack(previous, writable);
    }

    /** `set_policy_version`. */
    method SetPolicyVersion(next: nat, writable: bool) returns (r: Result<(), Error>)
      modifies this
      ensures (Contents(), r) == Custody.SetPolicyVersion(old(Contents()), next, writable)
    {
      if next <= backup.policyVersion {
        return Err(Stale);
      }
      var previous := backup;
      backup := backup.(policyVersion := next);
      r := PersistOrRollBack(previous, writable);
    }

    /** `recover_replace_credentials`: the overflow exit leaves the changed fields behind. */
    method RecoverReplaceCredentials(s: Unlocked, id: string, key: string, recoveryId: string, recoveryKey: string,
                                     nonces: nat -> Nonce, writable: bool) returns (r: Result<(), Error>)
      modifies this
      ensures (Contents(), r)
              == RecoverReplace(old(Contents()), s, id, key, recoveryId, recoveryKey, nonces, writable)
    {
      if |key| != KEY_LENGTH || |recoveryKey| != KEY_LENGTH {
        return Err(InvalidKey);
      }
      var exists' := HasCredential(id);
      if exists' {
        return Err(IdConflict);
      }
      var wkek := SessionWkek(backup, s);
      if wkek.Err? {
        return Err(wkek.error);
      }
      var previous := backup;
      var newWrap := NewWrap(backup, id, key, wkek.value, nonces(0));
      var newRecovery := NewRecovery(backup, recoveryId, recoveryKey, wkek.value, nonces(1));
      ReplaceFactors(newWrap, newRecovery);
      if backup.generation >= LAST_GENERATION {
        return Err(GenerationExhausted);
      }
      backup := backup.(generation := backup.generation + 1);
      r := PersistOrRollBack(previous, writable);
    }

    method ReplaceFactors(wrap: Wrap, recovery: RecoveryWrap)
      modifies this`backup
      ensures backup == old(backup).(wraps := Deactivated(old(backup).wraps) + [wrap], recovery := Some(recovery))
    {
      Deactivate();
      backup := backup.(wraps := backup.wraps + [wrap], recovery := Some(recovery));
    }

    method Deactivate()
      modifies this`backup
      ensures backup == old(backup).(wraps := Deactivated(old(backup).wraps))
    {
      for i := 0 to |backup.wraps|
        invariant |backup.wraps| == |old(backup).wraps|
        invariant backup == old(backup).(wraps := backup.wraps)
        invariant forall k :: 0 <= k < |backup.wraps| ==>
                    backup.wraps[k] == if k < i then old(backup).wraps[k].(active := false) else old(backup).wraps[k]
      {
        backup := backup.(wraps := backup.wraps[i := backup.wraps[i].(active := false)]);
      }
      assert backup.wraps == Deactivated(old(backup).wraps);
    }

    /** `rekey_wrap_format`: build the replacement beside the old backup, then swap it in. */
    method RekeyWrapFormat(s: Unlocked, version: nat, keys: map<string, string>, recoveryKey: Option<string>,
                           nonces: RekeyNonces, writable: bool) returns (r: Result<(), Error>)
      requires version < U32_LIMIT
      modifies this
      ensures (Contents(), r)
              == Custody.RekeyWrapFormat(old(Contents()), s, version, keys, recoveryKey, nonces, writable)
    {
      if version <= backup.version {
        return Err(Stale);
      }
      var wkek := SessionWkek(backup, s);
      if wkek.Err? {
        return Err(wkek.error);
      }
      var next := Resealed(backup, s, version, nonces.root, nonces.policyKey);
      var wraps := RewrapActive(next, backup.wraps, keys, wkek.value, nonces.wraps);
      if wraps.Err? {
        return Err(wraps.error);
      }
      var recovery := RewrapRecovery(next, backup.recovery, recoveryKey, wkek.value, nonces.recovery);
      if recovery.Err? {
        return Err(recovery.error);
      }
      var previous := backup;
      backup := next.(wraps := wraps.value, recovery := recovery.value);
      r := PersistOrRollBack(previous, writable);
    }

    method RewrapActive(next: Backup, wraps: seq<Wrap>, keys: map<string, string>, wkek: string, nonces: nat -> Nonce)
        returns (r: Result<seq<Wrap>, Error>)
      ensures r == Rewrap(next, wraps, keys, wkek, nonces)
    {
      var done: seq<Wrap> := [];
      for i := 0 to |wraps|
        invariant Rewrap(next, wraps[..i], keys, wkek, nonces) == Ok(done)
      {
        var w := wraps[i];
        assert wraps[..i + 1][..i] == wraps[..i];
        if w.active && (w.id !in keys || |keys[w.id]| != KEY_LENGTH) {
          r := Err(if w.id !in keys then KeysRequired else InvalidKey);
          RewrapStops(next, wraps, keys, wkek, nonces, i + 1);
          return;
        }
        done := done + [if w.active then NewWrap(next, w.id, keys[w.id], wkek, nonces(i)) else w];
      }
      assert wraps[..|wraps|] == wraps;
      return Ok(done);
    }
  }

  lemma FindUnique(wraps: seq<Wrap>, test: Wrap -> bool, i: nat)
    requires i <= |wraps| && forall k :: 0 <= k < i ==> !test(wraps[k])
    requires i < |wraps| ==> test(wraps[i])
    ensures Find(wraps, test) == if i < |wraps| then Some(i) else None
  {
  }

  /** The first refusal of a rewrap is the answer for the whole list. */
  lemma {:induction false} RewrapStops(next: Backup, wraps: seq<Wrap>, keys: map<string, string>, wkek: string, nonces: nat -> Nonce, n: nat)
    requires n <= |wraps| && Rewrap(next, wraps[..n], keys, wkek, nonces).Err?
    ensures Rewrap(next, wraps, keys, wkek, nonces) == Rewrap(next, wraps[..n], keys, wkek, nonces)
    decreases |wraps|
  {
    if n < |wraps| {
      assert wraps[..|wraps| - 1][..n] == wraps[..n];
      RewrapStops(next, wraps[..|wraps| - 1], keys, wkek, nonces, n);
    } else {
      assert wraps[..n] == wraps;
    }
  }
}
