/**
 Ceremony edits on custody backups match their edits on tables of factors: each succeeds exactly
 when the other does, and every backup goes on representing its table.
 */
module CeremonyCustody {
  import opened Wrappers
  import opened CeremonyState
  import opened Ceremony
  import opened CeremonyVaults
  import Custody
  import Factors = CustodyTheorems

  /** The backup is this wallet's and represents its table. */
  ghost predicate BackupOf(b: Custody.Backup, name: string, w: Wallet) {
    b.wallet == name && Factors.Represents(b, w.secret, w.table)
  }

  ghost predicate Backs(v: Vaults, h: Holdings) {
    && v.backups.Keys == h.wallets.Keys && v.credentials == h.credentials
    && forall w :: w in h.wallets ==> BackupOf(v.backups[w], w, h.wallets[w])
  }

  // ---------------------------------------------------------------- one backup

  lemma CallRepresents(b: Custody.Backup, w: Wallet, c: Factors.Command)
    requires Factors.InRange(c) && Factors.Represents(b, w.secret, w.table)
    ensures Call(b, c).Some? <==> Perform(w, c).Some?
    ensures Call(b, c).Some? ==> Factors.Represents(Call(b, c).value, w.secret, Perform(w, c).value.table)
  {
    Factors.StepRefines(Custody.Store(b, None), w.secret, w.table, c);
  }

  lemma CallKeepsName(b: Custody.Backup, c: Factors.Command)
    requires Factors.InRange(c) && Call(b, c).Some?
    ensures Call(b, c).value.wallet == b.wallet
  {
    match c
    case Add(_, _, _, _, _) =>
    case Revoke(_, _) =>
    case Recovery(_, _, _, _, _) =>
    case PolicyVersion(_, _) =>
    case Replace(_, _, _, _, _, _, _) =>
    case Rekey(_, _, _, _, _, _) =>
  }

  /** The operation succeeds on the backup exactly when it does on the table, and keeps representing it. */
  lemma CallMatches(b: Custody.Backup, name: string, w: Wallet, c: Factors.Command)
    requires Factors.InRange(c) && BackupOf(b, name, w)
    ensures Call(b, c).Some? <==> Perform(w, c).Some?
    ensures Call(b, c).Some? ==> BackupOf(Call(b, c).value, name, Perform(w, c).value)
  {
    CallRepresents(b, w, c);
    if Call(b, c).Some? {
      CallKeepsName(b, c);
    }
  }

  lemma UnlocksMatch(b: Custody.Backup, name: string, w: Wallet, id: string, key: string)
    requires BackupOf(b, name, w)
    ensures Custody.UnlockWithCredential(b, id, key).Ok? <==> CredentialUnlocks(w, id, key)
    ensures Custody.UnlockWithCredential(b, id, key).Ok? ==> Factors.Genuine(w.secret, Custody.UnlockWithCredential(b, id, key).value)
    ensures Custody.UnlockWithRecovery(b, id, key).Ok? <==> w.table.recovery == Some((id, key))
    ensures Custody.UnlockWithRecovery(b, id, key).Ok? ==> Factors.Genuine(w.secret, Custody.UnlockWithRecovery(b, id, key).value)
  {
    Factors.CredentialUnlocksExactly(b, w.secret, w.table, id, key);
    Factors.RecoveryUnlocksExactly(b, w.secret, w.table, id, key);
  }

  // ---------------------------------------------------------------- matching the tables

  /** Both succeed or neither does, and success keeps every wallet backed. */
  ghost predicate Matches(v: Option<Vaults>, h: Option<Holdings>) {
    (v.Some? <==> h.Some?) && (v.Some? ==> Backs(v.value, h.value))
  }

  lemma BindMatches(v: Vaults, h: Holdings, id: string, wallet: string)
    requires Backs(v, h)
    ensures Matches(BindVault(v, id, wallet), Bind(h, id, wallet))
  {
  }

  lemma PutBacks(v: Vaults, h: Holdings, wallet: string, b: Custody.Backup, w: Wallet)
    requires Backs(v, h) && BackupOf(b, wallet, w)
    ensures Backs(v.(backups := v.backups[wallet := b]), h.(wallets := h.wallets[wallet := w]))
  {
  }

  lemma PutAndUnbind(v: Vaults, h: Holdings, wallet: string, b: Custody.Backup, w: Wallet, credentials: map<string, string>)
    requires Backs(v, h) && BackupOf(b, wallet, w)
    ensures Backs(Vaults(v.backups[wallet := b], credentials), Holdings(h.wallets[wallet := w], credentials))
  {
    PutBacks(v, h, wallet, b, w);
  }

  /** The credential is bound to a wallet that exists. */
  predicate Holds(credentials: map<string, string>, wallets: set<string>, wallet: string, id: string) {
    id in credentials && credentials[id] == wallet && wallet in wallets
  }

  lemma AuthoriseUnlocks(v: Vaults, wallet: string, c: Completion)
    requires Holds(v.credentials, v.backups.Keys, wallet, c.authority)
    ensures var r := Custody.UnlockWithCredential(v.backups[wallet], c.authority, c.authorityKey);
            Authorise(v, wallet, c) == if r.Ok? then Some(r.value) else None
  {
  }

  lemma UnheldUnauthorised(v: Vaults, h: Holdings, wallet: string, c: Completion)
    requires v.backups.Keys == h.wallets.Keys && v.credentials == h.credentials
    requires !Holds(v.credentials, v.backups.Keys, wallet, c.authority)
    ensures Authorise(v, wallet, c).None? && !Authorised(h, wallet, c)
  {
  }

  lemma AuthoriseMatches(v: Vaults, h: Holdings, wallet: string, c: Completion)
    requires Backs(v, h)
    ensures Authorise(v, wallet, c).Some? <==> Authorised(h, wallet, c)
    ensures Authorise(v, wallet, c).Some? ==> Factors.Genuine(h.wallets[wallet].secret, Authorise(v, wallet, c).value)
  {
    if Holds(v.credentials, v.backups.Keys, wallet, c.authority) {
      AuthoriseUnlocks(v, wallet, c);
      UnlocksMatch(v.backups[wallet], wallet, h.wallets[wallet], c.authority, c.authorityKey);
    } else {
      UnheldUnauthorised(v, h, wallet, c);
    }
  }

  /** The add accepts any session with the same secrets. */
  lemma SameSession(w: Wallet, session: Custody.Unlocked, secret: Custody.Secret, id: string, key: string)
    requires Factors.Genuine(secret, session)
    ensures Perform(w, Factors.Add(session, id, key, SOME_NONCE, true)) == AddFactor(w, secret, id, key)
  {
  }

  lemma PutAndBind(v: Vaults, h: Holdings, wallet: string, b: Custody.Backup, w: Wallet, id: string)
    requires Backs(v, h) && BackupOf(b, wallet, w)
    ensures Matches(BindVault(v.(backups := v.backups[wallet := b]), id, wallet), Bind(h.(wallets := h.wallets[wallet := w]), id, wallet))
  {
    PutBacks(v, h, wallet, b, w);
    BindMatches(v.(backups := v.backups[wallet := b]), h.(wallets := h.wallets[wallet := w]), id, wallet);
  }

  lemma AddMatches(b: Custody.Backup, name: string, w: Wallet, session: Custody.Unlocked, secret: Custody.Secret, id: string, key: string)
    requires BackupOf(b, name, w) && Factors.Genuine(secret, session)
    ensures var added, addedTable := Call(b, Factors.Add(session, id, key, SOME_NONCE, true)), AddFactor(w, secret, id, key);
            && (added.Some? <==> addedTable.Some?)
            && (added.Some? ==> BackupOf(added.value, name, addedTable.value))
  {
    SameSession(w, session, secret, id, key);
    CallMatches(b, name, w, Factors.Add(session, id, key, SOME_NONCE, true));
  }

  lemma EnrolMatches(v: Vaults, h: Holdings, wallet: string, session: Custody.Unlocked, secret: Custody.Secret, id: string, key: string)
    requires Backs(v, h) && Factors.Genuine(secret, session)
    ensures Matches(EnrolVault(v, wallet, session, id, key), Enrol(h, wallet, secret, id, key))
  {
    if wallet in h.wallets {
      AddMatches(v.backups[wallet], wallet, h.wallets[wallet], session, secret, id, key);
      var added := Call(v.backups[wallet], Factors.Add(session, id, key, SOME_NONCE, true));
      if added.Some? {
        PutAndBind(v, h, wallet, added.value, AddFactor(h.wallets[wallet], secret, id, key).value, id);
      }
    }
  }

  lemma RegisterMatches(v: Vaults, h: Holdings, wallet: string, c: Completion)
    requires Backs(v, h)
    ensures Matches(RegisterVault(v, wallet, c), ApplyRegistration(h, wallet, c))
  {
    RegisteredMatches(wallet, c);
    if RegisteredBackup(wallet, c).Some? {
      PutAndBind(v, h, wallet, RegisteredBackup(wallet, c).value, NewWallet(wallet, c).value, c.newId);
    }
  }

  lemma RegisteredMatches(wallet: string, c: Completion)
    ensures RegisteredBackup(wallet, c).Some? <==> NewWallet(wallet, c).Some?
    ensures RegisteredBackup(wallet, c).Some? ==> BackupOf(RegisteredBackup(wallet, c).value, wallet, NewWallet(wallet, c).value)
  {
    if NewBackup(wallet, c).Ok? {
      var b, w := NewBackup(wallet, c).value, Wallet(c.secret, Factors.FirstTable(c.newId, c.newKey));
      NewBackupIsBackup(wallet, c);
      UnlocksMatch(b, wallet, w, c.newId, c.newKey);
      FirstRecoveryMatches(b, wallet, w, Custody.UnlockWithCredential(b, c.newId, c.newKey).value, c);
    }
  }

  lemma FirstRecoveryMatches(b: Custody.Backup, name: string, w: Wallet, session: Custody.Unlocked, c: Completion)
    requires BackupOf(b, name, w) && Factors.Genuine(w.secret, session)
    ensures var w' := if c.withRecovery then SetRecoveryFactor(w, c.recoveryId, c.recoveryKey) else Some(w);
            && (FirstRecovery(b, session, c).Some? <==> w'.Some?)
            && (w'.Some? ==> BackupOf(FirstRecovery(b, session, c).value, name, w'.value))
  {
    var call := Factors.Recovery(session, c.recoveryId, c.recoveryKey, SOME_NONCE, true);
    CallMatches(b, name, w, call);
    assert Perform(w, call) == SetRecoveryFactor(w, c.recoveryId, c.recoveryKey);
  }

  lemma NewBackupIsBackup(wallet: string, c: Completion)
    requires NewBackup(wallet, c).Ok?
    ensures BackupOf(NewBackup(wallet, c).value, wallet, Wallet(c.secret, Factors.FirstTable(c.newId, c.newKey)))
  {
    Factors.RegisterRepresents(wallet, c.secret, c.newId, c.newKey, n => SOME_NONCE, NewBackup(wallet, c).value);
  }

  /** What the tables do when a factor is revoked and its binding dropped. */
  function RevokeTable(h: Holdings, wallet: string, id: string): Option<Holdings>
    requires wallet in h.wallets
  {
    match RevokeFactor(h.wallets[wallet], id)
    case None => None
    case Some(w) => Some(Holdings(h.wallets[wallet := w], h.credentials - {id}))
  }

  lemma RevokeMatches(v: Vaults, h: Holdings, wallet: string, id: string)
    requires Backs(v, h) && wallet in h.wallets
    ensures Matches(RevokeVault(v, wallet, id), RevokeTable(h, wallet, id))
  {
    var b, w, c := v.backups[wallet], h.wallets[wallet], Factors.Revoke(id, true);
    CallMatches(b, wallet, w, c);
    if Call(b, c).Some? {
      PutAndUnbind(v, h, wallet, Call(b, c).value, Perform(w, c).value, v.credentials - {id});
    }
  }

  lemma ChangeMatches(v: Vaults, h: Holdings, wallet: string, replace: bool, c: Completion)
    requires Backs(v, h)
    ensures Matches(ChangeVault(v, wallet, replace, c), ApplyCredentialChange(h, wallet, replace, c))
  {
    AuthoriseMatches(v, h, wallet, c);
    if Authorised(h, wallet, c) {
      ChangeWithMatches(v, h, wallet, Authorise(v, wallet, c).value, replace, c);
    }
  }

  lemma ChangeWithMatches(v: Vaults, h: Holdings, wallet: string, session: Custody.Unlocked, replace: bool, c: Completion)
    requires Backs(v, h) && Authorised(h, wallet, c) && Factors.Genuine(h.wallets[wallet].secret, session)
    ensures Matches(ChangeWith(v, wallet, session, replace, c), ApplyCredentialChange(h, wallet, replace, c))
  {
    var secret := h.wallets[wallet].secret;
    EnrolMatches(v, h, wallet, session, secret, c.newId, c.newKey);
    var added, addedTable := EnrolVault(v, wallet, session, c.newId, c.newKey), Enrol(h, wallet, secret, c.newId, c.newKey);
    if added.Some? {
      RevokeMatches(added.value, addedTable.value, wallet, c.authority);
      ChangeIsEnrolThenRevoke(h, wallet, replace, c);
    }
  }

  lemma ChangeIsEnrolThenRevoke(h: Holdings, wallet: string, replace: bool, c: Completion)
    requires Authorised(h, wallet, c) && Enrol(h, wallet, h.wallets[wallet].secret, c.newId, c.newKey).Some?
    ensures var added := Enrol(h, wallet, h.wallets[wallet].secret, c.newId, c.newKey).value;
            ApplyCredentialChange(h, wallet, replace, c) == if replace then RevokeTable(added, wallet, c.authority) else Some(added)
  {
  }

  lemma SameReplacement(w: Wallet, session: Custody.Unlocked, c: Completion)
    requires Factors.Genuine(w.secret, session)
    ensures Perform(w, Factors.Replace(session, c.newId, c.newKey, c.nextRecoveryId, c.nextRecoveryKey, n => SOME_NONCE, true))
            == ReplaceFactors(w, c.newId, c.newKey, c.nextRecoveryId, c.nextRecoveryKey)
  {
  }

  lemma RecoverMatches(v: Vaults, h: Holdings, wallet: string, c: Completion)
    requires Backs(v, h)
    ensures Matches(RecoverVault(v, wallet, c), ApplyRecovery(h, wallet, c))
  {
    if wallet in h.wallets {
      var b, w := v.backups[wallet], h.wallets[wallet];
      UnlocksMatch(b, wallet, w, c.recoveryId, c.recoveryKey);
      if w.table.recovery == Some((c.recoveryId, c.recoveryKey)) {
        ReplacementMatches(v, h, wallet, Custody.UnlockWithRecovery(b, c.recoveryId, c.recoveryKey).value, c);
      }
    }
  }

  lemma ReplacementMatches(v: Vaults, h: Holdings, wallet: string, session: Custody.Unlocked, c: Completion)
    requires Backs(v, h) && wallet in h.wallets && Factors.Genuine(h.wallets[wallet].secret, session)
    ensures var w' := ReplaceFactors(h.wallets[wallet], c.newId, c.newKey, c.nextRecoveryId, c.nextRecoveryKey);
            Matches(ReplaceVault(v, wallet, session, c),
                    if w'.None? then None
                    else Bind(Holdings(h.wallets[wallet := w'.value], Unbind(h.credentials, wallet)), c.newId, wallet))
  {
    var b, w := v.backups[wallet], h.wallets[wallet];
    var call := Factors.Replace(session, c.newId, c.newKey, c.nextRecoveryId, c.nextRecoveryKey, n => SOME_NONCE, true);
    CallMatches(b, wallet, w, call);
    SameReplacement(w, session, c);
    if Call(b, call).Some? {
      var b', w' := Call(b, call).value, Perform(w, call).value;
      PutAndUnbind(v, h, wallet, b', w', Unbind(v.credentials, wallet));
      BindMatches(Vaults(v.backups[wallet := b'], Unbind(v.credentials, wallet)),
                  Holdings(h.wallets[wallet := w'], Unbind(h.credentials, wallet)), c.newId, wallet);
    }
  }

  lemma RemoveMatches(v: Vaults, h: Holdings, wallet: string, target: Option<string>, c: Completion)
    requires Backs(v, h)
    ensures Matches(RemoveVault(v, wallet, target, c), ApplyRemoval(h, wallet, target, c))
  {
    if target.Some? && wallet in h.wallets {
      RevokeMatches(v, h, wallet, target.value);
    }
  }

  lemma DeletionMatches(v: Vaults, h: Holdings, wallet: string)
    requires Backs(v, h)
    ensures Backs(Vaults(v.backups - {wallet}, Unbind(v.credentials, wallet)), ApplyDeletion(h, wallet))
  {
  }

  lemma ApplyRegistrationMatches(v: Vaults, h: Holdings, p: Pending, c: Completion)
    requires Backs(v, h) && p.wallet.Some? && c.proofOk && CreatesWallet(p.kind)
    ensures Matches(ApplyVault(v, p, c), ApplyCustody(h, p, c))
  {
    RegisterMatches(v, h, p.wallet.value, c);
  }

  lemma ApplyChangeMatches(v: Vaults, h: Holdings, p: Pending, c: Completion)
    requires Backs(v, h) && p.wallet.Some? && c.proofOk && (p.kind == CredentialAdd || p.kind == CredentialReplace)
    ensures Matches(ApplyVault(v, p, c), ApplyCustody(h, p, c))
  {
    ChangeMatches(v, h, p.wallet.value, p.kind == CredentialReplace, c);
  }

  lemma ApplyRemovalMatches(v: Vaults, h: Holdings, p: Pending, c: Completion)
    requires Backs(v, h) && p.wallet.Some? && c.proofOk && p.kind == CredentialRemove
    ensures Matches(ApplyVault(v, p, c), ApplyCustody(h, p, c))
  {
    RemoveMatches(v, h, p.wallet.value, p.target, c);
  }

  lemma ApplyRecoveryMatches(v: Vaults, h: Holdings, p: Pending, c: Completion)
    requires Backs(v, h) && p.wallet.Some? && c.proofOk && p.kind == WalletRecovery
    ensures Matches(ApplyVault(v, p, c), ApplyCustody(h, p, c))
  {
    RecoverMatches(v, h, p.wallet.value, c);
  }

  lemma ApplyDeletionMatches(v: Vaults, h: Holdings, p: Pending, c: Completion)
    requires Backs(v, h) && p.wallet.Some? && c.proofOk && p.kind == WalletDelete
    ensures Matches(ApplyVault(v, p, c), ApplyCustody(h, p, c))
  {
    AuthoriseMatches(v, h, p.wallet.value, c);
    DeletionMatches(v, h, p.wallet.value);
  }

  /** The kinds that edit no wallet only need its authority. */
  predicate EditsNothing(kind: Kind) {
    kind == WalletExport || kind == BackendEnrollment || kind == KeyDerive || kind == PolicyUpdate
    || kind == AccountAllocate || kind == AccountRetire
  }

  lemma ApplyEffectMatches(v: Vaults, h: Holdings, p: Pending, c: Completion)
    requires Backs(v, h) && p.wallet.Some? && c.proofOk && EditsNothing(p.kind)
    ensures Matches(ApplyVault(v, p, c), ApplyCustody(h, p, c))
  {
    AuthoriseMatches(v, h, p.wallet.value, c);
  }

  lemma ApplyNothingMatches(v: Vaults, h: Holdings, p: Pending, c: Completion)
    requires p.wallet.None? || !c.proofOk || p.kind == SealedApproval
    ensures Matches(ApplyVault(v, p, c), ApplyCustody(h, p, c))
  {
  }

  /** Every ceremony's edit on backups matches its edit on tables. */
  lemma ApplyMatches(v: Vaults, h: Holdings, p: Pending, c: Completion)
    requires Backs(v, h)
    ensures Matches(ApplyVault(v, p, c), ApplyCustody(h, p, c))
  {
    if p.wallet.None? || !c.proofOk || p.kind == SealedApproval {
      ApplyNothingMatches(v, h, p, c);
    } else if CreatesWallet(p.kind) {
      ApplyRegistrationMatches(v, h, p, c);
    } else if p.kind == CredentialAdd || p.kind == CredentialReplace {
      ApplyChangeMatches(v, h, p, c);
    } else if p.kind == CredentialRemove {
      ApplyRemovalMatches(v, h, p, c);
    } else if p.kind == WalletRecovery {
      ApplyRecoveryMatches(v, h, p, c);
    } else if p.kind == WalletDelete {
      ApplyDeletionMatches(v, h, p, c);
    } else {
      ApplyEffectMatches(v, h, p, c);
    }
  }
}
