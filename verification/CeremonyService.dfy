/**
 The ceremony service as the program runs it: maps edited in place, with a snapshot of wallets and
 credentials put back when a custody edit or its commit fails. Every method is proved equal to
 the operation it implements.
 */
module CeremonyService {
  import opened Wrappers
  import opened CeremonyState
  import opened Ceremony
  import Pairing
  import Custody

  class SignerCeremonyService {
    var durable: Durable
    var pending: map<string, Pending>
    var completed: map<string, Receipt>
    var pairs: map<string, Pair>
    var wallets: map<string, Wallet>
    var credentials: map<string, string>

    /** Start over stored state: nothing volatile survives. */
    constructor (stored: Durable)
      requires CanStart(stored)
      ensures Contents() == Restart(Service(stored, map[], map[], map[], map[], map[]))
    {
      durable := stored;
      pending, completed, pairs := map[], map[], map[];
      wallets, credentials := stored.wallets, stored.credentials;
    }

    function Contents(): Service
      reads this
    {
      Service(durable, pending, completed, pairs, wallets, credentials)
    }

    function Held(): Holdings
      reads this
    {
      Holdings(wallets, credentials)
    }

    /** `restore_custody_snapshot`. */
    method RestoreSnapshot(before: Holdings)
      modifies this`wallets, this`credentials
      ensures Held() == before
    {
      wallets, credentials := before.wallets, before.credentials;
    }

    /** `prepare_approval`, `prepare_custody`, `prepare_policy_update`. */
    method PrepareCeremony(q: PrepareRequest) returns (r: Result<Pending, Refusal>)
      modifies this`pending
      ensures (Contents(), r) == Prepare(old(Contents()), q)
    {
      if !q.admissible {
        return Err(Rejected);
      }
      if q.operation in pending {
        var existing := pending[q.operation];
        if existing.request != q.request {
          return Err(Conflict);
        }
        if existing.kind != q.kind {
          return Err(KindMismatch);
        }
        return Ok(existing);
      }
      if q.operation in durable.receipts || q.operation in durable.statuses {
        return Err(TerminalConflict);
      }
      if q.wallet.Some? && q.kind != WalletRecovery && LiveSession(Contents(), q.wallet.value) {
        return Err(Unavailable);
      }
      if CreatesWallet(q.kind) && (q.wallet.None? || q.wallet.value in wallets) {
        return Err(Conflict);
      }
      var generation := AuthorityGeneration(Contents(), q.wallet);
      var armed := Pending(q.kind, q.ceremony, q.request, q.wallet, q.target, generation, q.expires);
      pending := pending[q.operation := armed];
      return Ok(armed);
    }

    /** `register_existing_credential`. */
    method BindCredential(id: string, wallet: string) returns (ok: bool)
      modifies this`credentials
      ensures ok == Bind(old(Held()), id, wallet).Some?
      ensures ok ==> Held() == Bind(old(Held()), id, wallet).value
    {
      if id in credentials {
        return false;
      }
      credentials := credentials[id := wallet];
      return true;
    }

    /** Add a factor to a wallet, then bind it; the first edit stays when the second fails. */
    method EnrolCredential(wallet: string, session: Custody.Secret, id: string, key: string) returns (ok: bool)
      modifies this`wallets, this`credentials
      ensures ok == Enrol(old(Held()), wallet, session, id, key).Some?
      ensures ok ==> Held() == Enrol(old(Held()), wallet, session, id, key).value
    {
      if wallet !in wallets {
        return false;
      }
      var w := AddFactor(wallets[wallet], session, id, key);
      if w.None? {
        return false;
      }
      wallets := wallets[wallet := w.value];
      ok := BindCredential(id, wallet);
    }

    method ChangeCredential(wallet: string, replace: bool, c: Completion) returns (ok: bool)
      modifies this`wallets, this`credentials
      ensures ok == ApplyCredentialChange(old(Held()), wallet, replace, c).Some?
      ensures ok ==> Held() == ApplyCredentialChange(old(Held()), wallet, replace, c).value
    {
      if !Authorised(Held(), wallet, c) {
        return false;
      }
      ok := EnrolCredential(wallet, wallets[wallet].secret, c.newId, c.newKey);
      if !ok || !replace {
        return;
      }
      var w := RevokeFactor(wallets[wallet], c.authority);
      if w.None? {
        return false;
      }
      wallets := wallets[wallet := w.value];
      credentials := credentials - {c.authority};
    }

    method Recover(wallet: string, c: Completion) returns (ok: bool)
      modifies this`wallets, this`credentials
      ensures ok == ApplyRecovery(old(Held()), wallet, c).Some?
      ensures ok ==> Held() == ApplyRecovery(old(Held()), wallet, c).value
    {
      if wallet !in wallets || wallets[wallet].table.recovery != Some((c.recoveryId, c.recoveryKey)) {
        return false;
      }
      var w := ReplaceFactors(wallets[wallet], c.newId, c.newKey, c.nextRecoveryId, c.nextRecoveryKey);
      if w.None? {
        return false;
      }
      wallets := wallets[wallet := w.value];
      credentials := Unbind(credentials, wallet);
      ok := BindCredential(c.newId, wallet);
    }

    method Register(wallet: string, c: Completion) returns (ok: bool)
      modifies this`wallets, this`credentials
      ensures ok == ApplyRegistration(old(Held()), wallet, c).Some?
      ensures ok ==> Held() == ApplyRegistration(old(Held()), wallet, c).value
    {
      var w := NewWallet(wallet, c);
      if w.None? || wallet in wallets {
        return false;
      }
      wallets := wallets[wallet := w.value];
      ok := BindCredential(c.newId, wallet);
    }

    method RemoveCredential(wallet: string, target: Option<string>, c: Completion) returns (ok: bool)
      modifies this`wallets, this`credentials
      ensures ok == ApplyRemoval(old(Held()), wallet, target, c).Some?
      ensures ok ==> Held() == ApplyRemoval(old(Held()), wallet, target, c).value
    {
      if target.None? || wallet !in wallets || c.authority !in credentials || credentials[c.authority] != wallet {
        return false;
      }
      var w := RevokeFactor(wallets[wallet], target.value);
      if w.None? {
        return false;
      }
      wallets := wallets[wallet := w.value];
      credentials := credentials - {target.value};
      return true;
    }

    /** `verify_custody_proof_and_apply`: a failure may leave a partial edit behind. */
    method ApplyProof(p: Pending, c: Completion) returns (ok: bool)
      modifies this`wallets, this`credentials
      ensures ok == ApplyCustody(old(Held()), p, c).Some?
      ensures ok ==> Held() == ApplyCustody(old(Held()), p, c).value
    {
      if p.wallet.None? || !c.proofOk {
        return false;
      }
      var wallet := p.wallet.value;
      match p.kind
      case WalletRegistration => ok := Register(wallet, c);
      case WalletImport => ok := Register(wallet, c);
      case CredentialAdd => ok := ChangeCredential(wallet, false, c);
      case CredentialReplace => ok := ChangeCredential(wallet, true, c);
      case CredentialRemove => ok := RemoveCredential(wallet, p.target, c);
      case WalletRecovery => ok := Recover(wallet, c);
      case SealedApproval => ok := false;
      case WalletDelete =>
        ok := Authorised(Held(), wallet, c) && c.effectOk;
        if ok {
          wallets, credentials := wallets - {wallet}, Unbind(credentials, wallet);
        }
      case _ => ok := Authorised(Held(), wallet, c) && c.effectOk;
    }

    /** `apply_custody_completion`. */
    method ApplyCustodyCompletion(p: Pending, c: Completion) returns (r: Result<Receipt, Refusal>)
      modifies this
      ensures (Contents(), r) == CompleteCustodyOf(old(Contents()), p, c)
    {
      if !StillValid(Contents(), p, c) || p.kind == SealedApproval {
        return Err(KindMismatch);
      }
      var before := Held();
      var applied := ApplyProof(p, c);
      if !applied {
        RestoreSnapshot(before);
        return Err(Rejected);
      }
      var receipt := ReceiptOf(p, c);
      var books := CommitCustody(durable, Held(), c.operation, receipt, p.wallet, c.commitOk);
      if books.None? {
        RestoreSnapshot(before);
        return Err(Unavailable);
      }
      durable := books.value;
      if !c.cleanupOk {
        return Err(Unavailable);
      }
      completed := completed[c.operation := receipt];
      return Ok(receipt);
    }

    /** `apply_approval_completion`. */
    method ApplyApprovalCompletion(p: Pending, c: Completion) returns (r: Result<Receipt, Refusal>)
      modifies this
      ensures (Contents(), r) == CompleteApprovalOf(old(Contents()), p, c)
    {
      if !StillValid(Contents(), p, c) || p.kind != SealedApproval || p.wallet.None? {
        return Err(Replay);
      }
      if !c.proofOk || !Bound(Contents(), c.authority, p.wallet.value)
         || (c.localActivation && !Authorised(Held(), p.wallet.value, c)) {
        return Err(Rejected);
      }
      var receipt := ReceiptOf(p, c);
      var books := CommitApproval(durable, c.operation, receipt, p.wallet.value, p.generation, c.commitOk);
      if books.None? {
        return Err(Unavailable);
      }
      durable := books.value;
      completed := completed[c.operation := receipt];
      return Ok(receipt);
    }

    /** `complete_approval` and `complete_custody`. */
    method CompleteCeremony(c: Completion) returns (r: Result<Receipt, Refusal>)
      modifies this
      ensures (Contents(), r) == Complete(old(Contents()), c)
    {
      var retry := Retry(Contents(), c);
      if retry.Some? {
        return retry.value;
      }
      if c.operation !in pending {
        return Err(Replay);
      }
      var p := pending[c.operation];
      pending := pending - {c.operation};
      if c.kind == SealedApproval {
        r := ApplyApprovalCompletion(p, c);
      } else {
        r := ApplyCustodyCompletion(p, c);
      }
      if r.Err? {
        TerminalizeConsumed(p, c);
      }
    }

    /** `terminalize_consumed_ceremony`. */
    method TerminalizeConsumed(p: Pending, c: Completion)
      modifies this`durable
      ensures Contents() == Terminalize(old(Contents()), p, c)
    {
      if c.operation !in durable.receipts && c.statusOk {
        var state := if p.expires <= c.now then Expired else Failed;
        durable := durable.(statuses := durable.statuses[c.operation := state]);
      }
    }

    /** `cancel`. */
    method CancelCeremony(op: string, statusOk: bool) returns (r: Result<(), Refusal>)
      modifies this
      ensures (Contents(), r) == Cancel(old(Contents()), op, statusOk)
    {
      if op in completed {
        return Err(CommittedConflict);
      }
      if HasPair(pairs, op) {
        if CustodyReceipt(durable, op).Some? {
          return Err(CommittedConflict);
        }
        if !statusOk {
          return Err(Unavailable);
        }
        durable := durable.(statuses := durable.statuses[op := Cancelled]);
        pairs := WithoutOperation(pairs, op);
        return Ok(());
      }
      if op !in pending {
        return CancelConsumed(durable, op);
      }
      pending := pending - {op};
      if !statusOk {
        return Err(Unavailable);
      }
      durable := durable.(statuses := durable.statuses[op := Cancelled]);
      return Ok(());
    }

    /** `cross_surface_pair_start`. */
    method PairStart(q: Pairing.StartRequest) returns (r: Result<(), Refusal>)
      modifies this`pairs
      ensures (Contents(), r) == Pairing.Start(old(Contents()), q)
    {
      if !q.surfaceOk || !Pairing.DeadlineOk(q) || !q.keyOk {
        return Err(Rejected);
      }
      if q.operation in durable.receipts || q.operation in durable.statuses {
        return Err(TerminalConflict);
      }
      pairs := Pairing.Unexpired(pairs, q.now);
      if Pairing.HasStart(pairs, q) {
        return Ok(());
      }
      if HasPair(pairs, q.operation) {
        return Err(Conflict);
      }
      if |pairs| >= Pairing.MAX_PAIRS {
        return Err(Unavailable);
      }
      pairs := pairs[q.id := Pairing.NewPair(q)];
      return Ok(());
    }

    /** `cross_surface_prepare_source`. */
    method PairPrepareSource(q: Pairing.SourcePrepareRequest) returns (r: Result<Prepared, Refusal>)
      modifies this`pairs
      ensures (Contents(), r) == Pairing.PrepareSource(old(Contents()), q)
    {
      if !q.sourceOk || q.wallet !in wallets {
        return Err(Rejected);
      }
      if Pairing.BusyWallet(pairs, q.wallet, q.id) {
        return Err(Conflict);
      }
      if q.id !in pairs {
        return Err(Replay);
      }
      var pair := pairs[q.id];
      if q.now >= pair.expires || pair.operation != q.operation || pair.terms != q.terms {
        return Err(Conflict);
      }
      if pair.prepared.Some? {
        if pair.prepared.value.surface == q.surface && pair.prepared.value.wallet == q.wallet {
          return Ok(pair.prepared.value);
        }
        return Err(Conflict);
      }
      var sources := Pairing.OfferedSources(Contents(), q);
      if !q.destinationOk || sources == {} {
        return Err(Rejected);
      }
      var prepared := Prepared(q.surface, q.wallet, AuthorityGeneration(Contents(), Some(q.wallet)), sources, q.hasExisting);
      pairs := pairs[q.id := pair.(prepared := Some(prepared), sourceRecipient := true, destinationRecipient := true)];
      return Ok(prepared);
    }

    /** `cross_surface_complete_source`. */
    method PairCompleteSource(q: Pairing.SourceRequest) returns (r: Result<(), Refusal>)
      modifies this`pairs
      ensures (Contents(), r) == Pairing.CompleteSource(old(Contents()), q)
    {
      pairs := Pairing.Retained(pairs, q.now);
      if |Pairing.UnlockedPairs(pairs)| >= Pairing.MAX_UNLOCKED && (q.id !in pairs || !pairs[q.id].handoff) {
        return Err(Unavailable);
      }
      if q.id !in pairs {
        return Err(Replay);
      }
      var pair := pairs[q.id];
      if pair.operation != q.operation {
        return Err(Conflict);
      }
      if pair.handoff {
        return if pair.sourceDigest == Some(q.digest) then Ok(()) else Err(Conflict);
      }
      r := TrySource(q);
    }

    /** One counted attempt: the pairing is edited as each check passes. */
    method TrySource(q: Pairing.SourceRequest) returns (r: Result<(), Refusal>)
      requires q.id in pairs
      modifies this`pairs
      ensures var (pair, answer) := Pairing.AttemptSource(old(Contents()), old(pairs)[q.id], q);
              pairs == old(pairs)[q.id := pair] && r == answer
    {
      pairs := pairs[q.id := pairs[q.id].(attempts := pairs[q.id].attempts + 1)];
      var pair := pairs[q.id];
      if pair.prepared.None? {
        return Err(Replay);
      }
      var prepared := pair.prepared.value;
      if !q.surfaceOk || q.credential !in prepared.sources {
        return Err(Rejected);
      }
      if AuthorityGeneration(Contents(), Some(prepared.wallet)) != prepared.generation {
        return Err(Replay);
      }
      if !q.assertionOk {
        return Err(Rejected);
      }
      if !pair.sourceRecipient {
        return Err(Replay);
      }
      pairs := pairs[q.id := pair.(sourceRecipient := false)];
      if !q.openOk || prepared.wallet !in wallets || !CredentialUnlocks(wallets[prepared.wallet], q.credential, q.key) {
        return Err(Rejected);
      }
      pairs := pairs[q.id := pairs[q.id].(
        source := Some(q.credential), unlocked := Some(wallets[prepared.wallet].secret),
        capability := Some(q.capability), handoff := true, sourceDigest := Some(q.digest))];
      return Ok(());
    }

    /** `cross_surface_complete_destination`. */
    method PairCompleteDestination(q: Pairing.DestinationRequest) returns (r: Result<Receipt, Refusal>)
      modifies this
      ensures (Contents(), r) == Pairing.CompleteDestination(old(Contents()), q)
    {
      ghost var start := Contents();
      pairs := Pairing.Retained(pairs, q.now);
      if q.id !in pairs {
        return Err(Replay);
      }
      if pairs[q.id].operation != q.operation {
        Settle(q);
        return Err(Conflict);
      }
      if CustodyReceipt(durable, q.operation).Some? {
        return Ok(CustodyReceipt(durable, q.operation).value);
      }
      var before := Held();
      SameAttempt(start, Contents(), pairs[q.id], q);
      ghost var kept := pairs;
      var edited := TryDestination(q);
      if !edited {
        RestoreSnapshot(before);
        Settle(q);
        return Err(Rejected);
      }
      SameCommit(start, kept, q, pairs[q.id], Held(), WithHoldings(Contents(), before));
      r := CommitPairing(q, before);
    }

    /** After a failed leg, drop the pairing if it can never complete. */
    method Settle(q: Pairing.DestinationRequest)
      modifies this`pairs
      ensures Contents() == Pairing.Bury(old(Contents()), q)
    {
      if q.id in pairs && Pairing.Dead(Contents(), pairs[q.id], q) {
        pairs := pairs - {q.id};
      }
    }

    /** One counted attempt, edited in place: a wrap may be added before its binding is refused. */
    method TryDestination(q: Pairing.DestinationRequest) returns (ok: bool)
      requires q.id in pairs
      modifies this`pairs, this`wallets, this`credentials
      ensures var (pair, edited) := Pairing.AttemptDestination(old(Contents()), old(pairs)[q.id], q);
              pairs == old(pairs)[q.id := pair] && ok == edited.Some? && (ok ==> Held() == edited.value)
    {
      pairs := pairs[q.id := pairs[q.id].(attempts := pairs[q.id].attempts + 1)];
      var pair := pairs[q.id];
      if pair.prepared.None? || !q.sourceOk || !q.destinationOk || pair.source.None? {
        return false;
      }
      var prepared := pair.prepared.value;
      if !Bound(Contents(), pair.source.value, prepared.wallet) || !q.sourceSurfaceOk || pair.capability != Some(q.capability)
         || AuthorityGeneration(Contents(), Some(prepared.wallet)) != prepared.generation
         || !q.attestationOk || !pair.destinationRecipient {
        return false;
      }
      pairs := pairs[q.id := pair.(destinationRecipient := false)];
      if !q.openOk || pair.unlocked.None? {
        return false;
      }
      pairs := pairs[q.id := pairs[q.id].(unlocked := None)];
      if prepared.wallet !in wallets {
        return false;
      }
      var w := AddFactor(wallets[prepared.wallet], pair.unlocked.value, q.newId, q.newKey);
      if w.None? {
        return false;
      }
      wallets := wallets[prepared.wallet := w.value];
      if !q.bindingOk {
        return false;
      }
      ok := BindCredential(q.newId, prepared.wallet);
    }

    /** Commit the edit, or put the snapshot back. */
    method CommitPairing(q: Pairing.DestinationRequest, before: Holdings) returns (r: Result<Receipt, Refusal>)
      requires q.id in pairs && pairs[q.id].prepared.Some?
      modifies this
      ensures (Contents(), r)
              == Pairing.CommitDestination(WithHoldings(old(Contents()), before), old(pairs), q, old(pairs)[q.id], Some(old(Held())))
    {
      var pair := pairs[q.id];
      assert pairs == pairs[q.id := pair];
      var books := CommitCustody(durable, Held(), q.operation, Pairing.PairReceipt(q), Some(pair.prepared.value.wallet), q.commitOk);
      if books.None? {
        RestoreSnapshot(before);
        Settle(q);
        return Err(Unavailable);
      }
      durable := books.value;
      pairs := pairs[q.id := pair.(capability := None, handoff := false)];
      return Ok(Pairing.PairReceipt(q));
    }
  }

  /** The attempt looks at wallets and bindings, not at the pairing table. */
  lemma SameAttempt(a: Service, b: Service, pair: Pair, q: Pairing.DestinationRequest)
    requires b == a.(pairs := b.pairs)
    ensures Pairing.AttemptDestination(a, pair, q) == Pairing.AttemptDestination(b, pair, q)
  {
  }

  /** The commit replaces the pairing's own entry, whatever it held before. */
  lemma SameCommit(s: Service, kept: map<string, Pair>, q: Pairing.DestinationRequest, pair: Pair, h: Holdings, after: Service)
    requires after == s.(pairs := kept[q.id := pair])
    ensures Pairing.CommitDestination(after, kept[q.id := pair], q, pair, Some(h)) == Pairing.CommitDestination(s, kept, q, pair, Some(h))
  {
    assert kept[q.id := pair][q.id := pair] == kept[q.id := pair];
    var done := pair.(capability := None, handoff := false);
    assert kept[q.id := pair][q.id := done] == kept[q.id := done];
  }
}
