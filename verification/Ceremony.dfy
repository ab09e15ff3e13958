/**
 Single-use ceremonies: prepare arms one, completion consumes it, and whatever happens it ends in
 a receipt or a durable terminal status, as far as storage allows.
 */
module Ceremony {
  import opened Wrappers
  import opened CeremonyState
  import Custody
  import Factors = CustodyTheorems

  datatype PrepareRequest = PrepareRequest(
    operation: string, kind: Kind, request: string, wallet: Option<string>, target: Option<string>,
    ceremony: string, expires: nat, admissible: bool)

  predicate CreatesWallet(kind: Kind) { kind == WalletRegistration || kind == WalletImport }

  predicate LiveSession(s: Service, wallet: string) {
    exists op :: op in s.pending && s.pending[op].wallet == Some(wallet)
  }

  /** `prepare_approval`, `prepare_custody` and `prepare_policy_update`. */
  function Prepare(s: Service, q: PrepareRequest): (Service, Result<Pending, Refusal>) {
    if !q.admissible then (s, Err(Rejected))
    else if q.operation in s.pending then
      var existing := s.pending[q.operation];
      if existing.request != q.request then (s, Err(Conflict))
      else if existing.kind != q.kind then (s, Err(KindMismatch))
      else (s, Ok(existing))
    else if !Unopened(s.durable, q.operation) then (s, Err(TerminalConflict))
    else if q.wallet.Some? && q.kind != WalletRecovery && LiveSession(s, q.wallet.value) then (s, Err(Unavailable))
    else if CreatesWallet(q.kind) && (q.wallet.None? || q.wallet.value in s.wallets) then (s, Err(Conflict))
    else
      var armed := Pending(q.kind, q.ceremony, q.request, q.wallet, q.target, AuthorityGeneration(s, q.wallet), q.expires);
      (s.(pending := s.pending[q.operation := armed]), Ok(armed))
  }

  /**
   A completion request and what its environment answers: whether the proofs verify, the keys they
   yield, and whether each storage call succeeds.
   */
  datatype Completion = Completion(
    operation: string, kind: Kind, ceremony: string, now: nat, digest: string,
    proofOk: bool, effectOk: bool, commitOk: bool, cleanupOk: bool, statusOk: bool, deliverable: bool,
    authority: string, authorityKey: string, newId: string, newKey: string,
    recoveryId: string, recoveryKey: string, nextRecoveryId: string, nextRecoveryKey: string,
    secret: Custody.Secret, bip39: bool, withRecovery: bool, localActivation: bool)

  /** The backup of a new wallet, as custody registers it. */
  function NewBackup(wallet: string, c: Completion): Result<Custody.Backup, Custody.Error> {
    if c.bip39 then Custody.RegisterBip39(wallet, c.secret, c.newId, c.newKey, n => SOME_NONCE)
    else Custody.RegisterImported(wallet, c.secret, c.newId, c.newKey, n => SOME_NONCE)
  }

  function NewWallet(wallet: string, c: Completion): Option<Wallet> {
    if NewBackup(wallet, c).Err? then None
    else
      var w := Wallet(c.secret, Factors.FirstTable(c.newId, c.newKey));
      if c.withRecovery then SetRecoveryFactor(w, c.recoveryId, c.recoveryKey) else Some(w)
  }

  /** The authority credential is bound to the wallet and opens it. */
  predicate Authorised(h: Holdings, wallet: string, c: Completion) {
    && c.authority in h.credentials && h.credentials[c.authority] == wallet
    && wallet in h.wallets && CredentialUnlocks(h.wallets[wallet], c.authority, c.authorityKey)
  }

  function ApplyRegistration(h: Holdings, wallet: string, c: Completion): Option<Holdings> {
    match NewWallet(wallet, c)
    case None => None
    case Some(w) =>
      if wallet in h.wallets then None else Bind(h.(wallets := h.wallets[wallet := w]), c.newId, wallet)
  }

  function ApplyCredentialChange(h: Holdings, wallet: string, replace: bool, c: Completion): Option<Holdings> {
    if !Authorised(h, wallet, c) then None
    else match Enrol(h, wallet, h.wallets[wallet].secret, c.newId, c.newKey)
      case None => None
      case Some(added) =>
        if !replace then Some(added)
        else match RevokeFactor(added.wallets[wallet], c.authority)
          case None => None
          case Some(w) =>
            Some(Holdings(added.wallets[wallet := w], added.credentials - {c.authority}))
  }

  /** The asserting credential need only be bound; the target is unbound whoever holds it. */
  function ApplyRemoval(h: Holdings, wallet: string, target: Option<string>, c: Completion): Option<Holdings> {
    if target.None? || wallet !in h.wallets || c.authority !in h.credentials || h.credentials[c.authority] != wallet then None
    else match RevokeFactor(h.wallets[wallet], target.value)
      case None => None
      case Some(w) => Some(Holdings(h.wallets[wallet := w], h.credentials - {target.value}))
  }

  function ApplyRecovery(h: Holdings, wallet: string, c: Completion): Option<Holdings> {
    if wallet !in h.wallets || h.wallets[wallet].table.recovery != Some((c.recoveryId, c.recoveryKey)) then None
    else match ReplaceFactors(h.wallets[wallet], c.newId, c.newKey, c.nextRecoveryId, c.nextRecoveryKey)
      case None => None
      case Some(w) => Bind(Holdings(h.wallets[wallet := w], Unbind(h.credentials, wallet)), c.newId, wallet)
  }

  function ApplyDeletion(h: Holdings, wallet: string): Holdings {
    Holdings(h.wallets - {wallet}, Unbind(h.credentials, wallet))
  }

  /** `verify_custody_proof_and_apply`, as its effect on wallets and bindings. */
  function ApplyCustody(h: Holdings, p: Pending, c: Completion): Option<Holdings> {
    if p.wallet.None? || !c.proofOk then None
    else
      var wallet := p.wallet.value;
      match p.kind
      case WalletRegistration => ApplyRegistration(h, wallet, c)
      case WalletImport => ApplyRegistration(h, wallet, c)
      case CredentialAdd => ApplyCredentialChange(h, wallet, false, c)
      case CredentialReplace => ApplyCredentialChange(h, wallet, true, c)
      case CredentialRemove => ApplyRemoval(h, wallet, p.target, c)
      case WalletRecovery => ApplyRecovery(h, wallet, c)
      case SealedApproval => None
      case WalletDelete => if Authorised(h, wallet, c) && c.effectOk then Some(ApplyDeletion(h, wallet)) else None
      case _ => if Authorised(h, wallet, c) && c.effectOk then Some(h) else None
  }

  predicate StillValid(s: Service, p: Pending, c: Completion) {
    c.kind == p.kind && c.ceremony == p.ceremony && c.now < p.expires && p.generation == AuthorityGeneration(s, p.wallet)
  }

  function ReceiptOf(p: Pending, c: Completion): Receipt { Receipt(p.kind, p.ceremony, c.digest) }

  /** `apply_custody_completion`: snapshot, apply, commit, or put the snapshot back. */
  function CompleteCustodyOf(s: Service, p: Pending, c: Completion): (Service, Result<Receipt, Refusal>) {
    if !StillValid(s, p, c) || p.kind == SealedApproval then (s, Err(KindMismatch))
    else match ApplyCustody(HoldingsOf(s), p, c)
      case None => (s, Err(Rejected))
      case Some(h) =>
        match CommitCustody(s.durable, h, c.operation, ReceiptOf(p, c), p.wallet, c.commitOk)
        case None => (s, Err(Unavailable))
        case Some(d) =>
          var committed := WithHoldings(s.(durable := d), h);
          if c.cleanupOk then (committed.(completed := s.completed[c.operation := ReceiptOf(p, c)]), Ok(ReceiptOf(p, c)))
          else (committed, Err(Unavailable))
  }

  /** `apply_approval_completion`. */
  function CompleteApprovalOf(s: Service, p: Pending, c: Completion): (Service, Result<Receipt, Refusal>) {
    if !StillValid(s, p, c) || p.kind != SealedApproval || p.wallet.None? then (s, Err(Replay))
    else if !c.proofOk || !Bound(s, c.authority, p.wallet.value) then (s, Err(Rejected))
    else if c.localActivation && !Authorised(HoldingsOf(s), p.wallet.value, c) then (s, Err(Rejected))
    else match CommitApproval(s.durable, c.operation, ReceiptOf(p, c), p.wallet.value, p.generation, c.commitOk)
      case None => (s, Err(Unavailable))
      case Some(d) => (s.(durable := d, completed := s.completed[c.operation := ReceiptOf(p, c)]), Ok(ReceiptOf(p, c)))
  }

  /** `terminalize_consumed_ceremony`: best effort, and never over a receipt. */
  function Terminalize(s: Service, p: Pending, c: Completion): Service {
    if c.operation in s.durable.receipts then s
    else match PersistStatus(s.durable, c.operation, if p.expires <= c.now then Expired else Failed, c.statusOk)
      case None => s
      case Some(d) => s.(durable := d)
  }

  /** The receipt a retry finds, before any pending ceremony is consumed. */
  function Retry(s: Service, c: Completion): Option<Result<Receipt, Refusal>> {
    if c.kind == SealedApproval then
      if c.operation in s.completed && IsApproval(s.completed[c.operation]) then Some(Ok(s.completed[c.operation]))
      else match ActivationReceipt(s.durable, c.operation)
        case None => None
        case Some(r) => Some(if r.ceremony == c.ceremony then Ok(r) else Err(Conflict))
    else if c.operation in s.completed && !IsApproval(s.completed[c.operation]) then
      var r := s.completed[c.operation];
      Some(if r.kind == WalletRecovery && !c.deliverable then Err(NotFound) else Ok(r))
    else match CustodyReceipt(s.durable, c.operation)
      case None => None
      case Some(r) =>
        Some(if r.kind == WalletRecovery && !c.deliverable then Err(NotFound)
             else if r.kind != c.kind then Err(Conflict) else Ok(r))
  }

  /** `complete_approval` and `complete_custody`: the armed ceremony is consumed before it is checked. */
  function Complete(s: Service, c: Completion): (Service, Result<Receipt, Refusal>) {
    match Retry(s, c)
    case Some(answer) => (s, answer)
    case None =>
      if c.operation !in s.pending then (s, Err(Replay))
      else
        var p := s.pending[c.operation];
        var consumed := s.(pending := s.pending - {c.operation});
        var (s', r) := if c.kind == SealedApproval then CompleteApprovalOf(consumed, p, c) else CompleteCustodyOf(consumed, p, c);
        if r.Ok? then (s', r) else (Terminalize(s', p, c), r)
  }

  function CancelPair(s: Service, op: string, statusOk: bool): (Service, Result<(), Refusal>) {
    if CustodyReceipt(s.durable, op).Some? then (s, Err(CommittedConflict))
    else match PersistStatus(s.durable, op, Cancelled, statusOk)
      case None => (s, Err(Unavailable))
      case Some(d) => (s.(durable := d, pairs := WithoutOperation(s.pairs, op)), Ok(()))
  }

  function CancelArmed(s: Service, op: string, statusOk: bool): (Service, Result<(), Refusal>) {
    var consumed := s.(pending := s.pending - {op});
    match PersistStatus(s.durable, op, Cancelled, statusOk)
    case None => (consumed, Err(Unavailable))
    case Some(d) => (consumed.(durable := d), Ok(()))
  }

  /** `cancel_consumed_ceremony`: it changes nothing. */
  function CancelConsumed(d: Durable, op: string): Result<(), Refusal> {
    if op in d.receipts then Err(CommittedConflict)
    else if op !in d.statuses then Err(NotFound)
    else if d.statuses[op] == Succeeded then Err(CommittedConflict)
    else Ok(())
  }

  /** `cancel`: a live pairing under the operation first, then an armed ceremony. */
  function Cancel(s: Service, op: string, statusOk: bool): (Service, Result<(), Refusal>) {
    if op in s.completed then (s, Err(CommittedConflict))
    else if HasPair(s.pairs, op) then CancelPair(s, op, statusOk)
    else if op in s.pending then CancelArmed(s, op, statusOk)
    else (s, CancelConsumed(s.durable, op))
  }

  function WithoutOperation(pairs: map<string, Pair>, op: string): map<string, Pair> {
    map id | id in pairs && pairs[id].operation != op :: pairs[id]
  }

  /** A new process: only what is durable survives. */
  function Restart(s: Service): Service {
    Service(s.durable, map[], map[], map[], s.durable.wallets, s.durable.credentials)
  }

  /** `load_ceremony_custody` refuses to start when a stored wallet disagrees with the fence. */
  predicate CanStart(d: Durable) {
    forall w :: w in d.wallets ==> d.wallets[w].table.generation == Fence(d, w)
  }
}
