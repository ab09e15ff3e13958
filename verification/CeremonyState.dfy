/**
 State of the ceremony service, and the wallet and commit operations every ceremony shares.

 `Durable` is what the engine's database holds; everything else lives in process memory and is
 rebuilt from it on restart. A wallet is the custody table its encrypted backup represents.
 */
module CeremonyState {
  import opened Wrappers
  import Custody
  import Factors = CustodyTheorems

  datatype Kind =
    | SealedApproval | WalletRegistration | WalletImport | WalletExport | WalletDelete | WalletRecovery
    | CredentialAdd | CredentialReplace | CredentialRemove | BackendEnrollment | KeyDerive | PolicyUpdate
    | AccountAllocate | AccountRetire

  /** Durable public states; a committed ceremony is `Succeeded`, the others are failures. */
  datatype PublicState = Succeeded | Failed | Expired | Cancelled | AlreadyRegistered

  datatype Receipt = Receipt(kind: Kind, ceremony: string, digest: string)

  datatype Refusal = Replay | Conflict | KindMismatch | Rejected | Unavailable | NotFound | CommittedConflict | TerminalConflict

  datatype Wallet = Wallet(secret: Custody.Secret, table: Factors.Table)

  datatype Durable = Durable(
    receipts: map<string, Receipt>,
    statuses: map<string, PublicState>,
    fence: map<string, nat>,
    wallets: map<string, Wallet>,
    credentials: map<string, string>)

  /** An armed ceremony. `generation` is the authority generation it was prepared at. */
  datatype Pending = Pending(
    kind: Kind, ceremony: string, request: string, wallet: Option<string>, target: Option<string>,
    generation: nat, expires: nat)

  /** The source leg's terms, fixed when it is prepared. */
  datatype Prepared = Prepared(
    surface: string, wallet: string, generation: nat, sources: set<string>, hasExisting: bool)

  datatype Pair = Pair(
    operation: string, destination: string, terms: string, publicKey: string, expires: nat,
    prepared: Option<Prepared>, sourceRecipient: bool, destinationRecipient: bool,
    unlocked: Option<Custody.Secret>, source: Option<string>, capability: Option<string>,
    handoff: bool, sourceDigest: Option<string>, attempts: nat)

  datatype Service = Service(
    durable: Durable,
    pending: map<string, Pending>,
    completed: map<string, Receipt>,
    pairs: map<string, Pair>,
    wallets: map<string, Wallet>,
    credentials: map<string, string>)

  const EMPTY: Service := Service(Durable(map[], map[], map[], map[], map[]), map[], map[], map[], map[], map[])

  // ---------------------------------------------------------------- queries

  /** The generation column, 0 for a wallet it has never seen. Rows are never deleted. */
  function Fence(d: Durable, wallet: string): nat {
    if wallet in d.fence then d.fence[wallet] else 0
  }

  function AuthorityGeneration(s: Service, wallet: Option<string>): nat {
    if wallet.Some? && wallet.value in s.wallets then s.wallets[wallet.value].table.generation else 0
  }

  predicate IsApproval(r: Receipt) { r.kind == SealedApproval }

  function ActivationReceipt(d: Durable, op: string): Option<Receipt> {
    if op in d.receipts && IsApproval(d.receipts[op]) then Some(d.receipts[op]) else None
  }

  function CustodyReceipt(d: Durable, op: string): Option<Receipt> {
    if op in d.receipts && !IsApproval(d.receipts[op]) then Some(d.receipts[op]) else None
  }

  predicate Bound(s: Service, id: string, wallet: string) {
    id in s.credentials && s.credentials[id] == wallet
  }

  predicate HasPair(pairs: map<string, Pair>, op: string) {
    exists id :: id in pairs && pairs[id].operation == op
  }

  datatype Status = CompletedWith(receipt: Receipt) | IsPending | Terminal(state: PublicState) | Missing

  /** `status`: memory first, then receipts, then armed ceremonies, then durable outcomes. */
  function StatusOf(s: Service, op: string): Status {
    if op in s.completed then CompletedWith(s.completed[op])
    else if op in s.durable.receipts then CompletedWith(s.durable.receipts[op])
    else if op in s.pending then IsPending
    else if op in s.durable.statuses then Terminal(s.durable.statuses[op])
    else Missing
  }

  /** `require_unopened_operation_id`. */
  predicate Unopened(d: Durable, op: string) {
    op !in d.receipts && op !in d.statuses
  }

  // ---------------------------------------------------------------- wallets and bindings

  /** Wallets and credential bindings of the running process: what a custody ceremony edits. */
  datatype Holdings = Holdings(wallets: map<string, Wallet>, credentials: map<string, string>)

  function HoldingsOf(s: Service): Holdings { Holdings(s.wallets, s.credentials) }

  function WithHoldings(s: Service, h: Holdings): Service { s.(wallets := h.wallets, credentials := h.credentials) }

  const SOME_NONCE: Custody.Nonce := "------------------------"

  function Session(secret: Custody.Secret): Custody.Unlocked {
    Custody.Unlocked("", secret.root, secret.seed, secret.wkek, Custody.LegacySecp, None)
  }

  function Perform(w: Wallet, c: Factors.Command): Option<Wallet> {
    if Factors.Accepts(w.secret, w.table, c) then Some(w.(table := Factors.Next(w.table, c))) else None
  }

  function AddFactor(w: Wallet, session: Custody.Secret, id: string, key: string): Option<Wallet> {
    Perform(w, Factors.Add(Session(session), id, key, SOME_NONCE, true))
  }

  function RevokeFactor(w: Wallet, id: string): Option<Wallet> {
    Perform(w, Factors.Revoke(id, true))
  }

  function SetRecoveryFactor(w: Wallet, id: string, key: string): Option<Wallet> {
    Perform(w, Factors.Recovery(Session(w.secret), id, key, SOME_NONCE, true))
  }

  function ReplaceFactors(w: Wallet, id: string, key: string, recoveryId: string, recoveryKey: string): Option<Wallet> {
    Perform(w, Factors.Replace(Session(w.secret), id, key, recoveryId, recoveryKey, n => SOME_NONCE, true))
  }

  predicate CredentialUnlocks(w: Wallet, id: string, key: string) {
    id in w.table.active && w.table.active[id] == key
  }

  /** `register_existing_credential`, surfaces apart: a credential id is bound once. */
  function Bind(h: Holdings, id: string, wallet: string): Option<Holdings> {
    if id in h.credentials then None else Some(h.(credentials := h.credentials[id := wallet]))
  }

  function Unbind(credentials: map<string, string>, wallet: string): map<string, string> {
    map id | id in credentials && credentials[id] != wallet :: credentials[id]
  }

  /** Add a factor to a wallet and bind its credential. */
  function Enrol(h: Holdings, wallet: string, session: Custody.Secret, id: string, key: string): Option<Holdings> {
    if wallet !in h.wallets then None
    else match AddFactor(h.wallets[wallet], session, id, key)
      case None => None
      case Some(w) => Bind(h.(wallets := h.wallets[wallet := w]), id, wallet)
  }

  // ---------------------------------------------------------------- durable commits

  /** The generation fence of a custody commit, wallet by wallet. */
  predicate FenceAdmits(d: Durable, wallets: map<string, Wallet>, kind: Kind, subject: Option<string>) {
    forall w :: w in wallets ==>
      var previous, next := Fence(d, w), wallets[w].table.generation;
      && next >= previous
      && (kind == WalletRecovery && subject == Some(w) ==> previous < Custody.LAST_GENERATION && next == previous + 1)
      && (kind != WalletRecovery ==> next == previous)
  }

  function AdvanceFence(fence: map<string, nat>, wallets: map<string, Wallet>): map<string, nat> {
    map w | w in fence.Keys + wallets.Keys :: if w in wallets then wallets[w].table.generation else fence[w]
  }

  /** `commit_custody_snapshot_with_effect`: one transaction, refused as a whole. */
  function CommitCustody(d: Durable, h: Holdings, op: string, receipt: Receipt, subject: Option<string>, commitOk: bool)
    : Option<Durable>
  {
    if commitOk && FenceAdmits(d, h.wallets, receipt.kind, subject) && op !in d.receipts then
      Some(Durable(d.receipts[op := receipt], d.statuses[op := Succeeded],
                   AdvanceFence(d.fence, h.wallets), h.wallets, h.credentials))
    else None
  }

  /** `persist_approval`: the status row is inserted, never overwritten. */
  function CommitApproval(d: Durable, op: string, receipt: Receipt, wallet: string, generation: nat, commitOk: bool): Option<Durable> {
    if commitOk && Fence(d, wallet) == generation && op !in d.receipts && op !in d.statuses then
      Some(d.(receipts := d.receipts[op := receipt], statuses := d.statuses[op := Succeeded]))
    else None
  }

  /** `persist_ceremony_public_status`: an upsert. */
  function PersistStatus(d: Durable, op: string, state: PublicState, statusOk: bool): Option<Durable> {
    if statusOk then Some(d.(statuses := d.statuses[op := state])) else None
  }
}
