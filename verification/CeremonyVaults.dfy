/**
 The ceremony service over real custody. Every wallet is an encrypted backup; a ceremony learns
 what it needs of it by opening it, edits it by custody's own operations, and commits what they
 leave. No table of factors appears: without opening it the service knows of a wallet that it
 exists and which authority generation it carries.
 */
module CeremonyVaults {
  import opened Wrappers
  import opened CeremonyState
  import opened Ceremony
  import opened CeremonyRuns
  import Pairing
  import Custody
  import Factors = CustodyTheorems

  /** Holdings whose wallets are custody backups. */
  datatype Vaults = Vaults(backups: map<string, Custody.Backup>, credentials: map<string, string>)

  /** A custody operation on a wallet without a file of its own. */
  function Call(b: Custody.Backup, c: Factors.Command): Option<Custody.Backup>
    requires Factors.InRange(c)
  {
    var (st, r) := Factors.Execute(Custody.Store(b, None), c);
    if r.Ok? then Some(st.memory) else None
  }

  // ---------------------------------------------------------------- the ceremonies' edits on backups

  function BindVault(v: Vaults, id: string, wallet: string): Option<Vaults> {
    if id in v.credentials then None else Some(v.(credentials := v.credentials[id := wallet]))
  }

  /** The session of a credential bound to the wallet that opens its backup. */
  function Authorise(v: Vaults, wallet: string, c: Completion): Option<Custody.Unlocked> {
    if c.authority in v.credentials && v.credentials[c.authority] == wallet && wallet in v.backups then
      match Custody.UnlockWithCredential(v.backups[wallet], c.authority, c.authorityKey)
      case Err(_) => None
      case Ok(session) => Some(session)
    else None
  }

  function EnrolVault(v: Vaults, wallet: string, session: Custody.Unlocked, id: string, key: string): Option<Vaults> {
    if wallet !in v.backups then None
    else match Call(v.backups[wallet], Factors.Add(session, id, key, SOME_NONCE, true))
      case None => None
      case Some(b) => BindVault(v.(backups := v.backups[wallet := b]), id, wallet)
  }

  /** A new wallet's recovery factor, when the browser asked for one. */
  function FirstRecovery(b: Custody.Backup, session: Custody.Unlocked, c: Completion): Option<Custody.Backup> {
    if c.withRecovery then Call(b, Factors.Recovery(session, c.recoveryId, c.recoveryKey, SOME_NONCE, true)) else Some(b)
  }

  /** The backup of a new wallet, unlocked once and given its recovery factor. */
  function RegisteredBackup(wallet: string, c: Completion): Option<Custody.Backup> {
    match NewBackup(wallet, c)
    case Err(_) => None
    case Ok(b) =>
      match Custody.UnlockWithCredential(b, c.newId, c.newKey)
      case Err(_) => None
      case Ok(session) => FirstRecovery(b, session, c)
  }

  function RegisterVault(v: Vaults, wallet: string, c: Completion): Option<Vaults> {
    match RegisteredBackup(wallet, c)
    case None => None
    case Some(b) => if wallet in v.backups then None else BindVault(v.(backups := v.backups[wallet := b]), c.newId, wallet)
  }

  /** Drop a credential's wrap and its binding. */
  function RevokeVault(v: Vaults, wallet: string, id: string): Option<Vaults>
    requires wallet in v.backups
  {
    match Call(v.backups[wallet], Factors.Revoke(id, true))
    case None => None
    case Some(b) => Some(Vaults(v.backups[wallet := b], v.credentials - {id}))
  }

  function ChangeWith(v: Vaults, wallet: string, session: Custody.Unlocked, replace: bool, c: Completion): Option<Vaults> {
    match EnrolVault(v, wallet, session, c.newId, c.newKey)
    case None => None
    case Some(added) => if replace then RevokeVault(added, wallet, c.authority) else Some(added)
  }

  function ChangeVault(v: Vaults, wallet: string, replace: bool, c: Completion): Option<Vaults> {
    match Authorise(v, wallet, c)
    case None => None
    case Some(session) => ChangeWith(v, wallet, session, replace, c)
  }

  function RemoveVault(v: Vaults, wallet: string, target: Option<string>, c: Completion): Option<Vaults> {
    if target.None? || wallet !in v.backups || c.authority !in v.credentials || v.credentials[c.authority] != wallet then None
    else RevokeVault(v, wallet, target.value)
  }

  function ReplaceVault(v: Vaults, wallet: string, session: Custody.Unlocked, c: Completion): Option<Vaults>
    requires wallet in v.backups
  {
    match Call(v.backups[wallet],
               Factors.Replace(session, c.newId, c.newKey, c.nextRecoveryId, c.nextRecoveryKey, n => SOME_NONCE, true))
    case None => None
    case Some(b) => BindVault(Vaults(v.backups[wallet := b], Unbind(v.credentials, wallet)), c.newId, wallet)
  }

  function RecoverVault(v: Vaults, wallet: string, c: Completion): Option<Vaults> {
    if wallet !in v.backups then None
    else match Custody.UnlockWithRecovery(v.backups[wallet], c.recoveryId, c.recoveryKey)
      case Err(_) => None
      case Ok(session) => ReplaceVault(v, wallet, session, c)
  }

  function ApplyVault(v: Vaults, p: Pending, c: Completion): Option<Vaults> {
    if p.wallet.None? || !c.proofOk then None
    else
      var wallet := p.wallet.value;
      match p.kind
      case WalletRegistration => RegisterVault(v, wallet, c)
      case WalletImport => RegisterVault(v, wallet, c)
      case CredentialAdd => ChangeVault(v, wallet, false, c)
      case CredentialReplace => ChangeVault(v, wallet, true, c)
      case CredentialRemove => RemoveVault(v, wallet, p.target, c)
      case WalletRecovery => RecoverVault(v, wallet, c)
      case SealedApproval => None
      case WalletDelete =>
        if Authorise(v, wallet, c).Some? && c.effectOk then Some(Vaults(v.backups - {wallet}, Unbind(v.credentials, wallet))) else None
      case _ => if Authorise(v, wallet, c).Some? && c.effectOk then Some(v) else None
  }

  // ---------------------------------------------------------------- the service

  /** `shell` is the service without wallets and bindings; `vaults` are in memory and `saved` in storage. */
  datatype VaultService = VaultService(shell: Service, vaults: Vaults, saved: Vaults)

  const NO_VAULTS: Vaults := Vaults(map[], map[])

  const EMPTY_VAULTS: VaultService := VaultService(EMPTY, NO_VAULTS, NO_VAULTS)

  function BareDurable(d: Durable): Durable { d.(wallets := map[], credentials := map[]) }

  function Bare(s: Service): Service { s.(durable := BareDurable(s.durable), wallets := map[], credentials := map[]) }

  /** An unopened wallet: it has a generation, and no factors that anyone could use. */
  function Stub(b: Custody.Backup): Wallet {
    Wallet(Custody.Secret("", "", ""), Factors.Table(map[], {}, None, b.generation, 0, 0))
  }

  function Stubs(v: Vaults): map<string, Wallet> { map w | w in v.backups :: Stub(v.backups[w]) }

  /** The service as it shows itself without opening anything. */
  function Face(x: VaultService): Service {
    x.shell.(durable := x.shell.durable.(wallets := Stubs(x.saved), credentials := x.saved.credentials),
             wallets := Stubs(x.vaults), credentials := x.vaults.credentials)
  }

  /** One transaction: the receipt, the generation fence and the vaults, or nothing. */
  function CommitVaults(x: VaultService, v: Vaults, op: string, receipt: Receipt, subject: Option<string>, commitOk: bool): Option<VaultService> {
    match CommitCustody(x.shell.durable, Holdings(Stubs(v), map[]), op, receipt, subject, commitOk)
    case None => None
    case Some(d) => Some(VaultService(Bare(x.shell.(durable := d)), v, v))
  }

  // ---------------------------------------------------------------- completions

  function CompleteCustodyOn(x: VaultService, p: Pending, c: Completion): (VaultService, Result<Receipt, Refusal>) {
    if !StillValid(Face(x), p, c) || p.kind == SealedApproval then (x, Err(KindMismatch))
    else match ApplyVault(x.vaults, p, c)
      case None => (x, Err(Rejected))
      case Some(v) =>
        match CommitVaults(x, v, c.operation, ReceiptOf(p, c), p.wallet, c.commitOk)
        case None => (x, Err(Unavailable))
        case Some(y) =>
          if c.cleanupOk then (y.(shell := y.shell.(completed := y.shell.completed[c.operation := ReceiptOf(p, c)])), Ok(ReceiptOf(p, c)))
          else (y, Err(Unavailable))
  }

  function CompleteApprovalOn(x: VaultService, p: Pending, c: Completion): (VaultService, Result<Receipt, Refusal>) {
    if !StillValid(Face(x), p, c) || p.kind != SealedApproval || p.wallet.None? then (x, Err(Replay))
    else if !c.proofOk || !Bound(Face(x), c.authority, p.wallet.value) then (x, Err(Rejected))
    else if c.localActivation && Authorise(x.vaults, p.wallet.value, c).None? then (x, Err(Rejected))
    else match CommitApproval(x.shell.durable, c.operation, ReceiptOf(p, c), p.wallet.value, p.generation, c.commitOk)
      case None => (x, Err(Unavailable))
      case Some(d) =>
        (x.(shell := x.shell.(durable := d, completed := x.shell.completed[c.operation := ReceiptOf(p, c)])), Ok(ReceiptOf(p, c)))
  }

  function CompleteOn(x: VaultService, c: Completion): (VaultService, Result<Receipt, Refusal>) {
    match Retry(x.shell, c)
    case Some(answer) => (x, answer)
    case None =>
      if c.operation !in x.shell.pending then (x, Err(Replay))
      else
        var p := x.shell.pending[c.operation];
        var consumed := x.(shell := x.shell.(pending := x.shell.pending - {c.operation}));
        var (y, r) := if c.kind == SealedApproval then CompleteApprovalOn(consumed, p, c) else CompleteCustodyOn(consumed, p, c);
        if r.Ok? then (y, r) else (y.(shell := Terminalize(y.shell, p, c)), r)
  }

  // ---------------------------------------------------------------- pairing legs

  /** The secrets of an unlocked session, as a pairing keeps them. */
  function SecretOf(session: Custody.Unlocked): Custody.Secret { Custody.Secret(session.root, session.seed, session.wkek) }

  /** What a passkey opens. */
  function Open(v: Vaults, wallet: string, id: string, key: string): Option<Custody.Secret> {
    if wallet !in v.backups then None
    else match Custody.UnlockWithCredential(v.backups[wallet], id, key)
      case Err(_) => None
      case Ok(session) => Some(SecretOf(session))
  }

  /** The source leg's recipient key is spent before it is tried. */
  function SpendSource(x: VaultService, pair: Pair, prepared: Prepared, q: Pairing.SourceRequest): (Pair, Result<(), Refusal>) {
    var spent, secret := pair.(sourceRecipient := false), Open(x.vaults, prepared.wallet, q.credential, q.key);
    if !q.openOk || secret.None? then (spent, Err(Rejected))
    else (spent.(unlocked := secret, source := Some(q.credential), capability := Some(q.capability), handoff := true,
                 sourceDigest := Some(q.digest)), Ok(()))
  }

  function AttemptSourceOn(x: VaultService, pair: Pair, q: Pairing.SourceRequest): (Pair, Result<(), Refusal>) {
    var tried := pair.(attempts := pair.attempts + 1);
    if tried.prepared.None? then (tried, Err(Replay))
    else
      var prepared := tried.prepared.value;
      if !q.surfaceOk || q.credential !in prepared.sources then (tried, Err(Rejected))
      else if AuthorityGeneration(Face(x), Some(prepared.wallet)) != prepared.generation then (tried, Err(Replay))
      else if !q.assertionOk then (tried, Err(Rejected))
      else if !tried.sourceRecipient then (tried, Err(Replay))
      else SpendSource(x, tried, prepared, q)
  }

  function SourcePairsOn(x: VaultService, kept: map<string, Pair>, q: Pairing.SourceRequest): (map<string, Pair>, Result<(), Refusal>) {
    if |Pairing.UnlockedPairs(kept)| >= Pairing.MAX_UNLOCKED && (q.id !in kept || !kept[q.id].handoff) then (kept, Err(Unavailable))
    else if q.id !in kept then (kept, Err(Replay))
    else
      var pair := kept[q.id];
      if pair.operation != q.operation then (kept, Err(Conflict))
      else if pair.handoff then (kept, if pair.sourceDigest == Some(q.digest) then Ok(()) else Err(Conflict))
      else
        var (pair', r) := AttemptSourceOn(x, pair, q);
        (kept[q.id := pair'], r)
  }

  function CompleteSourceOn(x: VaultService, q: Pairing.SourceRequest): (VaultService, Result<(), Refusal>) {
    var (pairs, r) := SourcePairsOn(x, Pairing.Retained(x.shell.pairs, q.now), q);
    (x.(shell := x.shell.(pairs := pairs)), r)
  }

  /** What is checked before the destination's recipient key is spent. */
  predicate DestinationAdmitted(s: Service, pair: Pair, q: Pairing.DestinationRequest) {
    && pair.prepared.Some? && q.sourceOk && q.destinationOk && pair.source.Some?
    && Bound(s, pair.source.value, pair.prepared.value.wallet) && q.sourceSurfaceOk && pair.capability == Some(q.capability)
    && AuthorityGeneration(s, Some(pair.prepared.value.wallet)) == pair.prepared.value.generation
    && q.attestationOk && pair.destinationRecipient
  }

  function AttemptDestinationOn(x: VaultService, pair: Pair, q: Pairing.DestinationRequest): (Pair, Option<Vaults>) {
    var tried := pair.(attempts := pair.attempts + 1);
    if !DestinationAdmitted(Face(x), pair, q) then (tried, None)
    else
      var spent := tried.(destinationRecipient := false);
      if !q.openOk || spent.unlocked.None? then (spent, None)
      else
        (spent.(unlocked := None),
         if q.bindingOk then EnrolVault(x.vaults, spent.prepared.value.wallet, Session(spent.unlocked.value), q.newId, q.newKey) else None)
  }

  function BuryOn(x: VaultService, q: Pairing.DestinationRequest): VaultService { x.(shell := Bare(Pairing.Bury(Face(x), q))) }

  function CommitDestinationOn(x: VaultService, kept: map<string, Pair>, q: Pairing.DestinationRequest, pair: Pair, edited: Option<Vaults>)
    : (VaultService, Result<Receipt, Refusal>)
  {
    var tried := x.(shell := x.shell.(pairs := kept[q.id := pair]));
    if edited.None? || pair.prepared.None? then (BuryOn(tried, q), Err(Rejected))
    else match CommitVaults(x, edited.value, q.operation, Pairing.PairReceipt(q), Some(pair.prepared.value.wallet), q.commitOk)
      case None => (BuryOn(tried, q), Err(Unavailable))
      case Some(y) =>
        (y.(shell := y.shell.(pairs := kept[q.id := pair.(capability := None, handoff := false)])), Ok(Pairing.PairReceipt(q)))
  }

  function CompleteDestinationOn(x: VaultService, q: Pairing.DestinationRequest): (VaultService, Result<Receipt, Refusal>) {
    var kept := Pairing.Retained(x.shell.pairs, q.now);
    var y := x.(shell := x.shell.(pairs := kept));
    if q.id !in kept then (y, Err(Replay))
    else if kept[q.id].operation != q.operation then (BuryOn(y, q), Err(Conflict))
    else if CustodyReceipt(x.shell.durable, q.operation).Some? then (y, Ok(CustodyReceipt(x.shell.durable, q.operation).value))
    else
      var (pair, edited) := AttemptDestinationOn(x, kept[q.id], q);
      CommitDestinationOn(x, kept, q, pair, edited)
  }

  // ---------------------------------------------------------------- steps and runs

  /** The steps that open no wallet see the face only. */
  predicate OpensNothing(c: Command) { !c.CompleteCmd? && !c.PairSourceCmd? && !c.PairDestinationCmd? && !c.RestartCmd? }

  function VaultStep(x: VaultService, c: Command): VaultService {
    match c
    case CompleteCmd(q) => CompleteOn(x, q).0
    case PairSourceCmd(q) => CompleteSourceOn(x, q).0
    case PairDestinationCmd(q) => CompleteDestinationOn(x, q).0
    case RestartCmd => VaultService(Bare(Restart(x.shell)), x.saved, x.saved)
    case _ => x.(shell := Bare(Step(Face(x), c)))
  }

  function RunVaults(x: VaultService, commands: seq<Command>): VaultService
    decreases |commands|
  {
    if commands == [] then x else RunVaults(VaultStep(x, commands[0]), commands[1..])
  }
}
