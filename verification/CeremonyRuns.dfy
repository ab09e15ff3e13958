/**
 Steps and runs of the ceremony service, and what every step keeps: durable receipts, statuses
 that move one way, memory that agrees with storage, and the authority generation as a fence.
 */
module CeremonyRuns {
  import opened Wrappers
  import opened CeremonyState
  import opened Ceremony
  import Pairing
  import Custody

  datatype Command =
    | PrepareCmd(prepare: PrepareRequest)
    | CompleteCmd(completion: Completion)
    | CancelCmd(operation: string, statusOk: bool)
    | PairStartCmd(start: Pairing.StartRequest)
    | PairPrepareCmd(sourcePrepare: Pairing.SourcePrepareRequest)
    | PairSourceCmd(source: Pairing.SourceRequest)
    | PairDestinationCmd(destination: Pairing.DestinationRequest)
    | PairAlreadyCmd(already: Pairing.AlreadyRequest)
    | ExpireCmd(now: nat)
    | ClearCmd
    | RestartCmd

  /** Each public method is one atomic step. */
  function Step(s: Service, c: Command): Service {
    match c
    case PrepareCmd(q) => Prepare(s, q).0
    case CompleteCmd(q) => Complete(s, q).0
    case CancelCmd(op, ok) => Cancel(s, op, ok).0
    case PairStartCmd(q) => Pairing.Start(s, q).0
    case PairPrepareCmd(q) => Pairing.PrepareSource(s, q).0
    case PairSourceCmd(q) => Pairing.CompleteSource(s, q).0
    case PairDestinationCmd(q) => Pairing.CompleteDestination(s, q).0
    case PairAlreadyCmd(q) => Pairing.AlreadyRegisteredHere(s, q).0
    case ExpireCmd(now) => Pairing.Expire(s, now)
    case ClearCmd => Pairing.Clear(s)
    case RestartCmd => Restart(s)
  }

  function Run(s: Service, commands: seq<Command>): Service
    decreases |commands|
  {
    if commands == [] then s else Run(Step(s, commands[0]), commands[1..])
  }

  // ---------------------------------------------------------------- commits

  /** What a step makes durable: a receipt, its wallet, and the generation it was prepared at. */
  datatype Commit = Commit(operation: string, receipt: Receipt, wallet: string, generation: nat, holdings: Holdings)

  /** The armed ceremony that a completion consumes. */
  predicate Consumes(s: Service, q: Completion) { Retry(s, q).None? && q.operation in s.pending }

  function Consumed(s: Service, q: Completion): Service { s.(pending := s.pending - {q.operation}) }

  function CompletionCommit(s: Service, q: Completion): Option<Commit> {
    if !Consumes(s, q) || s.pending[q.operation].wallet.None? || !StillValid(s, s.pending[q.operation], q) then None
    else
      var p := s.pending[q.operation];
      if q.kind == SealedApproval then
        if CompleteApprovalOf(Consumed(s, q), p, q).1.Ok? then
          Some(Commit(q.operation, ReceiptOf(p, q), p.wallet.value, p.generation, HoldingsOf(s)))
        else None
      else match ApplyCustody(HoldingsOf(s), p, q)
        case None => None
        case Some(h) =>
          if CommitCustody(s.durable, h, q.operation, ReceiptOf(p, q), p.wallet, q.commitOk).Some? then
            Some(Commit(q.operation, ReceiptOf(p, q), p.wallet.value, p.generation, h))
          else None
  }

  function DestinationCommit(s: Service, q: Pairing.DestinationRequest): Option<Commit> {
    var kept := Pairing.Retained(s.pairs, q.now);
    if q.id !in kept || kept[q.id].operation != q.operation || CustodyReceipt(s.durable, q.operation).Some? then None
    else
      var (pair, edited) := Pairing.AttemptDestination(s, kept[q.id], q);
      if edited.None? || pair.prepared.None? then None
      else
        var prepared := pair.prepared.value;
        if CommitCustody(s.durable, edited.value, q.operation, Pairing.PairReceipt(q), Some(prepared.wallet), q.commitOk).Some? then
          Some(Commit(q.operation, Pairing.PairReceipt(q), prepared.wallet, prepared.generation, edited.value))
        else None
  }

  function CommitOf(s: Service, c: Command): Option<Commit> {
    match c
    case CompleteCmd(q) => CompletionCommit(s, q)
    case PairDestinationCmd(q) => DestinationCommit(s, q)
    case _ => None
  }

  // ---------------------------------------------------------------- invariant

  /** Every step commits its edits to storage or undoes them. */
  predicate MemoryIsDurable(s: Service) {
    s.wallets == s.durable.wallets && s.credentials == s.durable.credentials
  }

  predicate Fenced(s: Service) {
    forall w :: w in s.wallets ==> s.wallets[w].table.generation == Fence(s.durable, w)
  }

  predicate CompletedDurable(s: Service) {
    forall op :: op in s.completed ==> op in s.durable.receipts && s.durable.receipts[op] == s.completed[op]
  }

  predicate PendingFenced(s: Service) {
    forall op :: op in s.pending && s.pending[op].wallet.Some? ==>
      s.pending[op].generation <= Fence(s.durable, s.pending[op].wallet.value)
  }

  predicate PairsFenced(s: Service) {
    forall id :: id in s.pairs && s.pairs[id].prepared.Some? ==>
      s.pairs[id].prepared.value.generation <= Fence(s.durable, s.pairs[id].prepared.value.wallet)
  }

  predicate Invariant(s: Service) {
    MemoryIsDurable(s) && Fenced(s) && CompletedDurable(s) && PendingFenced(s) && PairsFenced(s)
  }

  // ---------------------------------------------------------------- frames

  /** What only a commit may change. */
  predicate SameBooks(s: Service, s': Service) {
    && s'.durable.receipts == s.durable.receipts && s'.durable.fence == s.durable.fence
    && s'.durable.wallets == s.durable.wallets && s'.durable.credentials == s.durable.credentials
    && s'.wallets == s.wallets && s'.credentials == s.credentials
  }

  lemma RefusedLeaves(s: Service, p: Pending, q: Completion)
    ensures p.kind == SealedApproval || p.wallet.None? || !StillValid(s, p, q) || ApplyCustody(HoldingsOf(s), p, q).None?
            || CommitCustody(s.durable, ApplyCustody(HoldingsOf(s), p, q).value, q.operation, ReceiptOf(p, q), p.wallet, q.commitOk).None?
            ==> CompleteCustodyOf(s, p, q).0 == s && CompleteCustodyOf(s, p, q).1.Err?
    ensures CompleteApprovalOf(s, p, q).1.Err? ==> CompleteApprovalOf(s, p, q).0 == s
    ensures p.wallet.None? || !StillValid(s, p, q) ==> CompleteApprovalOf(s, p, q).1.Err?
  {
  }

  /** A completion that commits nothing consumes the armed ceremony and records its failure. */
  lemma CompleteRefused(s: Service, q: Completion)
    requires Consumes(s, q) && CompletionCommit(s, q).None?
    ensures Complete(s, q).0 == Terminalize(Consumed(s, q), s.pending[q.operation], q) && Complete(s, q).1.Err?
  {
    RefusedLeaves(Consumed(s, q), s.pending[q.operation], q);
  }

  lemma CompleteWithoutCommit(s: Service, q: Completion)
    requires CompletionCommit(s, q).None?
    ensures SameBooks(s, Complete(s, q).0) && Complete(s, q).0.completed == s.completed && Complete(s, q).0.pairs == s.pairs
    ensures Complete(s, q).0.pending == s.pending || Complete(s, q).0.pending == s.pending - {q.operation}
  {
    if Consumes(s, q) {
      CompleteRefused(s, q);
    }
  }

  lemma DestinationWithoutCommit(s: Service, q: Pairing.DestinationRequest)
    requires DestinationCommit(s, q).None?
    ensures Pairing.CompleteDestination(s, q).0 == s.(pairs := Pairing.CompleteDestination(s, q).0.pairs)
  {
    var kept := Pairing.Retained(s.pairs, q.now);
    if q.id in kept {
      AttemptKeepsPrepared(s, kept[q.id], q);
    }
  }

  lemma AttemptKeepsPrepared(s: Service, pair: Pair, q: Pairing.DestinationRequest)
    ensures var (pair', edited) := Pairing.AttemptDestination(s, pair, q);
            && pair'.prepared == pair.prepared && pair'.operation == pair.operation
            && (edited.Some? ==>
                  && pair.prepared.Some? && pair.unlocked.Some? && pair'.unlocked.None?
                  && pair.destinationRecipient && !pair'.destinationRecipient
                  && pair.prepared.value.generation == AuthorityGeneration(s, Some(pair.prepared.value.wallet))
                  && edited == Enrol(HoldingsOf(s), pair.prepared.value.wallet, pair.unlocked.value, q.newId, q.newKey))
  {
  }

  lemma BuryShape(s: Service, q: Pairing.DestinationRequest)
    ensures Pairing.Bury(s, q) == s || Pairing.Bury(s, q) == s.(pairs := s.pairs - {q.id})
  {
  }

  lemma CommitDestinationShape(s: Service, kept: map<string, Pair>, q: Pairing.DestinationRequest, pair: Pair, edited: Option<Holdings>)
    ensures var after := Pairing.CommitDestination(s, kept, q, pair, edited).0.pairs;
            || after == kept[q.id := pair] || after == kept[q.id := pair] - {q.id}
            || (Pairing.CommitDestination(s, kept, q, pair, edited).1.Ok?
                && after == kept[q.id := pair.(capability := None, handoff := false)])
  {
  }

  /** The pairing table after a destination leg. */
  lemma DestinationShapes(s: Service, q: Pairing.DestinationRequest)
    ensures var kept, after := Pairing.Retained(s.pairs, q.now), Pairing.CompleteDestination(s, q).0.pairs;
            || after == kept || after == kept - {q.id}
            || (q.id in kept
                && var pair := Pairing.AttemptDestination(s, kept[q.id], q).0;
                   after == kept[q.id := pair] || after == kept[q.id := pair] - {q.id}
                   || after == kept[q.id := pair.(capability := None, handoff := false)])
  {
    var kept := Pairing.Retained(s.pairs, q.now);
    BuryShape(s.(pairs := kept), q);
    if q.id in kept {
      var (pair, edited) := Pairing.AttemptDestination(s, kept[q.id], q);
      CommitDestinationShape(s, kept, q, pair, edited);
    }
  }

  lemma PrepareFrame(s: Service, q: PrepareRequest)
    ensures Prepare(s, q).0 == s || (Unopened(s.durable, q.operation) && q.operation !in s.pending
            && Prepare(s, q).0 == s.(pending := Prepare(s, q).0.pending)
            && Prepare(s, q).0.pending == s.pending[q.operation :=
                 Pending(q.kind, q.ceremony, q.request, q.wallet, q.target, AuthorityGeneration(s, q.wallet), q.expires)])
  {
  }

  lemma CancelFrame(s: Service, op: string, ok: bool)
    ensures var s' := Cancel(s, op, ok).0;
            || s' == s
            || (HasPair(s.pairs, op) && CustodyReceipt(s.durable, op).None?
                && s' == s.(durable := s.durable.(statuses := s.durable.statuses[op := Cancelled]),
                            pairs := WithoutOperation(s.pairs, op)))
            || (op in s.pending
                && (s' == s.(pending := s.pending - {op})
                    || s' == s.(pending := s.pending - {op}, durable := s.durable.(statuses := s.durable.statuses[op := Cancelled]))))
  {
  }

  lemma AlreadyFrame(s: Service, q: Pairing.AlreadyRequest)
    ensures var s' := Pairing.AlreadyRegisteredHere(s, q).0;
            s' == s || (q.id in s.pairs && s.pairs[q.id].operation == q.operation
                        && s' == s.(durable := s.durable.(statuses := s.durable.statuses[q.operation := AlreadyRegistered]),
                                    pairs := s.pairs - {q.id}))
  {
  }

  lemma StartFrame(s: Service, q: Pairing.StartRequest)
    ensures Pairing.Start(s, q).0 == s.(pairs := Pairing.Start(s, q).0.pairs)
  {
  }

  lemma SourceFrame(s: Service, q: Pairing.SourceRequest)
    ensures Pairing.CompleteSource(s, q).0 == s.(pairs := Pairing.CompleteSource(s, q).0.pairs)
  {
  }

  lemma PrepareSourceFrame(s: Service, q: Pairing.SourcePrepareRequest)
    ensures Pairing.PrepareSource(s, q).0 == s.(pairs := Pairing.PrepareSource(s, q).0.pairs)
  {
  }

  /** The pairing steps that touch nothing but the pairing table. */
  predicate OnlyPairs(c: Command) { c.PairStartCmd? || c.PairPrepareCmd? || c.PairSourceCmd? || c.ExpireCmd? || c.ClearCmd? }

  lemma PairStepsFrame(s: Service, c: Command)
    requires OnlyPairs(c)
    ensures Step(s, c) == s.(pairs := Step(s, c).pairs)
  {
    match c
    case PairStartCmd(q) => StartFrame(s, q);
    case PairPrepareCmd(q) => PrepareSourceFrame(s, q);
    case PairSourceCmd(q) => SourceFrame(s, q);
    case ExpireCmd(_) =>
    case ClearCmd =>
  }

  lemma OtherStepsKeepBooks(s: Service, c: Command)
    requires !c.CompleteCmd? && !c.PairDestinationCmd? && !c.RestartCmd?
    ensures SameBooks(s, Step(s, c)) && Step(s, c).completed == s.completed
  {
    match c
    case CancelCmd(op, ok) => CancelFrame(s, op, ok);
    case PairAlreadyCmd(q) => AlreadyFrame(s, q);
    case PrepareCmd(q) => PrepareFrame(s, q);
    case _ => PairStepsFrame(s, c);
  }

  lemma StepWithoutCommit(s: Service, c: Command)
    requires MemoryIsDurable(s) && CommitOf(s, c).None?
    ensures SameBooks(s, Step(s, c))
    ensures Step(s, c).completed == s.completed || (c.RestartCmd? && Step(s, c).completed == map[])
  {
    if c.CompleteCmd? {
      CompleteWithoutCommit(s, c.completion);
    } else if c.PairDestinationCmd? {
      DestinationWithoutCommit(s, c.destination);
    } else if !c.RestartCmd? {
      OtherStepsKeepBooks(s, c);
    }
  }

  /** The service after a commit, as far as anyone but the pairing table can tell. */
  predicate Committed(s: Service, k: Commit, s': Service) {
    && k.operation !in s.durable.receipts
    && s'.durable.receipts == s.durable.receipts[k.operation := k.receipt]
    && s'.durable.statuses == s.durable.statuses[k.operation := Succeeded]
    && HoldingsOf(s') == k.holdings
    && s'.durable.wallets == k.holdings.wallets && s'.durable.credentials == k.holdings.credentials
    && (s'.completed == s.completed || s'.completed == s.completed[k.operation := k.receipt])
    && (if k.receipt.kind == SealedApproval then
          && s'.durable.fence == s.durable.fence && Fence(s.durable, k.wallet) == k.generation
          && k.holdings == HoldingsOf(s)
        else
          && s'.durable.fence == AdvanceFence(s.durable.fence, k.holdings.wallets)
          && FenceAdmits(s.durable, k.holdings.wallets, k.receipt.kind, Some(k.wallet))
          && k.generation == AuthorityGeneration(s, Some(k.wallet)))
  }

  lemma CustodyAccepted(s: Service, p: Pending, q: Completion, h: Holdings)
    requires StillValid(s, p, q) && p.kind != SealedApproval && p.wallet.Some? && ApplyCustody(HoldingsOf(s), p, q) == Some(h)
    requires CommitCustody(s.durable, h, q.operation, ReceiptOf(p, q), p.wallet, q.commitOk).Some?
    ensures var (s', r) := CompleteCustodyOf(s, p, q);
            && Committed(s, Commit(q.operation, ReceiptOf(p, q), p.wallet.value, p.generation, h), s')
            && s'.pending == s.pending && s'.pairs == s.pairs
            && (r == Ok(ReceiptOf(p, q)) || (r.Err? && q.operation in s'.durable.receipts))
  {
  }

  lemma ApprovalAccepted(s: Service, p: Pending, q: Completion)
    requires MemoryIsDurable(s) && CompleteApprovalOf(s, p, q).1.Ok?
    ensures var (s', r) := CompleteApprovalOf(s, p, q);
            && p.wallet.Some? && StillValid(s, p, q) && p.kind == SealedApproval
            && Committed(s, Commit(q.operation, ReceiptOf(p, q), p.wallet.value, p.generation, HoldingsOf(s)), s')
            && s'.pending == s.pending && s'.pairs == s.pairs && r == Ok(ReceiptOf(p, q))
  {
  }

  lemma CompletionCommits(s: Service, q: Completion)
    requires MemoryIsDurable(s) && CompletionCommit(s, q).Some?
    ensures Committed(s, CompletionCommit(s, q).value, Complete(s, q).0)
    ensures Complete(s, q).0.pending == s.pending - {q.operation} && Complete(s, q).0.pairs == s.pairs
    ensures CompletionCommit(s, q).value.operation == q.operation
  {
    var p, k := s.pending[q.operation], CompletionCommit(s, q).value;
    if q.kind == SealedApproval {
      ApprovalAccepted(Consumed(s, q), p, q);
    } else {
      CustodyAccepted(Consumed(s, q), p, q, k.holdings);
    }
  }

  lemma DestinationCommits(s: Service, q: Pairing.DestinationRequest)
    requires DestinationCommit(s, q).Some?
    ensures Committed(s, DestinationCommit(s, q).value, Pairing.CompleteDestination(s, q).0)
    ensures Pairing.CompleteDestination(s, q).0.pending == s.pending
    ensures DestinationCommit(s, q).value.operation == q.operation
  {
  }

  lemma StepCommits(s: Service, c: Command)
    requires MemoryIsDurable(s) && CommitOf(s, c).Some?
    ensures Committed(s, CommitOf(s, c).value, Step(s, c))
  {
    match c
    case CompleteCmd(q) => CompletionCommits(s, q);
    case PairDestinationCmd(q) => DestinationCommits(s, q);
  }

  // ---------------------------------------------------------------- what an edit does to wallets

  /** The wallet edit of a commit touches one wallet and moves its generation only by recovery. */
  ghost predicate OneWalletEdited(h: Holdings, h': Holdings, kind: Kind, wallet: string) {
    && (forall w :: w != wallet ==> (w in h'.wallets <==> w in h.wallets))
    && (forall w :: w != wallet && w in h.wallets ==> h'.wallets[w] == h.wallets[w])
    && (wallet in h.wallets || (CreatesWallet(kind) && wallet in h'.wallets && h'.wallets[wallet].table.generation == 0))
    && (kind == WalletRecovery ==> wallet in h'.wallets)
  }

  lemma EnrolEdits(h: Holdings, wallet: string, session: Custody.Secret, id: string, key: string, kind: Kind)
    requires Enrol(h, wallet, session, id, key).Some? && kind != WalletRecovery
    ensures OneWalletEdited(h, Enrol(h, wallet, session, id, key).value, kind, wallet)
  {
  }

  lemma ApplyEdits(h: Holdings, p: Pending, c: Completion)
    requires ApplyCustody(h, p, c).Some?
    ensures OneWalletEdited(h, ApplyCustody(h, p, c).value, p.kind, p.wallet.value)
  {
    var wallet := p.wallet.value;
    match p.kind
    case CredentialAdd => EnrolEdits(h, wallet, h.wallets[wallet].secret, c.newId, c.newKey, p.kind);
    case CredentialReplace => EnrolEdits(h, wallet, h.wallets[wallet].secret, c.newId, c.newKey, p.kind);
    case _ =>
  }

  /** A destination leg commits the enrolment its unlocked wallet allows. */
  lemma DestinationEnrols(s: Service, q: Pairing.DestinationRequest)
    requires DestinationCommit(s, q).Some?
    ensures var pair := Pairing.Retained(s.pairs, q.now)[q.id];
            && pair.prepared.Some? && pair.unlocked.Some?
            && Enrol(HoldingsOf(s), pair.prepared.value.wallet, pair.unlocked.value, q.newId, q.newKey)
               == Some(DestinationCommit(s, q).value.holdings)
            && DestinationCommit(s, q).value.receipt.kind == CredentialAdd
  {
    AttemptKeepsPrepared(s, Pairing.Retained(s.pairs, q.now)[q.id], q);
  }

  lemma CommitEdits(s: Service, c: Command)
    requires CommitOf(s, c).Some? && CommitOf(s, c).value.receipt.kind != SealedApproval
    ensures var k := CommitOf(s, c).value;
            OneWalletEdited(HoldingsOf(s), k.holdings, k.receipt.kind, k.wallet)
  {
    match c
    case CompleteCmd(q) => ApplyEdits(HoldingsOf(s), s.pending[q.operation], q);
    case PairDestinationCmd(q) =>
      var pair := Pairing.Retained(s.pairs, q.now)[q.id];
      EnrolEdits(HoldingsOf(s), pair.prepared.value.wallet, pair.unlocked.value, q.newId, q.newKey, CredentialAdd);
  }
}
