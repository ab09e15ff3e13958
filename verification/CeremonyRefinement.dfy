/**
 The service over custody backups refines the service over tables of factors: over every run both
 decide, answer and commit alike. What the ceremony theorems say of tables therefore holds of what
 the credentials unlock.
 */
module CeremonyRefinement {
  import opened Wrappers
  import opened CeremonyState
  import opened Ceremony
  import opened CeremonyRuns
  import opened CeremonyTheorems
  import opened CeremonyBindings
  import opened CeremonyVaults
  import opened CeremonyCustody
  import Pairing
  import Custody
  import Factors = CustodyTheorems

  // ---------------------------------------------------------------- steps that open nothing

  /** Two services that differ at most in factors and secrets. */
  ghost predicate Alike(a: Service, b: Service) {
    && Bare(a) == Bare(b) && a.credentials == b.credentials && a.wallets.Keys == b.wallets.Keys
    && forall w :: w in a.wallets ==> a.wallets[w].table.generation == b.wallets[w].table.generation
  }

  lemma SameGeneration(a: Service, b: Service, wallet: Option<string>)
    requires Alike(a, b)
    ensures AuthorityGeneration(a, wallet) == AuthorityGeneration(b, wallet)
  {
  }

  /** Arming depends on the generation alone, refusing on less. */
  lemma ArmedAlike(a: Service, b: Service, q: PrepareRequest)
    requires Alike(a, b) && Prepare(a, q).1.Ok? && q.operation !in a.pending
    ensures Bare(Prepare(a, q).0) == Bare(Prepare(b, q).0) && Prepare(a, q).1 == Prepare(b, q).1
  {
    SameGeneration(a, b, q.wallet);
    assert q.wallet.Some? ==> (LiveSession(a, q.wallet.value) <==> LiveSession(b, q.wallet.value));
  }

  lemma RefusedAlike(a: Service, b: Service, q: PrepareRequest)
    requires Alike(a, b) && (Prepare(a, q).1.Err? || q.operation in a.pending)
    ensures Prepare(a, q).0 == a && Prepare(b, q).0 == b && Prepare(a, q).1 == Prepare(b, q).1
  {
    assert q.wallet.Some? ==> (LiveSession(a, q.wallet.value) <==> LiveSession(b, q.wallet.value));
  }

  lemma PrepareAlike(a: Service, b: Service, q: PrepareRequest)
    requires Alike(a, b)
    ensures Bare(Prepare(a, q).0) == Bare(Prepare(b, q).0) && Prepare(a, q).1 == Prepare(b, q).1
  {
    if Prepare(a, q).1.Ok? && q.operation !in a.pending {
      ArmedAlike(a, b, q);
    } else {
      RefusedAlike(a, b, q);
    }
  }

  lemma CancelPairAlike(a: Service, b: Service, op: string, ok: bool)
    requires Bare(a) == Bare(b)
    ensures Bare(CancelPair(a, op, ok).0) == Bare(CancelPair(b, op, ok).0) && CancelPair(a, op, ok).1 == CancelPair(b, op, ok).1
  {
  }

  lemma CancelArmedAlike(a: Service, b: Service, op: string, ok: bool)
    requires Bare(a) == Bare(b)
    ensures Bare(CancelArmed(a, op, ok).0) == Bare(CancelArmed(b, op, ok).0) && CancelArmed(a, op, ok).1 == CancelArmed(b, op, ok).1
  {
  }

  lemma CancelConsumedAlike(a: Durable, b: Durable, op: string)
    requires BareDurable(a) == BareDurable(b)
    ensures CancelConsumed(a, op) == CancelConsumed(b, op)
  {
  }

  lemma CancelAlike(a: Service, b: Service, op: string, ok: bool)
    requires Bare(a) == Bare(b)
    ensures Bare(Cancel(a, op, ok).0) == Bare(Cancel(b, op, ok).0) && Cancel(a, op, ok).1 == Cancel(b, op, ok).1
  {
    if op in a.completed {
    } else if HasPair(a.pairs, op) {
      CancelPairAlike(a, b, op, ok);
    } else if op in a.pending {
      CancelArmedAlike(a, b, op, ok);
    } else {
      CancelConsumedAlike(a.durable, b.durable, op);
    }
  }

  lemma StartAlike(a: Service, b: Service, q: Pairing.StartRequest)
    requires Bare(a) == Bare(b)
    ensures Bare(Pairing.Start(a, q).0) == Bare(Pairing.Start(b, q).0) && Pairing.Start(a, q).1 == Pairing.Start(b, q).1
  {
  }

  lemma OffersAlike(a: Service, b: Service, q: Pairing.SourcePrepareRequest)
    requires a.credentials == b.credentials
    ensures Pairing.OfferedSources(a, q) == Pairing.OfferedSources(b, q)
  {
  }

  lemma PrepareSourceAlike(a: Service, b: Service, q: Pairing.SourcePrepareRequest)
    requires Alike(a, b)
    ensures Bare(Pairing.PrepareSource(a, q).0) == Bare(Pairing.PrepareSource(b, q).0)
    ensures Pairing.PrepareSource(a, q).1 == Pairing.PrepareSource(b, q).1
  {
    SameGeneration(a, b, Some(q.wallet));
    OffersAlike(a, b, q);
  }

  /** What `cross_surface_already_registered` checks before it records anything. */
  predicate EndsPair(s: Service, q: Pairing.AlreadyRequest) {
    && q.id in s.pairs && s.pairs[q.id].operation == q.operation && q.now < s.pairs[q.id].expires
    && CustodyReceipt(s.durable, q.operation).None?
    && s.pairs[q.id].prepared.Some? && s.pairs[q.id].prepared.value.hasExisting
    && s.pairs[q.id].capability == Some(q.capability) && q.statusOk
  }

  lemma EndedAlike(s: Service, q: Pairing.AlreadyRequest)
    requires EndsPair(s, q)
    ensures Pairing.AlreadyRegisteredHere(s, q)
            == (s.(durable := s.durable.(statuses := s.durable.statuses[q.operation := AlreadyRegistered]), pairs := s.pairs - {q.id}), Ok(()))
  {
  }

  lemma UnendedAlike(a: Service, b: Service, q: Pairing.AlreadyRequest)
    requires a.pairs == b.pairs && a.durable.receipts == b.durable.receipts && a.durable.statuses == b.durable.statuses
    requires !EndsPair(a, q)
    ensures Pairing.AlreadyRegisteredHere(a, q).0 == a && Pairing.AlreadyRegisteredHere(b, q).0 == b
    ensures Pairing.AlreadyRegisteredHere(a, q).1 == Pairing.AlreadyRegisteredHere(b, q).1
  {
  }

  lemma AlreadyAlike(a: Service, b: Service, q: Pairing.AlreadyRequest)
    requires Bare(a) == Bare(b)
    ensures Bare(Pairing.AlreadyRegisteredHere(a, q).0) == Bare(Pairing.AlreadyRegisteredHere(b, q).0)
    ensures Pairing.AlreadyRegisteredHere(a, q).1 == Pairing.AlreadyRegisteredHere(b, q).1
  {
    if EndsPair(a, q) {
      EndedAlike(a, q);
      EndedAlike(b, q);
    } else {
      UnendedAlike(a, b, q);
    }
  }

  lemma BuryAlike(a: Service, b: Service, q: Pairing.DestinationRequest)
    requires Alike(a, b)
    ensures Bare(Pairing.Bury(a, q)) == Bare(Pairing.Bury(b, q))
  {
    if q.id in a.pairs && a.pairs[q.id].prepared.Some? {
      SameGeneration(a, b, Some(a.pairs[q.id].prepared.value.wallet));
    }
  }

  lemma StepAlike(a: Service, b: Service, c: Command)
    requires Alike(a, b) && OpensNothing(c)
    ensures Bare(Step(a, c)) == Bare(Step(b, c))
  {
    match c
    case PrepareCmd(q) => PrepareAlike(a, b, q);
    case CancelCmd(op, ok) => CancelAlike(a, b, op, ok);
    case PairStartCmd(q) => StartAlike(a, b, q);
    case PairPrepareCmd(q) => PrepareSourceAlike(a, b, q);
    case PairAlreadyCmd(q) => AlreadyAlike(a, b, q);
    case ExpireCmd(_) =>
    case ClearCmd =>
  }

  // ---------------------------------------------------------------- simulation

  function StoredHoldings(s: Service): Holdings { Holdings(s.durable.wallets, s.durable.credentials) }

  /** The vault service stands where the table service does. */
  ghost predicate Simulates(x: VaultService, s: Service) {
    x.shell == Bare(s) && Backs(x.vaults, HoldingsOf(s)) && Backs(x.saved, StoredHoldings(s))
  }

  lemma FaceAlike(x: VaultService, s: Service)
    requires Simulates(x, s)
    ensures Alike(Face(x), s)
  {
    assert Bare(Face(x)) == x.shell;
  }

  predicate SameGenerations(a: map<string, Wallet>, b: map<string, Wallet>) {
    a.Keys == b.Keys && forall w :: w in a ==> a[w].table.generation == b[w].table.generation
  }

  lemma StubsAlike(v: Vaults, h: Holdings)
    requires Backs(v, h)
    ensures SameGenerations(Stubs(v), h.wallets)
  {
  }

  lemma AdmitsAlike(d: Durable, e: Durable, a: map<string, Wallet>, b: map<string, Wallet>, kind: Kind, subject: Option<string>)
    requires d.fence == e.fence && SameGenerations(a, b) && FenceAdmits(d, a, kind, subject)
    ensures FenceAdmits(e, b, kind, subject)
  {
    forall w | w in b
      ensures var previous, next := Fence(e, w), b[w].table.generation;
              && next >= previous
              && (kind == WalletRecovery && subject == Some(w) ==> previous < Custody.LAST_GENERATION && next == previous + 1)
              && (kind != WalletRecovery ==> next == previous)
    {
      assert w in a && Fence(d, w) == Fence(e, w) && a[w].table.generation == b[w].table.generation;
    }
  }

  lemma AdvanceAlike(fence: map<string, nat>, a: map<string, Wallet>, b: map<string, Wallet>)
    requires SameGenerations(a, b)
    ensures AdvanceFence(fence, a) == AdvanceFence(fence, b)
  {
  }

  /** A transaction succeeds and moves the books by generations alone. */
  lemma DurableAlike(d: Durable, e: Durable, a: Holdings, b: Holdings, op: string, receipt: Receipt, subject: Option<string>, ok: bool)
    requires BareDurable(d) == BareDurable(e) && SameGenerations(a.wallets, b.wallets)
    requires CommitCustody(d, a, op, receipt, subject, ok).Some?
    ensures CommitCustody(e, b, op, receipt, subject, ok).Some?
    ensures BareDurable(CommitCustody(d, a, op, receipt, subject, ok).value) == BareDurable(CommitCustody(e, b, op, receipt, subject, ok).value)
  {
    AdmitsAlike(d, e, a.wallets, b.wallets, receipt.kind, subject);
    AdvanceAlike(d.fence, a.wallets, b.wallets);
  }

  lemma CommittedSimulates(x: VaultService, s: Service, v: Vaults, h: Holdings, a: Durable, b: Durable)
    requires Simulates(x, s) && Backs(v, h) && BareDurable(a) == BareDurable(b)
    requires b.wallets == h.wallets && b.credentials == h.credentials
    ensures Simulates(VaultService(Bare(x.shell.(durable := a)), v, v), WithHoldings(s.(durable := b), h))
  {
  }

  /** Committing vaults succeeds exactly when committing their tables does, and stands where it does. */
  lemma CommitMatches(x: VaultService, s: Service, v: Vaults, h: Holdings, op: string, receipt: Receipt, subject: Option<string>, ok: bool)
    requires Simulates(x, s) && Backs(v, h)
    ensures var y, d := CommitVaults(x, v, op, receipt, subject, ok), CommitCustody(s.durable, h, op, receipt, subject, ok);
            && (y.Some? <==> d.Some?)
            && (y.Some? ==> Simulates(y.value, WithHoldings(s.(durable := d.value), h)))
  {
    var stubs := Holdings(Stubs(v), map[]);
    StubsAlike(v, h);
    var a, b := CommitCustody(x.shell.durable, stubs, op, receipt, subject, ok), CommitCustody(s.durable, h, op, receipt, subject, ok);
    if a.Some? {
      DurableAlike(x.shell.durable, s.durable, stubs, h, op, receipt, subject, ok);
      CommittedSimulates(x, s, v, h, a.value, b.value);
    } else if b.Some? {
      DurableAlike(s.durable, x.shell.durable, h, stubs, op, receipt, subject, ok);
    }
  }

  lemma ValidAlike(x: VaultService, s: Service, p: Pending, c: Completion)
    requires Simulates(x, s)
    ensures StillValid(Face(x), p, c) <==> StillValid(s, p, c)
  {
    FaceAlike(x, s);
    SameGeneration(Face(x), s, p.wallet);
  }

  lemma CustodySimulates(x: VaultService, s: Service, p: Pending, c: Completion)
    requires Simulates(x, s)
    ensures Simulates(CompleteCustodyOn(x, p, c).0, CompleteCustodyOf(s, p, c).0)
    ensures CompleteCustodyOn(x, p, c).1 == CompleteCustodyOf(s, p, c).1
  {
    ValidAlike(x, s, p, c);
    ApplyMatches(x.vaults, HoldingsOf(s), p, c);
    var v, h := ApplyVault(x.vaults, p, c), ApplyCustody(HoldingsOf(s), p, c);
    if v.Some? {
      CommitMatches(x, s, v.value, h.value, c.operation, ReceiptOf(p, c), p.wallet, c.commitOk);
    }
  }

  lemma ApprovalCommitAlike(x: VaultService, s: Service, op: string, receipt: Receipt, wallet: string, generation: nat, ok: bool)
    requires Simulates(x, s)
    ensures var a := CommitApproval(x.shell.durable, op, receipt, wallet, generation, ok);
            var b := CommitApproval(s.durable, op, receipt, wallet, generation, ok);
            && (a.Some? <==> b.Some?)
            && (a.Some? ==> Simulates(x.(shell := x.shell.(durable := a.value, completed := x.shell.completed[op := receipt])),
                                      s.(durable := b.value, completed := s.completed[op := receipt])))
  {
  }

  lemma ApprovalSimulates(x: VaultService, s: Service, p: Pending, c: Completion)
    requires Simulates(x, s)
    ensures Simulates(CompleteApprovalOn(x, p, c).0, CompleteApprovalOf(s, p, c).0)
    ensures CompleteApprovalOn(x, p, c).1 == CompleteApprovalOf(s, p, c).1
  {
    ValidAlike(x, s, p, c);
    if p.wallet.Some? {
      assert Bound(Face(x), c.authority, p.wallet.value) == Bound(s, c.authority, p.wallet.value);
      AuthoriseMatches(x.vaults, HoldingsOf(s), p.wallet.value, c);
      ApprovalCommitAlike(x, s, c.operation, ReceiptOf(p, c), p.wallet.value, p.generation, c.commitOk);
    }
  }

  lemma TerminalizeSimulates(x: VaultService, s: Service, p: Pending, c: Completion)
    requires Simulates(x, s)
    ensures Simulates(x.(shell := Terminalize(x.shell, p, c)), Terminalize(s, p, c))
  {
  }

  lemma ConsumedSimulates(x: VaultService, s: Service, op: string)
    requires Simulates(x, s)
    ensures Simulates(x.(shell := x.shell.(pending := x.shell.pending - {op})), s.(pending := s.pending - {op}))
  {
  }

  /** A completion over backups answers as the one over tables, and stands where it does. */
  lemma CompletionSimulates(x: VaultService, s: Service, c: Completion)
    requires Simulates(x, s)
    ensures Simulates(CompleteOn(x, c).0, Complete(s, c).0) && CompleteOn(x, c).1 == Complete(s, c).1
  {
    if Retry(s, c).None? && c.operation in s.pending {
      var p := s.pending[c.operation];
      var x', s' := x.(shell := x.shell.(pending := x.shell.pending - {c.operation})), s.(pending := s.pending - {c.operation});
      ConsumedSimulates(x, s, c.operation);
      if c.kind == SealedApproval {
        ApprovalSimulates(x', s', p, c);
        TerminalizeSimulates(CompleteApprovalOn(x', p, c).0, CompleteApprovalOf(s', p, c).0, p, c);
      } else {
        CustodySimulates(x', s', p, c);
        TerminalizeSimulates(CompleteCustodyOn(x', p, c).0, CompleteCustodyOf(s', p, c).0, p, c);
      }
    }
  }

  lemma OpenMatches(v: Vaults, h: Holdings, wallet: string, id: string, key: string)
    requires Backs(v, h)
    ensures Open(v, wallet, id, key)
            == if wallet in h.wallets && CredentialUnlocks(h.wallets[wallet], id, key) then Some(h.wallets[wallet].secret) else None
  {
    if wallet in h.wallets {
      UnlocksMatch(v.backups[wallet], wallet, h.wallets[wallet], id, key);
    }
  }

  lemma AttemptSourceMatches(x: VaultService, s: Service, pair: Pair, q: Pairing.SourceRequest)
    requires Simulates(x, s)
    ensures AttemptSourceOn(x, pair, q) == Pairing.AttemptSource(s, pair, q)
  {
    if pair.prepared.Some? {
      FaceAlike(x, s);
      SameGeneration(Face(x), s, Some(pair.prepared.value.wallet));
      OpenMatches(x.vaults, HoldingsOf(s), pair.prepared.value.wallet, q.credential, q.key);
    }
  }

  /** So does the source leg. */
  lemma SourceSimulates(x: VaultService, s: Service, q: Pairing.SourceRequest)
    requires Simulates(x, s)
    ensures Simulates(CompleteSourceOn(x, q).0, Pairing.CompleteSource(s, q).0) && CompleteSourceOn(x, q).1 == Pairing.CompleteSource(s, q).1
  {
    var kept := Pairing.Retained(s.pairs, q.now);
    if q.id in kept {
      AttemptSourceMatches(x, s, kept[q.id], q);
    }
  }

  lemma AdmittedAlike(x: VaultService, s: Service, pair: Pair, q: Pairing.DestinationRequest)
    requires Simulates(x, s)
    ensures DestinationAdmitted(Face(x), pair, q) <==> DestinationAdmitted(s, pair, q)
  {
    FaceAlike(x, s);
    if pair.prepared.Some? {
      SameGeneration(Face(x), s, Some(pair.prepared.value.wallet));
    }
  }

  /** The table service's attempt, with its checks under one name. */
  function AttemptTable(s: Service, pair: Pair, q: Pairing.DestinationRequest): (Pair, Option<Holdings>) {
    var tried := pair.(attempts := pair.attempts + 1);
    if !DestinationAdmitted(s, pair, q) then (tried, None)
    else
      var spent := tried.(destinationRecipient := false);
      if !q.openOk || spent.unlocked.None? then (spent, None)
      else
        (spent.(unlocked := None),
         if q.bindingOk then Enrol(HoldingsOf(s), spent.prepared.value.wallet, spent.unlocked.value, q.newId, q.newKey) else None)
  }

  lemma AttemptByAdmission(s: Service, pair: Pair, q: Pairing.DestinationRequest)
    ensures Pairing.AttemptDestination(s, pair, q) == AttemptTable(s, pair, q)
  {
  }

  lemma DestinationEditMatches(v: Vaults, h: Holdings, wallet: string, secret: Custody.Secret, q: Pairing.DestinationRequest)
    requires Backs(v, h)
    ensures Matches(if q.bindingOk then EnrolVault(v, wallet, Session(secret), q.newId, q.newKey) else None,
                    if q.bindingOk then Enrol(h, wallet, secret, q.newId, q.newKey) else None)
  {
    EnrolMatches(v, h, wallet, Session(secret), secret, q.newId, q.newKey);
  }

  lemma AttemptTableMatches(x: VaultService, s: Service, pair: Pair, q: Pairing.DestinationRequest)
    requires Backs(x.vaults, HoldingsOf(s)) && (DestinationAdmitted(Face(x), pair, q) <==> DestinationAdmitted(s, pair, q))
    ensures AttemptDestinationOn(x, pair, q).0 == AttemptTable(s, pair, q).0
    ensures Matches(AttemptDestinationOn(x, pair, q).1, AttemptTable(s, pair, q).1)
  {
    if pair.prepared.Some? && pair.unlocked.Some? {
      DestinationEditMatches(x.vaults, HoldingsOf(s), pair.prepared.value.wallet, pair.unlocked.value, q);
    }
  }

  lemma AttemptDestinationMatches(x: VaultService, s: Service, pair: Pair, q: Pairing.DestinationRequest)
    requires Simulates(x, s)
    ensures AttemptDestinationOn(x, pair, q).0 == Pairing.AttemptDestination(s, pair, q).0
    ensures Matches(AttemptDestinationOn(x, pair, q).1, Pairing.AttemptDestination(s, pair, q).1)
  {
    AdmittedAlike(x, s, pair, q);
    AttemptTableMatches(x, s, pair, q);
    AttemptByAdmission(s, pair, q);
  }

  lemma BurySimulates(x: VaultService, s: Service, q: Pairing.DestinationRequest)
    requires Simulates(x, s)
    ensures Simulates(BuryOn(x, q), Pairing.Bury(s, q))
  {
    FaceAlike(x, s);
    BuryAlike(Face(x), s, q);
    BuryShape(s, q);
  }

  lemma PairsSimulate(x: VaultService, s: Service, pairs: map<string, Pair>)
    requires Simulates(x, s)
    ensures Simulates(x.(shell := x.shell.(pairs := pairs)), s.(pairs := pairs))
  {
  }

  lemma FailedSimulates(x: VaultService, s: Service, pairs: map<string, Pair>, q: Pairing.DestinationRequest)
    requires Simulates(x, s)
    ensures Simulates(BuryOn(x.(shell := x.shell.(pairs := pairs)), q), Pairing.Bury(s.(pairs := pairs), q))
  {
    PairsSimulate(x, s, pairs);
    BurySimulates(x.(shell := x.shell.(pairs := pairs)), s.(pairs := pairs), q);
  }

  /** The transaction of a destination leg, over backups and over tables. */
  function DestinationVaults(x: VaultService, q: Pairing.DestinationRequest, pair: Pair, v: Option<Vaults>): Option<VaultService> {
    if v.None? || pair.prepared.None? then None
    else CommitVaults(x, v.value, q.operation, Pairing.PairReceipt(q), Some(pair.prepared.value.wallet), q.commitOk)
  }

  function DestinationTables(s: Service, q: Pairing.DestinationRequest, pair: Pair, h: Option<Holdings>): Option<Service> {
    if h.None? || pair.prepared.None? then None
    else match CommitCustody(s.durable, h.value, q.operation, Pairing.PairReceipt(q), Some(pair.prepared.value.wallet), q.commitOk)
      case None => None
      case Some(d) => Some(WithHoldings(s.(durable := d), h.value))
  }

  lemma TransactionsMatch(x: VaultService, s: Service, q: Pairing.DestinationRequest, pair: Pair, v: Option<Vaults>, h: Option<Holdings>)
    requires Simulates(x, s) && Matches(v, h)
    ensures DestinationVaults(x, q, pair, v).Some? <==> DestinationTables(s, q, pair, h).Some?
    ensures DestinationVaults(x, q, pair, v).Some? ==> Simulates(DestinationVaults(x, q, pair, v).value, DestinationTables(s, q, pair, h).value)
  {
    if v.Some? && pair.prepared.Some? {
      CommitMatches(x, s, v.value, h.value, q.operation, Pairing.PairReceipt(q), Some(pair.prepared.value.wallet), q.commitOk);
    }
  }

  /** What a leg leaves: the transaction with its pairing spent, or the failed attempt, buried if dead. */
  lemma CommitByTransaction(x: VaultService, s: Service, kept: map<string, Pair>, q: Pairing.DestinationRequest, pair: Pair,
                            v: Option<Vaults>, h: Option<Holdings>)
    ensures var y, done := DestinationVaults(x, q, pair, v), kept[q.id := pair.(capability := None, handoff := false)];
            CommitDestinationOn(x, kept, q, pair, v).0
            == if y.Some? then y.value.(shell := y.value.shell.(pairs := done)) else BuryOn(x.(shell := x.shell.(pairs := kept[q.id := pair])), q)
    ensures var t, done := DestinationTables(s, q, pair, h), kept[q.id := pair.(capability := None, handoff := false)];
            Pairing.CommitDestination(s, kept, q, pair, h).0
            == if t.Some? then t.value.(pairs := done) else Pairing.Bury(s.(pairs := kept[q.id := pair]), q)
  {
  }

  /** And what it answers. */
  lemma AnswerByTransaction(x: VaultService, s: Service, kept: map<string, Pair>, q: Pairing.DestinationRequest, pair: Pair,
                            v: Option<Vaults>, h: Option<Holdings>)
    requires (v.Some? <==> h.Some?) && (DestinationVaults(x, q, pair, v).Some? <==> DestinationTables(s, q, pair, h).Some?)
    ensures CommitDestinationOn(x, kept, q, pair, v).1 == Pairing.CommitDestination(s, kept, q, pair, h).1
  {
  }

  lemma CommitDestinationSimulates(x: VaultService, s: Service, kept: map<string, Pair>, q: Pairing.DestinationRequest, pair: Pair,
                                   v: Option<Vaults>, h: Option<Holdings>)
    requires Simulates(x, s) && Matches(v, h)
    ensures Simulates(CommitDestinationOn(x, kept, q, pair, v).0, Pairing.CommitDestination(s, kept, q, pair, h).0)
    ensures CommitDestinationOn(x, kept, q, pair, v).1 == Pairing.CommitDestination(s, kept, q, pair, h).1
  {
    TransactionsMatch(x, s, q, pair, v, h);
    CommitByTransaction(x, s, kept, q, pair, v, h);
    AnswerByTransaction(x, s, kept, q, pair, v, h);
    if DestinationVaults(x, q, pair, v).Some? {
      PairsSimulate(DestinationVaults(x, q, pair, v).value, DestinationTables(s, q, pair, h).value,
                    kept[q.id := pair.(capability := None, handoff := false)]);
    } else {
      FailedSimulates(x, s, kept[q.id := pair], q);
    }
  }

  /** The destination leg reaches its attempt. */
  predicate ReachesAttempt(s: Service, q: Pairing.DestinationRequest) {
    var kept := Pairing.Retained(s.pairs, q.now);
    q.id in kept && kept[q.id].operation == q.operation && CustodyReceipt(s.durable, q.operation).None?
  }

  lemma AttemptSimulates(x: VaultService, s: Service, q: Pairing.DestinationRequest)
    requires Simulates(x, s) && ReachesAttempt(s, q)
    ensures Simulates(CompleteDestinationOn(x, q).0, Pairing.CompleteDestination(s, q).0)
    ensures CompleteDestinationOn(x, q).1 == Pairing.CompleteDestination(s, q).1
  {
    var kept := Pairing.Retained(s.pairs, q.now);
    AttemptDestinationMatches(x, s, kept[q.id], q);
    var (pair, v) := AttemptDestinationOn(x, kept[q.id], q);
    CommitDestinationSimulates(x, s, kept, q, pair, v, Pairing.AttemptDestination(s, kept[q.id], q).1);
  }

  lemma EarlyAnswerSimulates(x: VaultService, s: Service, q: Pairing.DestinationRequest)
    requires Simulates(x, s) && !ReachesAttempt(s, q)
    ensures Simulates(CompleteDestinationOn(x, q).0, Pairing.CompleteDestination(s, q).0)
    ensures CompleteDestinationOn(x, q).1 == Pairing.CompleteDestination(s, q).1
  {
    var kept := Pairing.Retained(s.pairs, q.now);
    PairsSimulate(x, s, kept);
    FailedSimulates(x, s, kept, q);
  }

  /** And the destination leg. */
  lemma DestinationSimulates(x: VaultService, s: Service, q: Pairing.DestinationRequest)
    requires Simulates(x, s)
    ensures Simulates(CompleteDestinationOn(x, q).0, Pairing.CompleteDestination(s, q).0)
    ensures CompleteDestinationOn(x, q).1 == Pairing.CompleteDestination(s, q).1
  {
    if ReachesAttempt(s, q) {
      AttemptSimulates(x, s, q);
    } else {
      EarlyAnswerSimulates(x, s, q);
    }
  }

  lemma FaceStepSimulates(x: VaultService, s: Service, c: Command)
    requires Simulates(x, s) && OpensNothing(c)
    ensures Simulates(VaultStep(x, c), Step(s, c))
  {
    FaceAlike(x, s);
    StepAlike(Face(x), s, c);
    OtherStepsKeepHoldings(s, c);
  }

  lemma OtherStepsKeepHoldings(s: Service, c: Command)
    requires OpensNothing(c)
    ensures HoldingsOf(Step(s, c)) == HoldingsOf(s) && StoredHoldings(Step(s, c)) == StoredHoldings(s)
  {
    OtherStepsKeepBooks(s, c);
  }

  /** Whatever the service does over tables it does over backups. */
  lemma StepSimulates(x: VaultService, s: Service, c: Command)
    requires Simulates(x, s)
    ensures Simulates(VaultStep(x, c), Step(s, c))
  {
    match c
    case CompleteCmd(q) => CompletionSimulates(x, s, q);
    case PairSourceCmd(q) => SourceSimulates(x, s, q);
    case PairDestinationCmd(q) => DestinationSimulates(x, s, q);
    case RestartCmd =>
    case _ => FaceStepSimulates(x, s, c);
  }

  lemma {:induction false} RunSimulates(x: VaultService, s: Service, commands: seq<Command>)
    requires Simulates(x, s)
    ensures Simulates(RunVaults(x, commands), Run(s, commands))
    decreases |commands|
  {
    if commands != [] {
      StepSimulates(x, s, commands[0]);
      RunSimulates(VaultStep(x, commands[0]), Step(s, commands[0]), commands[1..]);
    }
  }

  /** After any run, the next completion or pairing leg is answered over backups as it is over tables. */
  lemma AnswersAgree(commands: seq<Command>, c: Completion, q: Pairing.SourceRequest, d: Pairing.DestinationRequest)
    ensures var x, s := RunVaults(EMPTY_VAULTS, commands), Run(EMPTY, commands);
            && CompleteOn(x, c).1 == Complete(s, c).1
            && CompleteSourceOn(x, q).1 == Pairing.CompleteSource(s, q).1
            && CompleteDestinationOn(x, d).1 == Pairing.CompleteDestination(s, d).1
  {
    var x, s := RunVaults(EMPTY_VAULTS, commands), Run(EMPTY, commands);
    RunSimulates(EMPTY_VAULTS, EMPTY, commands);
    CompletionSimulates(x, s, c);
    SourceSimulates(x, s, q);
    DestinationSimulates(x, s, d);
  }

  // ---------------------------------------------------------------- what the backups unlock

  /** A wallet's backup: it unlocks by exactly the table's factors and to the wallet's own secrets, and restore accepts it. */
  ghost predicate Unlockable(b: Custody.Backup, w: Wallet, id: string, key: string) {
    && (Custody.UnlockWithCredential(b, id, key).Ok? <==> CredentialUnlocks(w, id, key))
    && (Custody.UnlockWithCredential(b, id, key).Ok? ==> Factors.Genuine(w.secret, Custody.UnlockWithCredential(b, id, key).value))
    && (Custody.UnlockWithRecovery(b, id, key).Ok? <==> w.table.recovery == Some((id, key)))
    && (Custody.UnlockWithRecovery(b, id, key).Ok? ==> Factors.Genuine(w.secret, Custody.UnlockWithRecovery(b, id, key).value))
    && Custody.ValidShape(b)
  }

  lemma BackedUnlocks(b: Custody.Backup, name: string, w: Wallet, id: string, key: string)
    requires BackupOf(b, name, w)
    ensures Unlockable(b, w, id, key) && b.generation == w.table.generation
  {
    UnlocksMatch(b, name, w, id, key);
    Factors.RestoreAccepts(b, w.secret, w.table);
  }

  /**
   Over every run from an empty service the two services have the same wallets, in memory and in
   storage; each backup unlocks by exactly its table's factors and to the wallet's own secrets,
   carries the generation of the durable fence, and is accepted by restore.
   */
  lemma EveryWalletIsBacked(commands: seq<Command>, wallet: string, id: string, key: string)
    ensures var s, x := Run(EMPTY, commands), RunVaults(EMPTY_VAULTS, commands);
            && (wallet in x.vaults.backups <==> wallet in s.wallets)
            && (wallet in x.saved.backups <==> wallet in s.wallets)
            && (wallet in s.wallets ==>
                  && Unlockable(x.vaults.backups[wallet], s.wallets[wallet], id, key)
                  && Unlockable(x.saved.backups[wallet], s.wallets[wallet], id, key)
                  && x.vaults.backups[wallet].generation == Fence(x.shell.durable, wallet))
  {
    RunSimulates(EMPTY_VAULTS, EMPTY, commands);
    RunKeepsInvariant(EMPTY, commands);
    SimulatedBacked(RunVaults(EMPTY_VAULTS, commands), Run(EMPTY, commands), wallet, id, key);
  }

  lemma SimulatedBacked(x: VaultService, s: Service, wallet: string, id: string, key: string)
    requires Simulates(x, s) && MemoryIsDurable(s) && Fenced(s)
    ensures wallet in x.vaults.backups <==> wallet in s.wallets
    ensures wallet in x.saved.backups <==> wallet in s.wallets
    ensures wallet in s.wallets ==>
              && Unlockable(x.vaults.backups[wallet], s.wallets[wallet], id, key)
              && Unlockable(x.saved.backups[wallet], s.wallets[wallet], id, key)
              && x.vaults.backups[wallet].generation == Fence(x.shell.durable, wallet)
  {
    if wallet in s.wallets {
      BackedUnlocks(x.vaults.backups[wallet], wallet, s.wallets[wallet], id, key);
      BackedUnlocks(x.saved.backups[wallet], wallet, s.wallets[wallet], id, key);
    }
  }

  /** Some key of a credential opens the backup exactly when the credential is active in its table. */
  lemma OpensExactly(b: Custody.Backup, name: string, w: Wallet, id: string)
    requires BackupOf(b, name, w)
    ensures (exists key :: Custody.UnlockWithCredential(b, id, key).Ok?) <==> id in w.table.active
  {
    forall key ensures Custody.UnlockWithCredential(b, id, key).Ok? <==> CredentialUnlocks(w, id, key) {
      UnlocksMatch(b, name, w, id, key);
    }
    if id in w.table.active {
      assert CredentialUnlocks(w, id, w.table.active[id]);
    }
  }

  /** Without reuse across wallets, a credential is bound to a wallet if and only if some key of it unlocks the wallet's backup. */
  lemma BoundMeansUnlocks(commands: seq<Command>, id: string, wallet: string)
    requires NeverReused(EMPTY, commands)
    ensures var v := RunVaults(EMPTY_VAULTS, commands).vaults;
            id in v.credentials && v.credentials[id] == wallet
            <==> wallet in v.backups && exists key :: Custody.UnlockWithCredential(v.backups[wallet], id, key).Ok?
  {
    var s, v := Run(EMPTY, commands), RunVaults(EMPTY_VAULTS, commands).vaults;
    BoundCredentialsAreActiveWraps(commands, id, wallet);
    RunSimulates(EMPTY_VAULTS, EMPTY, commands);
    if wallet in s.wallets {
      OpensExactly(v.backups[wallet], wallet, s.wallets[wallet], id);
    }
  }
}
