/**
 What goes wrong when a pairing shares an operation id with an armed ceremony, which opening it
 does not check: the pairing completes an operation that has already failed, and a completed
 operation can be cancelled.
 */
module CeremonyAlias {
  import opened Wrappers
  import opened CeremonyState
  import opened Ceremony
  import opened CeremonyRuns
  import opened CeremonyScripts
  import Pairing
  import Factors = CustodyTheorems

  const START: Pairing.StartRequest := Pairing.StartRequest("p", "x", "remote", "terms", "key", 100, 1, true, true)
  const SOURCE_PREPARE: Pairing.SourcePrepareRequest :=
    Pairing.SourcePrepareRequest("p", "x", "terms", "local", "w", {"a"}, false, 1, true, true)
  const SOURCE: Pairing.SourceRequest := Pairing.SourceRequest("p", "x", "d", 1, true, true, true, "a", KEY, "cap")
  const DESTINATION: Pairing.DestinationRequest :=
    Pairing.DestinationRequest("p", "x", "d2", 1, true, true, true, "cap", true, true, true, true, "b", KEY)

  function Registration(): seq<Command> {
    [PrepareCmd(Request("r", WalletRegistration, "w", "a")), CompleteCmd(Proof("r", WalletRegistration, "a", "a", true))]
  }

  function Sharing(): seq<Command> {
    [PairStartCmd(START), PrepareCmd(Request("x", CredentialRemove, "w", "a"))]
  }

  function SourceLeg(): seq<Command> { [PairPrepareCmd(SOURCE_PREPARE), PairSourceCmd(SOURCE)] }

  // ---------------------------------------------------------------- the states of the runs

  const WALLETS: map<string, Wallet> := map["w" := Wallet(SECRET, Factors.FirstTable("a", KEY))]
  const BINDINGS: map<string, string> := map["a" := "w"]
  const OPEN: Pair := Pairing.NewPair(START)
  const READY: Pair := OPEN.(prepared := Some(Prepared("local", "w", 0, {"a"}, false)), sourceRecipient := true, destinationRecipient := true)
  const HANDED: Pair := READY.(attempts := 1, sourceRecipient := false, unlocked := Some(SECRET), source := Some("a"),
                               capability := Some("cap"), handoff := true, sourceDigest := Some("d"))

  /** One wallet with one credential, and nothing recorded under operation `x`. */
  predicate Staged(s: Service, pairs: map<string, Pair>) {
    && s.wallets == WALLETS && s.credentials == BINDINGS && s.durable.fence == map["w" := 0]
    && "x" !in s.durable.receipts && "x" !in s.completed && s.pairs == pairs
  }

  lemma Registers()
    ensures var s := Run(EMPTY, Registration());
            Staged(s, map[]) && s.pending == map[] && "x" !in s.durable.statuses
  {
    var q, c := Request("r", WalletRegistration, "w", "a"), Proof("r", WalletRegistration, "a", "a", true);
    var h := Holdings(WALLETS, BINDINGS);
    RegistrationApplies(EMPTY, q, c);
    assert AdvanceFence(map[], WALLETS) == map["w" := 0];
    GoesThrough(EMPTY, q, c, h);
  }

  lemma RegistrationApplies(s: Service, q: PrepareRequest, c: Completion)
    requires s == EMPTY && q == Request("r", WalletRegistration, "w", "a") && c == Proof("r", WalletRegistration, "a", "a", true)
    ensures ApplyCustody(HoldingsOf(s), Armed(s, q), c) == Some(Holdings(WALLETS, BINDINGS))
  {
    assert NewWallet("w", c) == Some(Wallet(SECRET, Factors.FirstTable("a", KEY)));
  }

  lemma Opens(s: Service, q: Pairing.StartRequest)
    requires q == START && Staged(s, map[]) && "x" !in s.durable.statuses
    ensures Step(s, PairStartCmd(q)) == s.(pairs := map["p" := OPEN])
  {
    assert Pairing.Unexpired(s.pairs, 1) == map[];
    assert Pairing.OpenPair(map[], q) == (map["p" := OPEN], Ok(()));
  }

  lemma Shares(s: Service)
    requires Staged(s, map[]) && s.pending == map[] && "x" !in s.durable.statuses
    ensures var q := Request("x", CredentialRemove, "w", "a");
            Run(s, Sharing()) == s.(pairs := map["p" := OPEN], pending := map["x" := Armed(s, q)])
  {
    var q := Request("x", CredentialRemove, "w", "a");
    var opened' := s.(pairs := map["p" := OPEN]);
    RunTwo(s, PairStartCmd(START), PrepareCmd(q));
    Opens(s, START);
    Arms(opened', q, Proof("x", CredentialRemove, "a", "b", false));
  }

  lemma Fails(armed: Service, s: Service, c: Completion)
    requires c == Proof("x", CredentialRemove, "a", "b", false) && "x" !in s.durable.receipts && "x" !in s.completed
    requires armed == s.(pending := map["x" := Armed(s, Request("x", CredentialRemove, "w", "a"))]) && s.pending == map[]
    ensures Step(armed, CompleteCmd(c)) == s.(durable := s.durable.(statuses := s.durable.statuses["x" := Failed]))
  {
    assert armed.pending - {"x"} == map[];
    assert armed.(pending := map[]) == s;
    assert Retry(armed, c).None?;
    assert CompleteCustodyOf(s, armed.pending["x"], c).0 == s && CompleteCustodyOf(s, armed.pending["x"], c).1.Err?;
  }

  lemma Readies(s: Service, q: Pairing.SourcePrepareRequest)
    requires q == SOURCE_PREPARE && Staged(s, map["p" := OPEN])
    ensures Step(s, PairPrepareCmd(q)) == s.(pairs := map["p" := READY])
  {
    assert Bound(s, "a", "w");
    assert Pairing.OfferedSources(s, q) == {"a"};
    assert "a" in Pairing.OfferedSources(s, q);
    assert AuthorityGeneration(s, Some("w")) == 0;
    assert s.pairs["p" := READY] == map["p" := READY];
  }

  lemma Hands(s: Service, q: Pairing.SourceRequest)
    requires q == SOURCE && Staged(s, map["p" := READY])
    ensures Step(s, PairSourceCmd(q)) == s.(pairs := map["p" := HANDED])
  {
    assert Pairing.Retained(s.pairs, 1) == s.pairs;
    assert Pairing.UnlockedPairs(s.pairs) == {};
    assert Pairing.AttemptSource(s, READY, q) == (HANDED, Ok(()));
    assert s.pairs["p" := HANDED] == map["p" := HANDED];
  }

  lemma HandsOver(s: Service)
    requires Staged(s, map["p" := OPEN])
    ensures Run(s, SourceLeg()) == s.(pairs := map["p" := HANDED])
  {
    RunTwo(s, PairPrepareCmd(SOURCE_PREPARE), PairSourceCmd(SOURCE));
    Readies(s, SOURCE_PREPARE);
    Hands(s.(pairs := map["p" := READY]), SOURCE);
  }

  lemma Enrols(s: Service) returns (h: Holdings)
    requires Staged(s, map["p" := HANDED])
    ensures Enrol(HoldingsOf(s), "w", SECRET, "b", KEY) == Some(h) && FenceAdmits(s.durable, h.wallets, CredentialAdd, Some("w"))
  {
    var w := Wallet(SECRET, Factors.Next(WALLETS["w"].table, Factors.Add(Session(SECRET), "b", KEY, SOME_NONCE, true)));
    assert AddFactor(WALLETS["w"], SECRET, "b", KEY) == Some(w);
    h := Holdings(WALLETS["w" := w], BINDINGS["b" := "w"]);
  }

  lemma Attempts(s: Service, q: Pairing.DestinationRequest, h: Holdings)
    requires q == DESTINATION && Staged(s, map["p" := HANDED]) && Enrol(HoldingsOf(s), "w", SECRET, "b", KEY) == Some(h)
    ensures Pairing.AttemptDestination(s, HANDED, q)
            == (HANDED.(attempts := 2, destinationRecipient := false, unlocked := None), Some(h))
  {
    assert Bound(s, "a", "w");
    assert AuthorityGeneration(s, Some("w")) == 0;
  }

  /** The destination leg commits a receipt under the shared operation and touches no armed ceremony. */
  lemma Completes(s: Service, q: Pairing.DestinationRequest)
    requires q == DESTINATION && Staged(s, map["p" := HANDED])
    ensures var s' := Step(s, PairDestinationCmd(q));
            && "x" in s'.durable.receipts && s'.durable.receipts["x"] == Pairing.PairReceipt(q)
            && "x" in s'.durable.statuses && s'.durable.statuses["x"] == Succeeded
            && "x" !in s'.completed && s'.pending == s.pending
  {
    var h := Enrols(s);
    Attempts(s, q, h);
    assert Pairing.Retained(s.pairs, 1) == s.pairs;
    ReachesCommit(s, q, HANDED.(attempts := 2, destinationRecipient := false, unlocked := None), h);
  }

  lemma ReachesCommit(s: Service, q: Pairing.DestinationRequest, pair: Pair, h: Holdings)
    requires Pairing.Retained(s.pairs, q.now) == s.pairs && q.id in s.pairs && s.pairs[q.id].operation == q.operation
    requires q.operation !in s.durable.receipts && Pairing.AttemptDestination(s, s.pairs[q.id], q) == (pair, Some(h))
    requires pair.prepared.Some? && q.commitOk && FenceAdmits(s.durable, h.wallets, CredentialAdd, Some(pair.prepared.value.wallet))
    ensures var s' := Step(s, PairDestinationCmd(q));
            && s'.durable.receipts == s.durable.receipts[q.operation := Pairing.PairReceipt(q)]
            && s'.durable.statuses == s.durable.statuses[q.operation := Succeeded]
            && s'.completed == s.completed && s'.pending == s.pending
  {
  }

  // ---------------------------------------------------------------- the two failures

  /** A run that takes operation `x` from Terminal(Failed) to Completed. */
  lemma AliasedTerminalReopens()
    ensures var armed := Run(Run(EMPTY, Registration()), Sharing());
            var failed := Step(armed, CompleteCmd(Proof("x", CredentialRemove, "a", "b", false)));
            var handed := Run(failed, SourceLeg());
            && StatusOf(failed, "x") == Terminal(Failed) && StatusOf(handed, "x") == Terminal(Failed)
            && StatusOf(Step(handed, PairDestinationCmd(DESTINATION)), "x") == CompletedWith(Pairing.PairReceipt(DESTINATION))
  {
    Registers();
    var s := Run(EMPTY, Registration());
    Shares(s);
    var paired := s.(pairs := map["p" := OPEN]);
    Fails(Run(s, Sharing()), paired, Proof("x", CredentialRemove, "a", "b", false));
    var failed := paired.(durable := s.durable.(statuses := s.durable.statuses["x" := Failed]));
    HandsOver(failed);
    Completes(failed.(pairs := map["p" := HANDED]), DESTINATION);
  }

  /**
   A run after which operation `x` is completed, still armed and unpaired: cancelling it succeeds
   and overwrites its durable status.
   */
  lemma CompletedOperationCancelled()
    ensures var armed := Run(Run(EMPTY, Registration()), Sharing());
            var completed := Step(Run(armed, SourceLeg()), PairDestinationCmd(DESTINATION));
            var s := Step(completed, ClearCmd);
            var (s', r) := Cancel(s, "x", true);
            && StatusOf(s, "x") == CompletedWith(Pairing.PairReceipt(DESTINATION)) && !HasPair(s.pairs, "x")
            && "x" in s.durable.statuses && s.durable.statuses["x"] == Succeeded
            && r == Ok(()) && "x" in s'.durable.statuses && s'.durable.statuses["x"] == Cancelled
  {
    Registers();
    var start := Run(EMPTY, Registration());
    Shares(start);
    var armed := Run(start, Sharing());
    HandsOver(armed);
    var handed := armed.(pairs := map["p" := HANDED]);
    CompletesThenCancels(handed, DESTINATION);
  }

  lemma CompletesThenCancels(handed: Service, q: Pairing.DestinationRequest)
    requires q == DESTINATION && Staged(handed, map["p" := HANDED]) && "x" in handed.pending
    ensures var s := Step(Step(handed, PairDestinationCmd(q)), ClearCmd);
            var (s', r) := Cancel(s, "x", true);
            && StatusOf(s, "x") == CompletedWith(Pairing.PairReceipt(q)) && !HasPair(s.pairs, "x")
            && "x" in s.durable.statuses && s.durable.statuses["x"] == Succeeded
            && r == Ok(()) && "x" in s'.durable.statuses && s'.durable.statuses["x"] == Cancelled
  {
    Completes(handed, q);
    CancelsArmed(Step(handed, PairDestinationCmd(q)), "x");
  }

  lemma CancelsArmed(completed: Service, op: string)
    requires op in completed.pending && op !in completed.completed
    ensures var s := Step(completed, ClearCmd);
            && s == completed.(pairs := map[]) && !HasPair(s.pairs, op)
            && Cancel(s, op, true)
               == (s.(pending := s.pending - {op}, durable := s.durable.(statuses := s.durable.statuses[op := Cancelled])), Ok(()))
  {
  }
}
