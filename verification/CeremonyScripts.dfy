/** Ingredients of concrete runs: requests, completions, and a ceremony that goes through. */
module CeremonyScripts {
  import opened Wrappers
  import opened CeremonyState
  import opened Ceremony
  import opened CeremonyRuns
  import Custody

  const KEY: string := "01234567890123456789012345678901"
  const SECRET: Custody.Secret := Custody.Secret(KEY, KEY, KEY)

  function Request(op: string, kind: Kind, wallet: string, target: string): PrepareRequest {
    PrepareRequest(op, kind, "request", Some(wallet), Some(target), "ceremony", 100, true)
  }

  /** A completion in time by credential `authority`, enrolling credential `newId` where its kind does. */
  function Proof(op: string, kind: Kind, authority: string, newId: string, proofOk: bool): Completion {
    Completion(op, kind, "ceremony", 1, "digest", proofOk, true, true, true, true, true,
               authority, KEY, newId, KEY, "", "", "", "", SECRET, false, false, false)
  }

  lemma RunTwo(s: Service, c: Command, d: Command)
    ensures Run(s, [c, d]) == Step(Step(s, c), d)
  {
    assert [c, d][1..] == [d] && [d][1..] == [];
    assert Run(s, [c, d]) == Run(Step(s, c), [c, d][1..]);
    assert Run(Step(s, c), [d]) == Run(Step(Step(s, c), d), [d][1..]);
  }

  lemma {:induction false} RunConcat(s: Service, a: seq<Command>, b: seq<Command>)
    ensures Run(s, a + b) == Run(Run(s, a), b)
    decreases |a|
  {
    if a == [] {
      assert a + b == b;
    } else {
      assert (a + b)[1..] == a[1..] + b;
      RunConcat(Step(s, a[0]), a[1..], b);
    }
  }

  function Armed(s: Service, q: PrepareRequest): Pending {
    Pending(q.kind, q.ceremony, q.request, q.wallet, q.target, AuthorityGeneration(s, q.wallet), q.expires)
  }

  /** The service after a custody ceremony committed the edit `h`. */
  function After(s: Service, q: PrepareRequest, c: Completion, h: Holdings): Service {
    var receipt := Receipt(q.kind, q.ceremony, c.digest);
    Service(Durable(s.durable.receipts[q.operation := receipt], s.durable.statuses[q.operation := Succeeded],
                    AdvanceFence(s.durable.fence, h.wallets), h.wallets, h.credentials),
            map[], s.completed[q.operation := receipt], s.pairs, h.wallets, h.credentials)
  }

  /** A fresh operation in an idle service. */
  predicate Ready(s: Service, q: PrepareRequest, c: Completion) {
    && q.admissible && q.operation == c.operation && q.kind == c.kind && q.ceremony == c.ceremony && c.now < q.expires
    && q.kind != SealedApproval && q.wallet.Some? && c.commitOk && c.cleanupOk
    && s.pending == map[] && q.operation !in s.completed && Unopened(s.durable, q.operation)
    && (CreatesWallet(q.kind) ==> q.wallet.value !in s.wallets)
  }

  lemma Arms(s: Service, q: PrepareRequest, c: Completion)
    requires Ready(s, q, c)
    ensures Step(s, PrepareCmd(q)) == s.(pending := map[q.operation := Armed(s, q)])
  {
    assert s.pending[q.operation := Armed(s, q)] == map[q.operation := Armed(s, q)];
  }

  lemma Commits(s: Service, q: PrepareRequest, c: Completion, h: Holdings)
    requires Ready(s, q, c) && ApplyCustody(HoldingsOf(s), Armed(s, q), c) == Some(h)
    requires FenceAdmits(s.durable, h.wallets, q.kind, q.wallet)
    ensures CompleteCustodyOf(s, Armed(s, q), c) == (After(s, q, c, h), Ok(Receipt(q.kind, q.ceremony, c.digest)))
  {
  }

  /** Prepare, then complete. */
  lemma GoesThrough(s: Service, q: PrepareRequest, c: Completion, h: Holdings)
    requires Ready(s, q, c) && ApplyCustody(HoldingsOf(s), Armed(s, q), c) == Some(h)
    requires FenceAdmits(s.durable, h.wallets, q.kind, q.wallet)
    ensures Run(s, [PrepareCmd(q), CompleteCmd(c)]) == After(s, q, c, h)
  {
    RunTwo(s, PrepareCmd(q), CompleteCmd(c));
    Arms(s, q, c);
    Commits(s, q, c, h);
    Consuming(s.(pending := map[q.operation := Armed(s, q)]), s, q, c);
  }

  /** Completing the only armed ceremony acts on the service without it. */
  lemma Consuming(armed: Service, s: Service, q: PrepareRequest, c: Completion)
    requires Ready(s, q, c) && armed == s.(pending := map[q.operation := Armed(s, q)])
    requires CompleteCustodyOf(s, Armed(s, q), c).1.Ok?
    ensures Step(armed, CompleteCmd(c)) == CompleteCustodyOf(s, Armed(s, q), c).0
  {
    assert armed.pending - {c.operation} == map[];
    assert armed.(pending := map[]) == s;
    assert Retry(armed, c).None?;
  }
}
