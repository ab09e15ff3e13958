/**
 Cross-surface pairing: a destination tab opens a pairing, a source passkey unlocks the wallet for
 it, and the destination enrols one new passkey with the capability it was handed.
 */
module Pairing {
  import opened Limits
  import opened Wrappers
  import opened CeremonyState

  const MAX_PAIRS: nat := 64
  const MAX_UNLOCKED: nat := 4
  const MAX_ATTEMPTS: nat := 5
  const CROSS_PAIR_TTL_MS: nat := 10 * 60 * 1_000

  datatype StartRequest = StartRequest(
    id: string, operation: string, destination: string, terms: string, publicKey: string, expires: nat,
    now: nat, surfaceOk: bool, keyOk: bool)

  datatype SourcePrepareRequest = SourcePrepareRequest(
    id: string, operation: string, terms: string, surface: string, wallet: string, sources: set<string>, hasExisting: bool,
    now: nat, sourceOk: bool, destinationOk: bool)

  datatype SourceRequest = SourceRequest(
    id: string, operation: string, digest: string, now: nat, surfaceOk: bool, assertionOk: bool, openOk: bool,
    credential: string, key: string, capability: string)

  datatype DestinationRequest = DestinationRequest(
    id: string, operation: string, digest: string, now: nat, sourceOk: bool, destinationOk: bool, sourceSurfaceOk: bool,
    capability: string, attestationOk: bool, openOk: bool, bindingOk: bool, commitOk: bool, newId: string, newKey: string)

  datatype AlreadyRequest = AlreadyRequest(id: string, operation: string, now: nat, capability: string, statusOk: bool)

  // ---------------------------------------------------------------- table queries

  function Unexpired(pairs: map<string, Pair>, now: nat): map<string, Pair> {
    map id | id in pairs && pairs[id].expires > now :: pairs[id]
  }

  /** What the completion legs keep: unexpired pairings with attempts left. */
  function Retained(pairs: map<string, Pair>, now: nat): map<string, Pair> {
    map id | id in pairs && pairs[id].expires > now && pairs[id].attempts < MAX_ATTEMPTS :: pairs[id]
  }

  function UnlockedPairs(pairs: map<string, Pair>): set<string> {
    set id | id in pairs && pairs[id].unlocked.Some?
  }

  predicate BusyWallet(pairs: map<string, Pair>, wallet: string, id: string) {
    exists other :: other in pairs && other != id && (pairs[other].unlocked.Some? || pairs[other].handoff)
                    && pairs[other].prepared.Some? && pairs[other].prepared.value.wallet == wallet
  }

  predicate SameStart(p: Pair, q: StartRequest) {
    p.operation == q.operation && p.destination == q.destination && p.expires == q.expires && p.terms == q.terms
    && p.publicKey == q.publicKey
  }

  function NewPair(q: StartRequest): Pair {
    Pair(q.operation, q.destination, q.terms, q.publicKey, q.expires, None, false, false, None, None, None, false, None, 0)
  }

  // ---------------------------------------------------------------- opening and preparing

  predicate DeadlineOk(q: StartRequest) {
    q.now < q.expires && q.expires <= SaturatingAdd(q.now, CROSS_PAIR_TTL_MS)
  }

  predicate HasStart(pairs: map<string, Pair>, q: StartRequest) {
    exists id :: id in pairs && SameStart(pairs[id], q)
  }

  function OpenPair(kept: map<string, Pair>, q: StartRequest): (map<string, Pair>, Result<(), Refusal>) {
    if HasStart(kept, q) then (kept, Ok(()))
    else if HasPair(kept, q.operation) then (kept, Err(Conflict))
    else if |kept| >= MAX_PAIRS then (kept, Err(Unavailable))
    else (kept[q.id := NewPair(q)], Ok(()))
  }

  /** `cross_surface_pair_start`: it consults the durable outcomes, not the armed ceremonies. */
  function Start(s: Service, q: StartRequest): (Service, Result<(), Refusal>) {
    if !q.surfaceOk || !DeadlineOk(q) || !q.keyOk then (s, Err(Rejected))
    else if !Unopened(s.durable, q.operation) then (s, Err(TerminalConflict))
    else
      var (pairs, r) := OpenPair(Unexpired(s.pairs, q.now), q);
      (s.(pairs := pairs), r)
  }

  /** Passkeys the source surface offers are passkeys of the wallet. */
  function OfferedSources(s: Service, q: SourcePrepareRequest): set<string> {
    set id | id in q.sources && Bound(s, id, q.wallet)
  }

  /** `cross_surface_prepare_source`. */
  function PrepareSource(s: Service, q: SourcePrepareRequest): (Service, Result<Prepared, Refusal>) {
    if !q.sourceOk || q.wallet !in s.wallets then (s, Err(Rejected))
    else if BusyWallet(s.pairs, q.wallet, q.id) then (s, Err(Conflict))
    else if q.id !in s.pairs then (s, Err(Replay))
    else
      var pair := s.pairs[q.id];
      if q.now >= pair.expires || pair.operation != q.operation || pair.terms != q.terms then (s, Err(Conflict))
      else if pair.prepared.Some? then
        if pair.prepared.value.surface == q.surface && pair.prepared.value.wallet == q.wallet then (s, Ok(pair.prepared.value))
        else (s, Err(Conflict))
      else if !q.destinationOk || OfferedSources(s, q) == {} then (s, Err(Rejected))
      else
        var prepared := Prepared(q.surface, q.wallet, AuthorityGeneration(s, Some(q.wallet)), OfferedSources(s, q), q.hasExisting);
        var pair' := pair.(prepared := Some(prepared), sourceRecipient := true, destinationRecipient := true);
        (s.(pairs := s.pairs[q.id := pair']), Ok(prepared))
  }

  // ---------------------------------------------------------------- source leg

  /** One counted attempt of the source leg; the recipient key is consumed before it is tried. */
  function AttemptSource(s: Service, pair: Pair, q: SourceRequest): (Pair, Result<(), Refusal>) {
    var tried := pair.(attempts := pair.attempts + 1);
    if tried.prepared.None? then (tried, Err(Replay))
    else
      var prepared := tried.prepared.value;
      if !q.surfaceOk || q.credential !in prepared.sources then (tried, Err(Rejected))
      else if AuthorityGeneration(s, Some(prepared.wallet)) != prepared.generation then (tried, Err(Replay))
      else if !q.assertionOk then (tried, Err(Rejected))
      else if !tried.sourceRecipient then (tried, Err(Replay))
      else
        var spent := tried.(sourceRecipient := false);
        if !q.openOk || prepared.wallet !in s.wallets
           || !CredentialUnlocks(s.wallets[prepared.wallet], q.credential, q.key) then (spent, Err(Rejected))
        else
          (spent.(unlocked := Some(s.wallets[prepared.wallet].secret), source := Some(q.credential),
                   capability := Some(q.capability), handoff := true, sourceDigest := Some(q.digest)), Ok(()))
  }

  function SourcePairs(s: Service, kept: map<string, Pair>, q: SourceRequest): (map<string, Pair>, Result<(), Refusal>) {
    if |UnlockedPairs(kept)| >= MAX_UNLOCKED && (q.id !in kept || !kept[q.id].handoff) then (kept, Err(Unavailable))
    else if q.id !in kept then (kept, Err(Replay))
    else
      var pair := kept[q.id];
      if pair.operation != q.operation then (kept, Err(Conflict))
      else if pair.handoff then (kept, if pair.sourceDigest == Some(q.digest) then Ok(()) else Err(Conflict))
      else
        var (pair', r) := AttemptSource(s, pair, q);
        (kept[q.id := pair'], r)
  }

  /** `cross_surface_complete_source`. */
  function CompleteSource(s: Service, q: SourceRequest): (Service, Result<(), Refusal>) {
    var (pairs, r) := SourcePairs(s, Retained(s.pairs, q.now), q);
    (s.(pairs := pairs), r)
  }

  // ---------------------------------------------------------------- destination leg

  function PairReceipt(q: DestinationRequest): Receipt { Receipt(CredentialAdd, q.id, q.digest) }

  /** One counted attempt of the destination leg, up to the wallet edit it may commit. */
  function AttemptDestination(s: Service, pair: Pair, q: DestinationRequest): (Pair, Option<Holdings>) {
    var tried := pair.(attempts := pair.attempts + 1);
    if tried.prepared.None? || !q.sourceOk || !q.destinationOk || tried.source.None? then (tried, None)
    else
      var prepared := tried.prepared.value;
      if !Bound(s, tried.source.value, prepared.wallet) || !q.sourceSurfaceOk || tried.capability != Some(q.capability)
         || AuthorityGeneration(s, Some(prepared.wallet)) != prepared.generation
         || !q.attestationOk || !tried.destinationRecipient then (tried, None)
      else
        var spent := tried.(destinationRecipient := false);
        if !q.openOk || spent.unlocked.None? then (spent, None)
        else
          (spent.(unlocked := None),
           if q.bindingOk then Enrol(HoldingsOf(s), prepared.wallet, spent.unlocked.value, q.newId, q.newKey) else None)
  }

  /** After a failed destination leg: the pairing can never complete. */
  predicate Dead(s: Service, pair: Pair, q: DestinationRequest) {
    || pair.attempts >= MAX_ATTEMPTS
    || pair.expires <= q.now
    || (pair.prepared.Some? && !pair.destinationRecipient)
    || (pair.sourceDigest.Some? && pair.unlocked.None?)
    || (pair.prepared.Some?
        && (!q.sourceOk || !q.destinationOk
            || AuthorityGeneration(s, Some(pair.prepared.value.wallet)) != pair.prepared.value.generation
            || (pair.sourceDigest.Some?
                && (pair.source.None? || !Bound(s, pair.source.value, pair.prepared.value.wallet)))))
  }

  /** Drop the named pairing after a failure when it is dead. */
  function Bury(s: Service, q: DestinationRequest): Service {
    if q.id in s.pairs && Dead(s, s.pairs[q.id], q) then s.(pairs := s.pairs - {q.id}) else s
  }

  /** The wallet edit and its commit; the snapshot is put back when either fails. */
  function CommitDestination(s: Service, kept: map<string, Pair>, q: DestinationRequest, pair: Pair, edited: Option<Holdings>)
    : (Service, Result<Receipt, Refusal>)
  {
    var tried := s.(pairs := kept[q.id := pair]);
    if edited.None? || pair.prepared.None? then (Bury(tried, q), Err(Rejected))
    else match CommitCustody(s.durable, edited.value, q.operation, PairReceipt(q), Some(pair.prepared.value.wallet), q.commitOk)
      case None => (Bury(tried, q), Err(Unavailable))
      case Some(d) =>
        (WithHoldings(s.(durable := d, pairs := kept[q.id := pair.(capability := None, handoff := false)]), edited.value),
         Ok(PairReceipt(q)))
  }

  /** `cross_surface_complete_destination`. */
  function CompleteDestination(s: Service, q: DestinationRequest): (Service, Result<Receipt, Refusal>) {
    var kept := Retained(s.pairs, q.now);
    if q.id !in kept then (s.(pairs := kept), Err(Replay))
    else if kept[q.id].operation != q.operation then (Bury(s.(pairs := kept), q), Err(Conflict))
    else if CustodyReceipt(s.durable, q.operation).Some? then
      (s.(pairs := kept), Ok(CustodyReceipt(s.durable, q.operation).value))
    else
      var (pair, edited) := AttemptDestination(s, kept[q.id], q);
      CommitDestination(s, kept, q, pair, edited)
  }

  /** `cross_surface_already_registered`: end the pairing with nothing enrolled. */
  function AlreadyRegisteredHere(s: Service, q: AlreadyRequest): (Service, Result<(), Refusal>) {
    if q.id !in s.pairs then
      (s, if q.operation in s.durable.statuses && s.durable.statuses[q.operation] == AlreadyRegistered then Ok(()) else Err(Replay))
    else
      var pair := s.pairs[q.id];
      if pair.operation != q.operation then (s, Err(Conflict))
      else if q.now >= pair.expires then (s, Err(Replay))
      else if CustodyReceipt(s.durable, q.operation).Some? then (s, Err(CommittedConflict))
      else if pair.prepared.None? || !pair.prepared.value.hasExisting then (s, Err(Conflict))
      else if pair.capability != Some(q.capability) then (s, Err(Rejected))
      else match PersistStatus(s.durable, q.operation, AlreadyRegistered, q.statusOk)
        case None => (s, Err(Unavailable))
        case Some(d) => (s.(durable := d, pairs := s.pairs - {q.id}), Ok(()))
  }

  function Expire(s: Service, now: nat): Service { s.(pairs := Retained(s.pairs, now)) }

  function Clear(s: Service): Service { s.(pairs := map[]) }
}
