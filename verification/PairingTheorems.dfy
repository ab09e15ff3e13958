/**
 Bounds of the pairing protocol over every run, and what each pairing can do in its life: unlock
 once, enrol once, and enrol only after its own source leg.
 */
module PairingTheorems {
  import opened Limits
  import opened Wrappers
  import opened CeremonyState
  import opened CeremonyRuns
  import opened CeremonyTheorems
  import opened Pairing

  // ---------------------------------------------------------------- bounds

  predicate OperationsDistinct(pairs: map<string, Pair>) {
    forall a, b :: a in pairs && b in pairs && pairs[a].operation == pairs[b].operation ==> a == b
  }

  predicate Bounded(pairs: map<string, Pair>) {
    && |pairs| <= MAX_PAIRS
    && OperationsDistinct(pairs)
    && |UnlockedPairs(pairs)| <= MAX_UNLOCKED
    && (forall id :: id in pairs ==> pairs[id].attempts <= MAX_ATTEMPTS)
  }

  predicate SubPairs(a: map<string, Pair>, b: map<string, Pair>) {
    forall id :: id in a ==> id in b && a[id] == b[id]
  }

  lemma SubBounded(a: map<string, Pair>, b: map<string, Pair>)
    requires SubPairs(a, b) && Bounded(b)
    ensures Bounded(a)
  {
    SubsetSize(a.Keys, b.Keys);
    assert |a| == |a.Keys| && |b| == |b.Keys|;
    SubsetSize(UnlockedPairs(a), UnlockedPairs(b));
  }

  lemma SizesAfterUpdate(pairs: map<string, Pair>, id: string, pair: Pair)
    ensures |pairs[id := pair]| <= |pairs| + if id in pairs then 0 else 1
    ensures |UnlockedPairs(pairs[id := pair])|
            <= |UnlockedPairs(pairs)| + if pair.unlocked.Some? && !(id in pairs && pairs[id].unlocked.Some?) then 1 else 0
  {
    var pairs' := pairs[id := pair];
    assert pairs'.Keys == pairs.Keys + {id};
    assert |pairs'| == |pairs'.Keys| && |pairs| == |pairs.Keys|;
    var grows := pair.unlocked.Some? && !(id in pairs && pairs[id].unlocked.Some?);
    SubsetSize(UnlockedPairs(pairs'), UnlockedPairs(pairs) + if grows then {id} else {});
  }

  lemma DistinctAfterUpdate(pairs: map<string, Pair>, id: string, pair: Pair)
    requires OperationsDistinct(pairs)
    requires (id in pairs && pair.operation == pairs[id].operation) || !HasPair(pairs, pair.operation)
    ensures OperationsDistinct(pairs[id := pair])
  {
  }

  lemma UpdateBounded(pairs: map<string, Pair>, id: string, pair: Pair)
    requires Bounded(pairs) && id in pairs && pair.operation == pairs[id].operation && pair.attempts <= MAX_ATTEMPTS
    requires pair.unlocked.Some? ==> pairs[id].unlocked.Some? || |UnlockedPairs(pairs)| < MAX_UNLOCKED
    ensures Bounded(pairs[id := pair])
  {
    SizesAfterUpdate(pairs, id, pair);
    DistinctAfterUpdate(pairs, id, pair);
  }

  lemma InsertBounded(pairs: map<string, Pair>, q: StartRequest)
    requires Bounded(pairs) && |pairs| < MAX_PAIRS && !HasPair(pairs, q.operation)
    ensures Bounded(pairs[q.id := NewPair(q)])
  {
    SizesAfterUpdate(pairs, q.id, NewPair(q));
    DistinctAfterUpdate(pairs, q.id, NewPair(q));
  }

  lemma AttemptSourceBounds(s: Service, pair: Pair, q: SourceRequest)
    ensures var pair' := AttemptSource(s, pair, q).0;
            pair'.operation == pair.operation && pair'.attempts == pair.attempts + 1
  {
  }

  /** The pairing table after a source leg. */
  lemma SourceShapes(s: Service, q: SourceRequest)
    ensures var kept, after := Retained(s.pairs, q.now), CompleteSource(s, q).0.pairs;
            || after == kept
            || (q.id in kept && !kept[q.id].handoff && |UnlockedPairs(kept)| < MAX_UNLOCKED
                && after == kept[q.id := AttemptSource(s, kept[q.id], q).0])
  {
  }

  lemma SourceBounded(s: Service, q: SourceRequest)
    requires Bounded(s.pairs)
    ensures Bounded(CompleteSource(s, q).0.pairs)
  {
    var kept := Retained(s.pairs, q.now);
    SubBounded(kept, s.pairs);
    SourceShapes(s, q);
    if CompleteSource(s, q).0.pairs != kept {
      AttemptSourceBounds(s, kept[q.id], q);
      UpdateBounded(kept, q.id, AttemptSource(s, kept[q.id], q).0);
    }
  }

  lemma AttemptDestinationBounds(s: Service, pair: Pair, q: DestinationRequest)
    ensures var pair' := AttemptDestination(s, pair, q).0;
            && pair'.operation == pair.operation && pair'.attempts == pair.attempts + 1
            && (pair'.unlocked.Some? ==> pair.unlocked.Some?)
  {
  }

  lemma DestinationBounded(s: Service, q: DestinationRequest)
    requires Bounded(s.pairs)
    ensures Bounded(CompleteDestination(s, q).0.pairs)
  {
    var kept := Retained(s.pairs, q.now);
    SubBounded(kept, s.pairs);
    SubBounded(kept - {q.id}, kept);
    DestinationShapes(s, q);
    if q.id in kept {
      AttemptDestinationBounds(s, kept[q.id], q);
      AttemptBounded(kept, q.id, AttemptDestination(s, kept[q.id], q).0);
    }
  }

  /** The table with one pairing after a counted attempt, as it may be left. */
  lemma AttemptBounded(kept: map<string, Pair>, id: string, pair: Pair)
    requires Bounded(kept) && id in kept && pair.operation == kept[id].operation && pair.attempts <= MAX_ATTEMPTS
    requires pair.unlocked.Some? ==> kept[id].unlocked.Some?
    ensures Bounded(kept[id := pair]) && Bounded(kept[id := pair] - {id})
    ensures Bounded(kept[id := pair.(capability := None, handoff := false)])
  {
    UpdateBounded(kept, id, pair);
    UpdateBounded(kept, id, pair.(capability := None, handoff := false));
    SubBounded(kept[id := pair] - {id}, kept[id := pair]);
  }

  lemma StartBounded(s: Service, q: StartRequest)
    requires Bounded(s.pairs)
    ensures Bounded(Start(s, q).0.pairs)
  {
    var kept := Unexpired(s.pairs, q.now);
    SubBounded(kept, s.pairs);
    StartShapes(s, q);
    if EventOf(s, PairStartCmd(q)).Some? {
      InsertBounded(kept, q);
    }
  }

  lemma PrepareSourceBounded(s: Service, q: SourcePrepareRequest)
    requires Bounded(s.pairs)
    ensures Bounded(PrepareSource(s, q).0.pairs)
  {
    if PrepareSource(s, q).0.pairs != s.pairs {
      UpdateBounded(s.pairs, q.id, PrepareSource(s, q).0.pairs[q.id]);
    }
  }

  lemma StepBounded(s: Service, c: Command)
    requires MemoryIsDurable(s) && Bounded(s.pairs)
    ensures Bounded(Step(s, c).pairs)
  {
    match c
    case PairStartCmd(q) => StartBounded(s, q);
    case PairPrepareCmd(q) => PrepareSourceBounded(s, q);
    case PairSourceCmd(q) => SourceBounded(s, q);
    case PairDestinationCmd(q) => DestinationBounded(s, q);
    case _ =>
      OtherStepsShrinkPairs(s, c);
      SubBounded(Step(s, c).pairs, s.pairs);
  }

  /** At most 64 pairings with distinct operations, 4 unlocked, 5 attempts each, in every reachable state. */
  lemma {:induction false} RunBounded(s: Service, commands: seq<Command>)
    requires Invariant(s) && Bounded(s.pairs)
    ensures Bounded(Run(s, commands).pairs)
    decreases |commands|
  {
    if commands != [] {
      StepBounded(s, commands[0]);
      StepKeepsInvariant(s, commands[0]);
      RunBounded(Step(s, commands[0]), commands[1..]);
    }
  }

  // ---------------------------------------------------------------- the life of a pairing

  datatype Event = Opened(id: string) | Unlocks(id: string) | Enrols(id: string)

  /** What a step does in the life of a pairing. */
  function EventOf(s: Service, c: Command): Option<Event> {
    match c
    case PairStartCmd(q) =>
      if Start(s, q).1.Ok? && !HasStart(Unexpired(s.pairs, q.now), q) then Some(Opened(q.id)) else None
    case PairSourceCmd(q) =>
      if CompleteSource(s, q).1.Ok? && q.id in s.pairs && !s.pairs[q.id].handoff then Some(Unlocks(q.id)) else None
    case PairDestinationCmd(q) => if DestinationCommit(s, q).Some? then Some(Enrols(q.id)) else None
    case _ => None
  }

  function Extend(trace: seq<Event>, e: Option<Event>): seq<Event> {
    if e.Some? then trace + [e.value] else trace
  }

  /** Pairing ids are random digests: an opened id has never been opened before. */
  predicate FreshId(s: Service, c: Command, trace: seq<Event>) {
    EventOf(s, c).Some? && EventOf(s, c).value.Opened? ==> EventOf(s, c).value !in trace
  }

  /** The one-shot keys of a pairing show what it has done. */
  predicate PairLinked(id: string, pair: Pair, trace: seq<Event>) {
    && Opened(id) in trace
    && (Unlocks(id) in trace ==> pair.prepared.Some? && !pair.sourceRecipient)
    && (Enrols(id) in trace ==> pair.prepared.Some? && !pair.destinationRecipient)
    && (pair.unlocked.Some? ==> Unlocks(id) in trace)
  }

  predicate PairsLinked(pairs: map<string, Pair>, trace: seq<Event>) {
    forall id :: id in pairs ==> PairLinked(id, pairs[id], trace)
  }

  /** No event happens twice; an enrolment comes after the same pairing's unlock, after its opening. */
  ghost predicate Orderly(trace: seq<Event>) {
    && (forall i, j :: 0 <= i < j < |trace| ==> trace[i] != trace[j])
    && (forall i :: 0 <= i < |trace| && trace[i].Unlocks? ==> Opened(trace[i].id) in trace[..i])
    && (forall i :: 0 <= i < |trace| && trace[i].Enrols? ==> Unlocks(trace[i].id) in trace[..i])
  }

  lemma OrderlyExtends(trace: seq<Event>, e: Event)
    requires Orderly(trace) && e !in trace
    requires e.Unlocks? ==> Opened(e.id) in trace
    requires e.Enrols? ==> Unlocks(e.id) in trace
    ensures Orderly(trace + [e])
  {
    var t := trace + [e];
    forall i | 0 <= i < |t| ensures t[..i] == trace[..i] {
    }
    assert trace[..|trace|] == trace;
  }

  /** Nothing opens for an id the trace has not opened. */
  lemma NoLifeBeforeOpening(trace: seq<Event>, id: string)
    requires Orderly(trace) && Opened(id) !in trace
    ensures Unlocks(id) !in trace && Enrols(id) !in trace
  {
  }

  /** How one pairing's keys can change in a step. */
  predicate KeysOnlyConsumed(before: Pair, after: Pair, unlocked: bool, enrolled: bool) {
    && (before.prepared.Some? ==>
          && after.prepared.Some?
          && (after.sourceRecipient ==> before.sourceRecipient && !unlocked)
          && (after.destinationRecipient ==> before.destinationRecipient && !enrolled))
    && (after.unlocked.Some? ==> before.unlocked.Some? || unlocked)
    && (unlocked ==> before.prepared.Some? && before.sourceRecipient)
    && (enrolled ==> before.prepared.Some? && before.destinationRecipient && before.unlocked.Some?)
  }

  lemma LinkedKept(id: string, before: Pair, after: Pair, trace: seq<Event>, e: Option<Event>)
    requires PairLinked(id, before, trace) && KeysOnlyConsumed(before, after, e == Some(Unlocks(id)), e == Some(Enrols(id)))
    ensures PairLinked(id, after, Extend(trace, e))
  {
  }

  lemma SourceAttemptKeys(s: Service, pair: Pair, q: SourceRequest)
    ensures var (pair', r) := AttemptSource(s, pair, q);
            KeysOnlyConsumed(pair, pair', r.Ok?, false)
  {
  }

  lemma DestinationAttemptKeys(s: Service, pair: Pair, q: DestinationRequest)
    ensures var (pair', edited) := AttemptDestination(s, pair, q);
            KeysOnlyConsumed(pair, pair', false, edited.Some?) && KeysOnlyConsumed(pair, pair', false, false)
  {
  }

  lemma SourceLinked(s: Service, q: SourceRequest, trace: seq<Event>)
    requires PairsLinked(s.pairs, trace)
    ensures PairsLinked(CompleteSource(s, q).0.pairs, Extend(trace, EventOf(s, PairSourceCmd(q))))
    ensures EventOf(s, PairSourceCmd(q)).Some? ==> q.id in s.pairs && Unlocks(q.id) !in trace && Opened(q.id) in trace
  {
    var kept, e := Retained(s.pairs, q.now), EventOf(s, PairSourceCmd(q));
    if q.id in kept {
      SourceAttemptKeys(s, kept[q.id], q);
    }
    forall id | id in CompleteSource(s, q).0.pairs
      ensures PairLinked(id, CompleteSource(s, q).0.pairs[id], Extend(trace, e))
    {
      assert PairLinked(id, s.pairs[id], trace);
      LinkedKept(id, s.pairs[id], CompleteSource(s, q).0.pairs[id], trace, e);
    }
    if e.Some? {
      assert PairLinked(q.id, s.pairs[q.id], trace);
    }
  }

  lemma DestinationLinked(s: Service, q: DestinationRequest, trace: seq<Event>)
    requires PairsLinked(s.pairs, trace)
    ensures PairsLinked(CompleteDestination(s, q).0.pairs, Extend(trace, EventOf(s, PairDestinationCmd(q))))
    ensures EventOf(s, PairDestinationCmd(q)).Some? ==> q.id in s.pairs && Enrols(q.id) !in trace && Unlocks(q.id) in trace
  {
    var kept, e := Retained(s.pairs, q.now), EventOf(s, PairDestinationCmd(q));
    var after := CompleteDestination(s, q).0.pairs;
    DestinationShapes(s, q);
    if q.id in kept {
      DestinationAttemptKeys(s, kept[q.id], q);
    }
    if e.Some? {
      assert PairLinked(q.id, s.pairs[q.id], trace);
    }
    forall id | id in after ensures PairLinked(id, after[id], Extend(trace, e)) {
      assert PairLinked(id, s.pairs[id], trace);
      LinkedKept(id, s.pairs[id], after[id], trace, e);
    }
  }

  /** The pairing table after an opening. */
  lemma StartShapes(s: Service, q: StartRequest)
    ensures var kept, after := Unexpired(s.pairs, q.now), Start(s, q).0.pairs;
            if EventOf(s, PairStartCmd(q)).Some? then
              after == kept[q.id := NewPair(q)] && |kept| < MAX_PAIRS && !HasPair(kept, q.operation)
            else after == kept || after == s.pairs
  {
  }

  lemma StartLinked(s: Service, q: StartRequest, trace: seq<Event>)
    requires PairsLinked(s.pairs, trace) && Orderly(trace) && FreshId(s, PairStartCmd(q), trace)
    ensures PairsLinked(Start(s, q).0.pairs, Extend(trace, EventOf(s, PairStartCmd(q))))
  {
    var e, after := EventOf(s, PairStartCmd(q)), Start(s, q).0.pairs;
    StartShapes(s, q);
    if e.Some? {
      NoLifeBeforeOpening(trace, q.id);
      forall id | id in after ensures PairLinked(id, after[id], trace + [Opened(q.id)]) {
        if id != q.id {
          assert PairLinked(id, s.pairs[id], trace);
        }
      }
    }
  }

  lemma SubLinked(a: map<string, Pair>, b: map<string, Pair>, trace: seq<Event>)
    requires SubPairs(a, b) && PairsLinked(b, trace)
    ensures PairsLinked(a, trace)
  {
  }

  lemma PrepareSourceLinked(s: Service, q: SourcePrepareRequest, trace: seq<Event>)
    requires PairsLinked(s.pairs, trace)
    ensures PairsLinked(PrepareSource(s, q).0.pairs, trace)
  {
  }

  /** The trace and the pairing table stay linked, and the trace stays orderly. */
  lemma StepLinked(s: Service, c: Command, trace: seq<Event>)
    requires Invariant(s) && PairsLinked(s.pairs, trace) && Orderly(trace) && FreshId(s, c, trace)
    ensures PairsLinked(Step(s, c).pairs, Extend(trace, EventOf(s, c))) && Orderly(Extend(trace, EventOf(s, c)))
  {
    match c
    case PairStartCmd(q) =>
      StartLinked(s, q, trace);
      if EventOf(s, c).Some? {
        OrderlyExtends(trace, EventOf(s, c).value);
      }
    case PairSourceCmd(q) =>
      SourceLinked(s, q, trace);
      if EventOf(s, c).Some? {
        OrderlyExtends(trace, EventOf(s, c).value);
      }
    case PairDestinationCmd(q) =>
      DestinationLinked(s, q, trace);
      if EventOf(s, c).Some? {
        OrderlyExtends(trace, EventOf(s, c).value);
      }
    case PairPrepareCmd(q) => PrepareSourceLinked(s, q, trace);
    case _ =>
      OtherStepsShrinkPairs(s, c);
      SubLinked(Step(s, c).pairs, s.pairs, trace);
  }

  lemma OtherStepsShrinkPairs(s: Service, c: Command)
    requires MemoryIsDurable(s)
    requires !c.PairStartCmd? && !c.PairSourceCmd? && !c.PairDestinationCmd? && !c.PairPrepareCmd?
    ensures SubPairs(Step(s, c).pairs, s.pairs)
  {
    forall id | id in Step(s, c).pairs ensures id in s.pairs && Step(s, c).pairs[id] == s.pairs[id] {
      OtherPairFrame(s, c, id);
    }
  }

  /** The events of a run. */
  function Trace(s: Service, commands: seq<Command>, trace: seq<Event>): seq<Event>
    decreases |commands|
  {
    if commands == [] then trace
    else Trace(Step(s, commands[0]), commands[1..], Extend(trace, EventOf(s, commands[0])))
  }

  predicate FreshIds(s: Service, commands: seq<Command>, trace: seq<Event>)
    decreases |commands|
  {
    commands != [] ==>
      && FreshId(s, commands[0], trace)
      && FreshIds(Step(s, commands[0]), commands[1..], Extend(trace, EventOf(s, commands[0])))
  }

  lemma {:induction false} RunLinked(s: Service, commands: seq<Command>, trace: seq<Event>)
    requires Invariant(s) && PairsLinked(s.pairs, trace) && Orderly(trace) && FreshIds(s, commands, trace)
    ensures Orderly(Trace(s, commands, trace))
    decreases |commands|
  {
    if commands != [] {
      StepLinked(s, commands[0], trace);
      StepKeepsInvariant(s, commands[0]);
      RunLinked(Step(s, commands[0]), commands[1..], Extend(trace, EventOf(s, commands[0])));
    }
  }

  /**
   Over every run from an empty service: the bounds hold, each pairing unlocks at most once and
   enrols at most once, and an enrolment is preceded by the same pairing's unlock.
   */
  lemma PairingLife(commands: seq<Command>)
    requires FreshIds(EMPTY, commands, [])
    ensures Bounded(Run(EMPTY, commands).pairs)
    ensures Orderly(Trace(EMPTY, commands, []))
  {
    RunBounded(EMPTY, commands);
    RunLinked(EMPTY, commands, []);
  }
}
