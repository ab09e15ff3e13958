/**
 The provider-call limiter: a queue of admitted call times, pruned from the front on every call.
 */
module RateLimiter {
  import opened Limits

  const WINDOW_MS: nat := 1_000

  type U64 = n: nat | n <= U64_MAX

  datatype Attempt = Attempt(now: U64, deadline: U64)

  /** The queue without the calls at its front that left the window. */
  function Pruned(calls: seq<nat>, now: nat): seq<nat> {
    if calls != [] && SaturatingAdd(calls[0], WINDOW_MS) <= now then Pruned(calls[1..], now) else calls
  }

  /** `admit_provider_call` as a function of the queue. */
  function Admit(calls: seq<nat>, maximum: nat, a: Attempt): (seq<nat>, bool) {
    if a.deadline <= a.now then (calls, false)
    else
      var kept := Pruned(calls, a.now);
      if |kept| >= maximum then (kept, false) else (kept + [a.now], true)
  }

  class Limiter {
    const maximum: nat
    var calls: seq<nat>

    constructor (maximum: nat)
      ensures this.maximum == maximum && calls == []
    {
      this.maximum := maximum;
      calls := [];
    }

    method AdmitProviderCall(a: Attempt) returns (admitted: bool)
      modifies this
      ensures (calls, admitted) == Admit(old(calls), maximum, a)
    {
      if a.deadline <= a.now {
        return false;
      }
      while calls != [] && SaturatingAdd(calls[0], WINDOW_MS) <= a.now
        invariant Pruned(calls, a.now) == Pruned(old(calls), a.now)
        decreases |calls|
      {
        calls := calls[1..];
      }
      if |calls| >= maximum {
        return false;
      }
      calls := calls + [a.now];
      return true;
    }
  }

  // ---------------------------------------------------------------- history

  /** The queue and every call ever admitted. */
  datatype Log = Log(calls: seq<nat>, admitted: seq<nat>)

  function Record(log: Log, maximum: nat, a: Attempt): Log {
    var (calls, ok) := Admit(log.calls, maximum, a);
    Log(calls, if ok then log.admitted + [a.now] else log.admitted)
  }

  function Run(log: Log, maximum: nat, attempts: seq<Attempt>): Log
    decreases |attempts|
  {
    if attempts == [] then log else Run(Record(log, maximum, attempts[0]), maximum, attempts[1..])
  }

  const START: Log := Log([], [])

  /** A clock that never goes back. */
  predicate Monotone(attempts: seq<Attempt>, since: nat) {
    && (forall i :: 0 <= i < |attempts| ==> since <= attempts[i].now)
    && (forall i, j :: 0 <= i < j < |attempts| ==> attempts[i].now <= attempts[j].now)
  }

  predicate Sorted(s: seq<nat>) { forall i, j :: 0 <= i < j < |s| ==> s[i] <= s[j] }

  /** The admitted calls that are still inside the window at time `now`. */
  function Recent(admitted: seq<nat>, now: nat): seq<nat> {
    if admitted == [] then []
    else if admitted[0] + WINDOW_MS <= now then Recent(admitted[1..], now)
    else [admitted[0]] + Recent(admitted[1..], now)
  }

  /** Any `maximum` + 1 admitted calls span a whole window. */
  ghost predicate Spaced(admitted: seq<nat>, maximum: nat) {
    forall i, j :: 0 <= i <= j < |admitted| && j == i + maximum ==> admitted[i] + WINDOW_MS <= admitted[j]
  }

  /** The queue is the tail of the history; what was dropped had left the window at time `now`. */
  ghost predicate Consistent(log: Log, maximum: nat, now: nat) {
    && |log.calls| <= |log.admitted| && |log.calls| <= maximum
    && log.calls == log.admitted[|log.admitted| - |log.calls|..]
    && Sorted(log.admitted) && Spaced(log.admitted, maximum)
    && (forall i :: 0 <= i < |log.admitted| ==> log.admitted[i] <= now)
    && (forall i :: 0 <= i < |log.admitted| - |log.calls| ==> log.admitted[i] + WINDOW_MS <= now)
  }

  /** Pruning the tail of a sorted history drops exactly the calls that left the window. */
  lemma {:induction false} PrunedTail(admitted: seq<nat>, n: nat, now: nat) returns (m: nat)
    requires Sorted(admitted) && n <= |admitted| && now < U64_MAX
    requires forall i :: 0 <= i < |admitted| ==> admitted[i] <= now
    requires forall i :: 0 <= i < n ==> admitted[i] + WINDOW_MS <= now
    ensures n <= m <= |admitted| && Pruned(admitted[n..], now) == admitted[m..]
    ensures forall i :: 0 <= i < m ==> admitted[i] + WINDOW_MS <= now
    ensures forall i :: m <= i < |admitted| ==> now < admitted[i] + WINDOW_MS
    decreases |admitted| - n
  {
    if n < |admitted| && admitted[n] + WINDOW_MS <= now {
      assert admitted[n..][1..] == admitted[n + 1..];
      m := PrunedTail(admitted, n + 1, now);
    } else {
      m := n;
    }
  }

  /** The queue after an attempt that is in time: the part of the history still in the window, and perhaps now. */
  lemma RecordSplit(log: Log, maximum: nat, since: nat, a: Attempt) returns (m: nat)
    requires Consistent(log, maximum, since) && since <= a.now && a.now < a.deadline
    ensures m <= |log.admitted|
    ensures forall i :: 0 <= i < m ==> log.admitted[i] + WINDOW_MS <= a.now
    ensures forall i :: m <= i < |log.admitted| ==> a.now < log.admitted[i] + WINDOW_MS
    ensures |log.admitted| - m <= maximum
    ensures Record(log, maximum, a)
            == if |log.admitted| - m >= maximum then Log(log.admitted[m..], log.admitted)
               else Log(log.admitted[m..] + [a.now], log.admitted + [a.now])
  {
    m := PrunedTail(log.admitted, |log.admitted| - |log.calls|, a.now);
  }

  lemma TailConsistent(admitted: seq<nat>, m: nat, maximum: nat, now: nat)
    requires m <= |admitted| && |admitted| - m <= maximum
    requires Sorted(admitted) && Spaced(admitted, maximum)
    requires forall i :: 0 <= i < |admitted| ==> admitted[i] <= now
    requires forall i :: 0 <= i < m ==> admitted[i] + WINDOW_MS <= now
    ensures Consistent(Log(admitted[m..], admitted), maximum, now)
  {
  }

  lemma PushConsistent(admitted: seq<nat>, m: nat, maximum: nat, now: nat)
    requires m <= |admitted| && |admitted| - m < maximum
    requires Sorted(admitted) && Spaced(admitted, maximum)
    requires forall i :: 0 <= i < |admitted| ==> admitted[i] <= now
    requires forall i :: 0 <= i < m ==> admitted[i] + WINDOW_MS <= now
    ensures Consistent(Log(admitted[m..] + [now], admitted + [now]), maximum, now)
  {
  }

  lemma RecordConsistent(log: Log, maximum: nat, since: nat, a: Attempt)
    requires Consistent(log, maximum, since) && since <= a.now
    ensures Consistent(Record(log, maximum, a), maximum, a.now)
  {
    if a.now < a.deadline {
      var m := RecordSplit(log, maximum, since, a);
      if |log.admitted| - m < maximum {
        PushConsistent(log.admitted, m, maximum, a.now);
      } else {
        TailConsistent(log.admitted, m, maximum, a.now);
      }
    } else {
      TailConsistent(log.admitted, |log.admitted| - |log.calls|, maximum, a.now);
    }
  }

  lemma {:induction false} RunConsistent(log: Log, maximum: nat, since: nat, attempts: seq<Attempt>)
    requires Consistent(log, maximum, since) && Monotone(attempts, since)
    ensures Consistent(Run(log, maximum, attempts), maximum, if attempts == [] then since else attempts[|attempts| - 1].now)
    decreases |attempts|
  {
    if attempts != [] {
      var a := attempts[0];
      RecordConsistent(log, maximum, since, a);
      MonotoneRest(attempts, since);
      RunConsistent(Record(log, maximum, a), maximum, a.now, attempts[1..]);
    }
  }

  lemma MonotoneRest(attempts: seq<Attempt>, since: nat)
    requires attempts != [] && Monotone(attempts, since)
    ensures since <= attempts[0].now && Monotone(attempts[1..], attempts[0].now)
    ensures |attempts| > 1 ==> attempts[1..][|attempts| - 2] == attempts[|attempts| - 1]
  {
  }

  lemma {:induction false} RecentTail(admitted: seq<nat>, n: nat, now: nat)
    requires n <= |admitted|
    requires forall i :: 0 <= i < n ==> admitted[i] + WINDOW_MS <= now
    requires forall i :: n <= i < |admitted| ==> now < admitted[i] + WINDOW_MS
    ensures Recent(admitted, now) == admitted[n..]
    decreases |admitted|
  {
    if admitted != [] {
      var m := if n > 0 then n - 1 else 0;
      assert forall i :: 0 <= i < |admitted| - 1 ==> admitted[1..][i] == admitted[i + 1];
      RecentTail(admitted[1..], m, now);
      assert n > 0 ==> admitted[1..][m..] == admitted[n..];
      assert n == 0 ==> [admitted[0]] + admitted[1..] == admitted[n..];
    }
  }

  /** After an attempt that was in time, the queue is exactly the admitted calls of the last 1000 ms. */
  lemma QueueIsRecentHistory(maximum: nat, attempts: seq<Attempt>, a: Attempt)
    requires Monotone(attempts + [a], 0) && a.now < a.deadline
    ensures var log := Record(Run(START, maximum, attempts), maximum, a);
            log.calls == Recent(log.admitted, a.now)
  {
    var since := if attempts == [] then 0 else attempts[|attempts| - 1].now;
    assert forall i :: 0 <= i < |attempts| ==> attempts[i] == (attempts + [a])[i];
    assert (attempts + [a])[|attempts|] == a;
    RunConsistent(START, maximum, 0, attempts);
    RecordedQueue(Run(START, maximum, attempts), maximum, since, a);
  }

  lemma RecordedQueue(log: Log, maximum: nat, since: nat, a: Attempt)
    requires Consistent(log, maximum, since) && since <= a.now && a.now < a.deadline
    ensures Record(log, maximum, a).calls == Recent(Record(log, maximum, a).admitted, a.now)
  {
    var m := RecordSplit(log, maximum, since, a);
    if |log.admitted| - m >= maximum {
      RecentTail(log.admitted, m, a.now);
    } else {
      var h := log.admitted + [a.now];
      assert h[m..] == log.admitted[m..] + [a.now];
      RecentTail(h, m, a.now);
    }
  }

  /** A call is admitted if and only if its deadline is ahead and fewer than the maximum were admitted in the last 1000 ms. */
  lemma AdmittedExactly(maximum: nat, attempts: seq<Attempt>, a: Attempt)
    requires Monotone(attempts + [a], 0)
    ensures var log := Run(START, maximum, attempts);
            Admit(log.calls, maximum, a).1 <==> a.now < a.deadline && |Recent(log.admitted, a.now)| < maximum
  {
    var since := if attempts == [] then 0 else attempts[|attempts| - 1].now;
    assert forall i :: 0 <= i < |attempts| ==> attempts[i] == (attempts + [a])[i];
    assert (attempts + [a])[|attempts|] == a;
    RunConsistent(START, maximum, 0, attempts);
    if a.now < a.deadline {
      AdmittedByCount(Run(START, maximum, attempts), maximum, since, a);
    }
  }

  lemma AdmittedByCount(log: Log, maximum: nat, since: nat, a: Attempt)
    requires Consistent(log, maximum, since) && since <= a.now && a.now < a.deadline
    ensures Admit(log.calls, maximum, a).1 <==> |Recent(log.admitted, a.now)| < maximum
  {
    var m := PrunedTail(log.admitted, |log.admitted| - |log.calls|, a.now);
    RecentTail(log.admitted, m, a.now);
  }

  /** The positions of the admitted calls in a window of 1000 ms. */
  function InWindow(admitted: seq<nat>, from: nat): set<nat> {
    set i: nat | i < |admitted| && from <= admitted[i] < from + WINDOW_MS
  }

  function Range(low: nat, size: nat): (r: set<nat>)
    ensures |r| == size && forall i :: i in r <==> low <= i < low + size
  {
    if size == 0 then {} else Range(low, size - 1) + {low + size - 1}
  }

  lemma SpacedWindow(admitted: seq<nat>, maximum: nat, from: nat)
    requires Sorted(admitted) && Spaced(admitted, maximum)
    ensures |InWindow(admitted, from)| <= maximum
  {
    var inside := InWindow(admitted, from);
    if inside != {} {
      var low := First(inside);
      assert low + maximum < |admitted| ==> admitted[low] + WINDOW_MS <= admitted[low + maximum];
      assert inside <= Range(low, maximum);
      SubsetSize(inside, Range(low, maximum));
    }
  }

  /** The least element. */
  lemma {:induction false} First(s: set<nat>) returns (low: nat)
    requires s != {}
    ensures low in s && forall i :: i in s ==> low <= i
    decreases |s|
  {
    var x :| x in s;
    low := x;
    if s != {x} {
      assert s - {x} != {};
      var rest := First(s - {x});
      low := if x <= rest then x else rest;
      assert forall i :: i in s && i != x ==> i in s - {x};
    }
  }

  /** No window of 1000 ms ever contains more admitted calls than the maximum. */
  lemma NoWindowExceedsMaximum(maximum: nat, attempts: seq<Attempt>, from: nat)
    requires Monotone(attempts, 0)
    ensures |InWindow(Run(START, maximum, attempts).admitted, from)| <= maximum
  {
    RunConsistent(START, maximum, 0, attempts);
    SpacedWindow(Run(START, maximum, attempts).admitted, maximum, from);
  }

  // ---------------------------------------------------------------- clocks that step back

  lemma {:induction false} RunAppend(log: Log, maximum: nat, attempts: seq<Attempt>, a: Attempt)
    ensures Run(log, maximum, attempts + [a]) == Record(Run(log, maximum, attempts), maximum, a)
    decreases |attempts|
  {
    if attempts == [] {
      assert [] + [a] == [a] && [a][1..] == [];
    } else {
      assert (attempts + [a])[1..] == attempts[1..] + [a];
      RunAppend(Record(log, maximum, attempts[0]), maximum, attempts[1..], a);
    }
  }

  /** Whatever came before a call in time at `since`, and whatever the maximum, a call at `now` keeps the bound. */
  ghost predicate SafeStep(since: U64, now: U64) {
    forall maximum: nat, attempts: seq<Attempt>, a: Attempt, from: nat ::
      Monotone(attempts, 0) && attempts != [] && attempts[|attempts| - 1].now == since
      && since < attempts[|attempts| - 1].deadline && a.now == now
      ==> |InWindow(Run(START, maximum, attempts + [a]).admitted, from)| <= maximum
  }

  /** Before the first second has passed nothing is ever pruned. */
  lemma {:induction false} NothingPruned(log: Log, maximum: nat, attempts: seq<Attempt>)
    requires log.calls == log.admitted && |log.admitted| <= maximum
    requires forall i :: 0 <= i < |attempts| ==> attempts[i].now < WINDOW_MS
    ensures |Run(log, maximum, attempts).admitted| <= maximum
    decreases |attempts|
  {
    if attempts != [] {
      assert Pruned(log.calls, attempts[0].now) == log.calls;
      NothingPruned(Record(log, maximum, attempts[0]), maximum, attempts[1..]);
    }
  }

  lemma FewAdmitted(admitted: seq<nat>, from: nat)
    ensures |InWindow(admitted, from)| <= |admitted|
  {
    assert InWindow(admitted, from) <= Range(0, |admitted|);
    SubsetSize(InWindow(admitted, from), Range(0, |admitted|));
  }

  /** Two calls that have left the window at `since`, one at `since`, and one stepping back into theirs. */
  lemma ClockStepsBack(since: U64, now: U64) returns (attempts: seq<Attempt>, a: Attempt, from: nat)
    requires WINDOW_MS <= since < U64_MAX && now < since
    ensures Monotone(attempts, 0) && |attempts| == 3 && attempts[2].now == since && since < attempts[2].deadline && a.now == now
    ensures |InWindow(Run(START, 2, attempts + [a]).admitted, from)| > 2
  {
    from := if now + WINDOW_MS < since then now else since - WINDOW_MS;
    var early, late := Attempt(from, U64_MAX), Attempt(since, U64_MAX);
    attempts, a := [early, early, late], Attempt(now, U64_MAX);
    BackRun(from, since, now);
    ThreeInWindow([from, from, since, now], from);
  }

  lemma BackRun(x: U64, since: U64, now: U64)
    requires x + WINDOW_MS <= since < U64_MAX && now < since
    ensures Run(START, 2, [Attempt(x, U64_MAX), Attempt(x, U64_MAX), Attempt(since, U64_MAX)] + [Attempt(now, U64_MAX)]).admitted
            == [x, x, since, now]
  {
    RunFour(START, 2, Attempt(x, U64_MAX), Attempt(x, U64_MAX), Attempt(since, U64_MAX), Attempt(now, U64_MAX));
    FourCalls(START, x, since, now);
  }

  lemma RunFour(log: Log, maximum: nat, a: Attempt, b: Attempt, c: Attempt, d: Attempt)
    ensures Run(log, maximum, [a, b, c] + [d]) == Record(Record(Record(Record(log, maximum, a), maximum, b), maximum, c), maximum, d)
  {
    RunAppend(log, maximum, [a, b, c], d);
    RunAppend(log, maximum, [a, b], c);
    RunAppend(log, maximum, [a], b);
    RunAppend(log, maximum, [], a);
    assert [a, b] + [c] == [a, b, c] && [a] + [b] == [a, b] && [] + [a] == [a];
  }

  lemma ThreeInWindow(admitted: seq<nat>, from: nat)
    requires |admitted| == 4 && admitted[0] == from && admitted[1] == from && from <= admitted[3] < from + WINDOW_MS
    ensures |InWindow(admitted, from)| > 2
  {
    SubsetSize({0, 1, 3}, InWindow(admitted, from));
  }

  lemma FourCalls(log: Log, x: U64, since: U64, now: U64)
    requires log == START && x + WINDOW_MS <= since < U64_MAX && now < since
    ensures Record(Record(Record(Record(log, 2, Attempt(x, U64_MAX)), 2, Attempt(x, U64_MAX)), 2, Attempt(since, U64_MAX)), 2,
                   Attempt(now, U64_MAX)).admitted == [x, x, since, now]
  {
    EarlyCall(log, x);
    EarlyCall(Log(log.calls + [x], log.admitted + [x]), x);
    assert log.calls + [x] + [x] == [x, x];
    LateCall(Log([x, x], [x, x]), x, since);
    BackCall(Log([since], [x, x, since]), since, now);
  }

  lemma EarlyCall(log: Log, x: U64)
    requires |log.calls| < 2 && x < U64_MAX && forall i :: 0 <= i < |log.calls| ==> log.calls[i] == x
    ensures Record(log, 2, Attempt(x, U64_MAX)) == Log(log.calls + [x], log.admitted + [x])
  {
  }

  lemma LateCall(log: Log, x: U64, since: U64)
    requires log.calls == [x, x] && x + WINDOW_MS <= since < U64_MAX
    ensures Record(log, 2, Attempt(since, U64_MAX)) == Log([since], log.admitted + [since])
  {
    assert log.calls[1..] == [x] && log.calls[1..][1..] == [];
    assert Pruned(log.calls[1..], since) == [];
  }

  lemma BackCall(log: Log, since: U64, now: U64)
    requires log.calls == [since] && now < since < U64_MAX
    ensures Record(log, 2, Attempt(now, U64_MAX)) == Log([since, now], log.admitted + [now])
  {
  }

  /** The bound survives a clock step exactly when the clock does not go back, or has not yet passed its first second. */
  lemma ClockStepExactly(since: U64, now: U64)
    requires since < U64_MAX
    ensures SafeStep(since, now) <==> since <= now || since < WINDOW_MS
  {
    if since <= now || since < WINDOW_MS {
      forall maximum: nat, attempts: seq<Attempt>, a: Attempt, from: nat |
        Monotone(attempts, 0) && attempts != [] && attempts[|attempts| - 1].now == since
        && since < attempts[|attempts| - 1].deadline && a.now == now
        ensures |InWindow(Run(START, maximum, attempts + [a]).admitted, from)| <= maximum
      {
        assert forall i :: 0 <= i < |attempts| ==> attempts[i].now <= since;
        if since <= now {
          NoWindowExceedsMaximum(maximum, attempts + [a], from);
        } else {
          NothingPruned(START, maximum, attempts + [a]);
          FewAdmitted(Run(START, maximum, attempts + [a]).admitted, from);
        }
      }
    } else {
      var attempts, a, from := ClockStepsBack(since, now);
      assert !SafeStep(since, now);
    }
  }
}
