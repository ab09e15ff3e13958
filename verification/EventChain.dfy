/**
 The allocation lifecycle and the hash-chained event log that records it.

 Events are hashed as plain concatenated text, so the chain fixes the transition labels and the
 joint text of wallet and operation, but not where one ends and the other begins.
 */
module EventChain {
  import opened Wrappers

  datatype Lifecycle = Prepared | IndexCommitted | AccountCommitted | Activated | Retired | Tombstoned {
    function Label(): string {
      match this
      case Prepared => "PREPARED"
      case IndexCommitted => "INDEX_COMMITTED"
      case AccountCommitted => "ACCOUNT_COMMITTED"
      case Activated => "ACTIVATED"
      case Retired => "RETIRED"
      case Tombstoned => "TOMBSTONED"
    }
  }

  /** The lifecycle graph; TOMBSTONED has no way out and PREPARED is the only way in. */
  predicate Edge(from: Option<Lifecycle>, to: Lifecycle) {
    match from
    case None => to == Prepared
    case Some(Prepared) => to == IndexCommitted || to == Tombstoned
    case Some(IndexCommitted) => to == AccountCommitted || to == Tombstoned
    case Some(AccountCommitted) => to == Activated || to == Tombstoned
    case Some(Activated) => to == Retired || to == Tombstoned
    case Some(Retired) => to == Tombstoned
    case Some(Tombstoned) => false
  }

  datatype Event = Event(
    wallet: string, operation: string, from: Option<string>, to: string, previous: string, entry: string)

  const DIGEST_LENGTH: nat := 64
  const GENESIS: string := "0000000000000000000000000000000000000000000000000000000000000000"
  const EVENT_DOMAIN: string := "bloom-derivation-event/v1"

  function FromText(from: Option<string>): string {
    if from.Some? then from.value else "-"
  }

  /** What an entry says, as the hash sees it: no separators. */
  function Body(e: Event): string {
    e.wallet + e.operation + FromText(e.from) + e.to
  }

  function Preimage(e: Event): string {
    EVENT_DOMAIN + Body(e) + e.previous
  }

  function Head(log: seq<Event>): string {
    if |log| == 0 then GENESIS else log[|log| - 1].entry
  }

  /** `append_event`. */
  function Append(hash: string -> string, log: seq<Event>, wallet: string, operation: string,
                  from: Option<Lifecycle>, to: Lifecycle): (log': seq<Event>)
    ensures |log'| == |log| + 1 && log'[..|log|] == log
  {
    var text := if from.Some? then Some(from.value.Label()) else None;
    var open := Event(wallet, operation, text, to.Label(), Head(log), "");
    log + [open.(entry := hash(Preimage(open)))]
  }

  predicate Linked(hash: string -> string, log: seq<Event>, i: nat)
    requires i < |log|
  {
    && log[i].previous == Head(log[..i])
    && log[i].entry == hash(Preimage(log[i]))
  }

  predicate Accepted(hash: string -> string, log: seq<Event>) {
    forall i :: 0 <= i < |log| ==> Linked(hash, log, i)
  }

  datatype ChainError = BrokenLink | EntryHashMismatch

  /** `verify_event_chain`: walk the log with a running hash. */
  method VerifyEventChain(hash: string -> string, log: seq<Event>) returns (r: Result<(), ChainError>)
    ensures r.Ok? <==> Accepted(hash, log)
    ensures r == Err(BrokenLink) ==> exists i ::
              && 0 <= i < |log| && Accepted(hash, log[..i]) && log[i].previous != Head(log[..i])
    ensures r == Err(EntryHashMismatch) ==> exists i ::
              && 0 <= i < |log| && Accepted(hash, log[..i]) && log[i].entry != hash(Preimage(log[i]))
  {
    var expectedPrevious := GENESIS;
    for i := 0 to |log|
      invariant expectedPrevious == Head(log[..i])
      invariant forall k :: 0 <= k < i ==> Linked(hash, log, k)
    {
      ghost var prefix := log[..i];
      assert forall k :: 0 <= k < i ==> prefix[..k] == log[..k];
      assert Accepted(hash, prefix) by {
        forall k | 0 <= k < i ensures Linked(hash, prefix, k) {
          assert Linked(hash, log, k);
        }
      }
      if log[i].previous != expectedPrevious {
        assert !Linked(hash, log, i);
        return Err(BrokenLink);
      }
      if hash(Preimage(log[i])) != log[i].entry {
        assert !Linked(hash, log, i);
        return Err(EntryHashMismatch);
      }
      expectedPrevious := log[i].entry;
      assert log[..i + 1][i] == log[i];
      assert Linked(hash, log, i);
    }
    return Ok(());
  }

  /** Appending keeps the chain acceptable. */
  lemma AppendAccepted(hash: string -> string, log: seq<Event>, wallet: string, operation: string,
                       from: Option<Lifecycle>, to: Lifecycle)
    requires Accepted(hash, log)
    ensures Accepted(hash, Append(hash, log, wallet, operation, from, to))
  {
    var log' := Append(hash, log, wallet, operation, from, to);
    forall i | 0 <= i < |log'| ensures Linked(hash, log', i) {
      assert log'[..i] == log[..i];
      if i < |log| {
        assert Linked(hash, log, i);
      }
    }
  }

  /** The hash function takes two of the logs' own preimages to one digest. */
  predicate Collision(hash: string -> string, a: seq<Event>, b: seq<Event>) {
    exists i :: 0 <= i < |a| && i < |b| && Preimage(a[i]) != Preimage(b[i]) && hash(Preimage(a[i])) == hash(Preimage(b[i]))
  }

  predicate SameHashed(a: Event, b: Event) {
    Body(a) == Body(b) && a.previous == b.previous && a.entry == b.entry
  }

  /**
   Tamper evidence: two accepted logs of one length that end in one digest agree on everything
   that was hashed, entry by entry, or else they exhibit a collision of the hash.
   */
  lemma {:induction false} EqualHeadsAgree(hash: string -> string, a: seq<Event>, b: seq<Event>)
    requires forall x :: |hash(x)| == DIGEST_LENGTH
    requires Accepted(hash, a) && Accepted(hash, b)
    requires |a| == |b| && Head(a) == Head(b)
    ensures Collision(hash, a, b) || forall i :: 0 <= i < |a| ==> SameHashed(a[i], b[i])
    decreases |a|
  {
    if |a| > 0 && !Collision(hash, a, b) {
      var n := |a| - 1;
      LastAgrees(hash, a, b);
      PrefixAccepted(hash, a, n);
      PrefixAccepted(hash, b, n);
      EqualHeadsAgree(hash, a[..n], b[..n]);
      assert !Collision(hash, a[..n], b[..n]);
      assert forall i :: 0 <= i < n ==> SameHashed(a[..n][i], b[..n][i]);
    }
  }

  lemma LastAgrees(hash: string -> string, a: seq<Event>, b: seq<Event>)
    requires forall x :: |hash(x)| == DIGEST_LENGTH
    requires Accepted(hash, a) && Accepted(hash, b) && |a| == |b| > 0 && Head(a) == Head(b) && !Collision(hash, a, b)
    ensures var n := |a| - 1;
            SameHashed(a[n], b[n]) && Head(a[..n]) == Head(b[..n])
  {
    var n := |a| - 1;
    assert Linked(hash, a, n) && Linked(hash, b, n);
    PreviousLength(hash, a, n);
    PreviousLength(hash, b, n);
    SplitPreimage(a[n], b[n]);
  }

  /** Digests have one length, so equal preimages have equal bodies and equal links. */
  lemma SplitPreimage(a: Event, b: Event)
    requires Preimage(a) == Preimage(b) && |a.previous| == |b.previous|
    ensures Body(a) == Body(b) && a.previous == b.previous
  {
    var left, right := EVENT_DOMAIN + Body(a), EVENT_DOMAIN + Body(b);
    assert Preimage(a)[..|left|] == left && Preimage(b)[..|right|] == right;
    assert left[|EVENT_DOMAIN|..] == Body(a) && right[|EVENT_DOMAIN|..] == Body(b);
    assert Preimage(a)[|left|..] == a.previous && Preimage(b)[|right|..] == b.previous;
  }

  lemma PrefixAccepted(hash: string -> string, log: seq<Event>, n: nat)
    requires n <= |log| && Accepted(hash, log)
    ensures Accepted(hash, log[..n])
  {
    forall i | 0 <= i < n ensures Linked(hash, log[..n], i) {
      assert Linked(hash, log, i);
      assert log[..n][..i] == log[..i];
    }
  }

  lemma PreviousLength(hash: string -> string, log: seq<Event>, n: nat)
    requires forall x :: |hash(x)| == DIGEST_LENGTH
    requires n < |log| && Accepted(hash, log)
    ensures |log[n].previous| == DIGEST_LENGTH
  {
    assert Linked(hash, log, n);
    if n > 0 {
      assert Linked(hash, log, n - 1);
      assert log[..n][n - 1] == log[n - 1];
    }
  }

  /** An entry whose labels come from the lifecycle graph. */
  ghost predicate Labelled(e: Event) {
    && (e.from.Some? ==> exists l: Lifecycle :: e.from == Some(l.Label()))
    && (exists l: Lifecycle :: e.to == l.Label())
  }

  lemma LabelTails(l: Lifecycle, m: Lifecycle)
    requires l != m
    ensures var a, b := l.Label(), m.Label();
            && |a| >= 7 && |b| >= 7
            && (|| a[|a| - 3] != b[|b| - 3] || a[|a| - 4] != b[|b| - 4]
                || (|a| >= 11 && |b| >= 11 && a[|a| - 11] != b[|b| - 11]))
  {
  }

  lemma EqualTails(x: string, a: string, y: string, b: string, k: nat)
    requires x + a == y + b && 0 < k <= |a| && k <= |b|
    ensures a[|a| - k] == b[|b| - k]
  {
    var s := x + a;
    assert a[|a| - k] == s[|s| - k];
    assert b[|b| - k] == (y + b)[|s| - k];
  }

  lemma NoLabelEndsAnother(x: string, l: Lifecycle, y: string, m: Lifecycle)
    requires x + l.Label() == y + m.Label()
    ensures l == m && x == y
  {
    var a, b := l.Label(), m.Label();
    if l != m {
      LabelTails(l, m);
      EqualTails(x, a, y, b, 3);
      EqualTails(x, a, y, b, 4);
      if |a| >= 11 && |b| >= 11 {
        EqualTails(x, a, y, b, 11);
      }
      assert false;
    }
    assert x == (x + a)[..|x|] && y == (y + b)[..|y|];
  }

  lemma NoLabelEndsInDash(x: string, l: Lifecycle, y: string)
    ensures x + l.Label() != y + "-"
  {
    var a := x + l.Label();
    assert a[|a| - 1] == 'D';
    assert (y + "-")[|y|] == '-';
  }

  /**
   What agreement on the hashed text means for an entry's fields: both labels agree and so does
   the joint text of wallet and operation; the two names agree exactly when their wallets have
   equal length.
   */
  lemma HashedFields(a: Event, b: Event)
    requires Labelled(a) && Labelled(b) && Body(a) == Body(b)
    ensures a.from == b.from && a.to == b.to && a.wallet + a.operation == b.wallet + b.operation
    ensures a.wallet == b.wallet && a.operation == b.operation <==> |a.wallet| == |b.wallet|
  {
    var t: Lifecycle :| a.to == t.Label();
    var t': Lifecycle :| b.to == t'.Label();
    var left, right := a.wallet + a.operation, b.wallet + b.operation;
    NoLabelEndsAnother(left + FromText(a.from), t, right + FromText(b.from), t');
    if a.from.Some? && b.from.Some? {
      var f: Lifecycle :| a.from == Some(f.Label());
      var f': Lifecycle :| b.from == Some(f'.Label());
      NoLabelEndsAnother(left, f, right, f');
    } else if a.from.Some? {
      var f: Lifecycle :| a.from == Some(f.Label());
      NoLabelEndsInDash(left, f, right);
    } else if b.from.Some? {
      var f': Lifecycle :| b.from == Some(f'.Label());
      NoLabelEndsInDash(right, f', left);
    } else {
      assert left == (left + "-")[..|left|] && right == (right + "-")[..|right|];
    }
    assert left[..|a.wallet|] == a.wallet && right[..|b.wallet|] == b.wallet;
    assert left[|a.wallet|..] == a.operation && right[|b.wallet|..] == b.operation;
  }

  /** The split between wallet and operation is not fixed: two logs, one digest, under every hash. */
  lemma WalletBoundaryNotHashed(hash: string -> string)
    ensures var a, b := Append(hash, [], "a", "bc", None, Prepared), Append(hash, [], "ab", "c", None, Prepared);
            Accepted(hash, a) && Accepted(hash, b) && Head(a) == Head(b) && a[0].wallet != b[0].wallet
  {
    AppendAccepted(hash, [], "a", "bc", None, Prepared);
    AppendAccepted(hash, [], "ab", "c", None, Prepared);
    assert "a" + "bc" == "ab" + "c";
  }

  // ---------------------------------------------------------------- replay

  predicate Names(e: Event, wallet: string, operation: string) {
    e.wallet == wallet && e.operation == operation
  }

  /** The state the log records for one operation: the target of its last event. */
  function Replay(log: seq<Event>, wallet: string, operation: string): Option<string> {
    if |log| == 0 then None
    else if Names(log[|log| - 1], wallet, operation) then Some(log[|log| - 1].to)
    else Replay(log[..|log| - 1], wallet, operation)
  }

  /** Entry i leaves the state replayed so far along an edge of the lifecycle graph. */
  ghost predicate StepLegal(log: seq<Event>, i: nat)
    requires i < |log|
  {
    exists from: Option<Lifecycle>, to: Lifecycle ::
      && Edge(from, to)
      && log[i].from == (if from.Some? then Some(from.value.Label()) else None)
      && log[i].to == to.Label()
      && Replay(log[..i], log[i].wallet, log[i].operation) == log[i].from
  }

  ghost predicate StepsLegal(log: seq<Event>) {
    forall i :: 0 <= i < |log| ==> StepLegal(log, i)
  }

  lemma AppendLegal(hash: string -> string, log: seq<Event>, wallet: string, operation: string,
                    from: Option<Lifecycle>, to: Lifecycle)
    requires StepsLegal(log) && Edge(from, to)
    requires Replay(log, wallet, operation) == (if from.Some? then Some(from.value.Label()) else None)
    ensures var log' := Append(hash, log, wallet, operation, from, to);
            && StepsLegal(log')
            && Replay(log', wallet, operation) == Some(to.Label())
            && (forall w, o :: w != wallet || o != operation ==> Replay(log', w, o) == Replay(log, w, o))
  {
    var log' := Append(hash, log, wallet, operation, from, to);
    assert log'[..|log'| - 1] == log;
    forall i | 0 <= i < |log'| ensures StepLegal(log', i) {
      assert log'[..i] == log[..i];
      if i < |log| {
        assert StepLegal(log, i);
      }
    }
  }
}
