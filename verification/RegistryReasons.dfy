/**
 Why an index is buried: the recorded reason of a tombstoned operation says exactly whether the
 event log ever activated it.
 */
module RegistryReasons {
  import opened Wrappers
  import opened EventChain
  import opened DerivationRegistry
  import opened RegistryInvariants
  import opened RegistryTheorems

  predicate WasActivated(log: seq<Event>, key: OpKey) {
    exists i :: 0 <= i < |log| && Names(log[i], key.wallet, key.operation) && log[i].to == Activated.Label()
  }

  /** What the log and the reason say about one operation. */
  predicate ReasonSound(t: Tables, key: OpKey) {
    if key !in t.rows then !WasActivated(t.events, key)
    else
      var row := t.rows[key];
      var at := IndexKey(PlaceOf(key, row), row.index);
      if row.state == Tombstoned then
        at in t.tombstones && (t.tombstones[at] == FormerlyLive <==> WasActivated(t.events, key))
      else Listed(row) <==> WasActivated(t.events, key)
  }

  ghost predicate ReasonsSound(t: Tables) {
    forall key :: ReasonSound(t, key)
  }

  lemma LabelsDistinct(l: Lifecycle)
    ensures l.Label() == Activated.Label() <==> l == Activated
  {
    if l.Label() == Activated.Label() {
      NoLabelEndsAnother("", l, "", Activated);
    }
  }

  lemma ActivatedAfter(p: Primitives, log: seq<Event>, key: OpKey, from: Option<Lifecycle>, to: Lifecycle, k: OpKey)
    ensures WasActivated(Append(p.hash, log, key.wallet, key.operation, from, to), k)
            <==> WasActivated(log, k) || (k == key && to == Activated)
  {
    var log' := Append(p.hash, log, key.wallet, key.operation, from, to);
    LabelsDistinct(to);
    assert forall i :: 0 <= i < |log| ==> log'[i] == log[i];
    assert log'[|log|].to == to.Label() && log'[|log|].wallet == key.wallet && log'[|log|].operation == key.operation;
    if WasActivated(log, k) {
      var i :| 0 <= i < |log| && Names(log[i], k.wallet, k.operation) && log[i].to == Activated.Label();
      assert log'[i] == log[i];
    }
    if k == key && to == Activated {
      assert Names(log'[|log|], k.wallet, k.operation);
    }
  }

  /** The events an effect appends for an operation. */
  lemma ActivatedByEffect(p: Primitives, t: Tables, e: Effect, k: OpKey)
    requires Allowed(p, t, e)
    ensures WasActivated(Apply(p, t, e).events, k)
            <==> WasActivated(t.events, k) || (e.Advanced? && e.key == k && e.row'.state == Activated)
  {
    match e
    case Nothing =>
    case Inserted(key, _, _, _) => ActivatedAfter(p, t.events, key, None, Prepared, k);
    case Advanced(key, row') => ActivatedAfter(p, t.events, key, Some(t.rows[key].state), row'.state, k);
    case Ended(key, _) => ActivatedAfter(p, t.events, key, Some(t.rows[key].state), Tombstoned, k);
    case Discovered(_, _) =>
  }

  /** The reason an ending records is the one the row's state calls for. */
  predicate ReasonFits(t: Tables, e: Effect) {
    e.Ended? && e.key in t.rows ==> (e.reason == FormerlyLive <==> Listed(t.rows[e.key]))
  }

  lemma EffectReason(p: Primitives, t: Tables, e: Effect, k: OpKey)
    requires Allowed(p, t, e) && TombstonesSound(t) && ReasonFits(t, e) && ReasonSound(t, k)
    ensures ReasonSound(Apply(p, t, e), k)
  {
    var t' := Apply(p, t, e);
    ActivatedByEffect(p, t, e, k);
    if k in t.rows {
      IdentityKept(p, t, e, k);
      StateMoves(p, t, e, k);
      TombstonesStay(p, t, e);
      assert Buried(t, k) <==> t.rows[k].state == Tombstoned;
      StateAfter(p, t, e, k);
    }
  }

  lemma StateAfter(p: Primitives, t: Tables, e: Effect, k: OpKey)
    requires Allowed(p, t, e) && k in t.rows && TombstonesSound(t)
    ensures var t' := Apply(p, t, e);
            var at := IndexKey(PlaceOf(k, t.rows[k]), t.rows[k].index);
            && k in t'.rows
            && (if e.Advanced? && e.key == k then t'.rows[k].state == e.row'.state
                else if e.Ended? && e.key == k then at in t'.tombstones && t'.tombstones[at] == e.reason
                else t'.rows[k].state == t.rows[k].state)
  {
    assert Buried(t, k) <==> t.rows[k].state == Tombstoned;
  }

  /** The step's effect records a fitting reason. */
  lemma StepReason(p: Primitives, t: Tables, c: Command) returns (e: Effect)
    requires RowsSound(p, t) && Honest(p, c)
    ensures Allowed(p, t, e) && Step(p, t, c) == Apply(p, t, e) && ReasonFits(t, e)
  {
    if c.TombstoneCmd? {
      e := Nothing;
      if c.auditOk && c.key in t.rows && t.rows[c.key].state != Tombstoned {
        e := Ended(c.key, if Listed(t.rows[c.key]) then FormerlyLive else Abandoned);
      }
    } else {
      e := StepEffect(p, t, c);
      if e.Ended? {
        OnlyTombstoneEnds(p, t, c, e);
      }
    }
  }

  lemma OnlyTombstoneEnds(p: Primitives, t: Tables, c: Command, e: Effect)
    requires RowsSound(p, t) && !c.TombstoneCmd? && e.Ended? && Allowed(p, t, e)
    ensures Step(p, t, c) != Apply(p, t, e)
  {
    StateMoves(p, t, e, e.key);
    StepNeverTombstones(p, t, c, e.key);
  }

  lemma StepNeverTombstones(p: Primitives, t: Tables, c: Command, key: OpKey)
    requires !c.TombstoneCmd? && key in t.rows && t.rows[key].state != Tombstoned
    ensures key in Step(p, t, c).rows ==> Step(p, t, c).rows[key].state != Tombstoned
  {
  }

  lemma {:induction false} RunReasons(p: Primitives, t: Tables, commands: seq<Command>)
    requires Invariant(p, t) && AllHonest(p, commands) && ReasonsSound(t)
    ensures ReasonsSound(Run(p, t, commands))
    decreases |commands|
  {
    if commands != [] {
      var e := StepReason(p, t, commands[0]);
      StepKeepsInvariant(p, t, commands[0]);
      forall k ensures ReasonSound(Step(p, t, commands[0]), k) {
        EffectReason(p, t, e, k);
      }
      RunReasons(p, Step(p, t, commands[0]), commands[1..]);
    }
  }

  /** In every reachable state a tombstone's reason is `FormerlyLive` exactly when its operation was once activated. */
  lemma ReasonTellsHistory(p: Primitives, commands: seq<Command>, key: OpKey)
    requires AllHonest(p, commands)
    requires key in Run(p, EMPTY, commands).rows && Run(p, EMPTY, commands).rows[key].state == Tombstoned
    ensures var t := Run(p, EMPTY, commands);
            var at := IndexKey(PlaceOf(key, t.rows[key]), t.rows[key].index);
            at in t.tombstones && (t.tombstones[at] == FormerlyLive <==> WasActivated(t.events, key))
  {
    EmptyInvariant(p);
    RunReasons(p, EMPTY, commands);
    assert ReasonSound(Run(p, EMPTY, commands), key);
  }
}
