/**
 What every run of the derivation registry keeps.

 Every command has one of five effects on the tables. The invariants are proved effect by effect
 and then for whole runs from the empty tables.
 */
module RegistryInvariants {
  import opened Limits
  import opened Wrappers
  import opened Paths
  import opened EventChain
  import opened DerivationRegistry

  // ---------------------------------------------------------------- invariants

  predicate Described(p: Primitives, row: Row) {
    row.spki.Some? && row.fingerprint.Some? && p.digest(row.spki.value) == Some(row.fingerprint.value)
  }

  /** A row resolves its own path, is a valid child, and has a descriptor once its account is committed. */
  predicate RowSound(p: Primitives, wallet: string, row: Row) {
    && KnownProfile(row.profile)
    && ResolveCanonicalPath(row.profile, row.account, row.index) == Some(row.path)
    && row.keySpec == KeySpecForProfile(row.profile)
    && row.account < HARDENED_OFFSET
    && row.index < U32_LIMIT
    && !p.invalidChild(wallet, row.profile, row.account, row.index)
    && (row.state == Prepared || row.state == IndexCommitted ==> row.spki == None && row.fingerprint == None)
    && (row.state == AccountCommitted || Listed(row) ==> Described(p, row))
  }

  ghost predicate RowsSound(p: Primitives, t: Tables) {
    forall k :: k in t.rows ==> RowSound(p, k.wallet, t.rows[k])
  }

  /** A counter is 0 or one more than an index allocated in its namespace. */
  ghost predicate Counted(t: Tables, place: Place)
    requires place in t.namespaces
  {
    t.namespaces[place].nextIndex == 0
    || exists k :: k in t.rows && PlaceOf(k, t.rows[k]) == place && t.rows[k].index + 1 == t.namespaces[place].nextIndex
  }

  ghost predicate Below(t: Tables, key: OpKey)
    requires key in t.rows
  {
    var place := PlaceOf(key, t.rows[key]);
    place in t.namespaces && t.rows[key].index < t.namespaces[place].nextIndex
  }

  /** Every allocated index stays strictly below its counter; live rows stay within the cap. */
  ghost predicate CountersSound(t: Tables) {
    && (forall k :: k in t.rows ==> Below(t, k))
    && (forall place :: place in t.namespaces ==>
          && t.namespaces[place].nextIndex <= U32_LIMIT
          && t.namespaces[place].maximumChildren == DEFAULT_NAMESPACE_CAP
          && |LiveRows(t, place)| <= DEFAULT_NAMESPACE_CAP
          && Counted(t, place))
  }

  /** No two operations of one wallet hold the same path, whatever their profile, role or state. */
  ghost predicate PathsUnique(t: Tables) {
    forall j, k :: j in t.rows && k in t.rows && j.wallet == k.wallet && t.rows[j].path == t.rows[k].path ==> j == k
  }

  ghost predicate Buried(t: Tables, key: OpKey)
    requires key in t.rows
  {
    IndexKey(PlaceOf(key, t.rows[key]), t.rows[key].index) in t.tombstones
  }

  /** A row's index is buried exactly when the row is tombstoned. */
  ghost predicate TombstonesSound(t: Tables) {
    forall k :: k in t.rows ==> (Buried(t, k) <==> t.rows[k].state == Tombstoned)
  }

  function LabelAt(t: Tables, wallet: string, operation: string): Option<string> {
    var key := OpKey(wallet, operation);
    if key in t.rows then Some(t.rows[key].state.Label()) else None
  }

  /** The log is accepted, follows the lifecycle graph, and replays to the rows. */
  ghost predicate LogSound(p: Primitives, t: Tables) {
    && Accepted(p.hash, t.events)
    && StepsLegal(t.events)
    && forall w, o :: Replay(t.events, w, o) == LabelAt(t, w, o)
  }

  ghost predicate Invariant(p: Primitives, t: Tables) {
    RowsSound(p, t) && CountersSound(t) && PathsUnique(t) && TombstonesSound(t) && LogSound(p, t)
  }

  // ---------------------------------------------------------------- effects

  function Rank(l: Lifecycle): nat {
    match l
    case Prepared => 0
    case IndexCommitted => 1
    case AccountCommitted => 2
    case Activated => 3
    case Retired => 4
    case Tombstoned => 5
  }

  datatype Effect =
    | Nothing
    | Inserted(key: OpKey, place: Place, index: nat, targeted: bool)
    | Advanced(key: OpKey, row': Row)
    | Ended(key: OpKey, reason: Reason)
    | Discovered(found: IndexKey, opens: bool)

  predicate SameIdentity(a: Row, b: Row) {
    a == b.(state := a.state, spki := a.spki, fingerprint := a.fingerprint)
  }

  ghost predicate Skips(p: Primitives, t: Tables, place: Place, index: nat) {
    var start := CounterStart(NamespaceAt(t, place));
    start <= index && forall j :: start <= j < index ==> Dead(p, t, place, j)
  }

  ghost predicate Allowed(p: Primitives, t: Tables, e: Effect) {
    match e
    case Nothing => true
    case Inserted(key, place, index, targeted) =>
      && key !in t.rows && key.wallet == place.wallet && KnownProfile(place.profile)
      && place.account < HARDENED_OFFSET && index < U32_LIMIT
      && |LiveRows(t, place)| < NamespaceAt(t, place).maximumChildren
      && !Dead(p, t, place, index)
      && !PathOwned(t, key.wallet, place.profile, ResolveCanonicalPath(place.profile, place.account, index).value)
      && (targeted || Skips(p, t, place, index))
    case Advanced(key, row') =>
      && key in t.rows
      && var row := t.rows[key];
         && SameIdentity(row, row')
         && Edge(Some(row.state), row'.state) && row'.state != Tombstoned
         && (if row.state == IndexCommitted then Described(p, row')
             else row'.spki == row.spki && row'.fingerprint == row.fingerprint)
    case Ended(key, reason) => key in t.rows && t.rows[key].state != Tombstoned
    case Discovered(found, opens) => p.invalidChild(found.place.wallet, found.place.profile, found.place.account, found.index)
  }

  ghost function Apply(p: Primitives, t: Tables, e: Effect): Tables
    requires Allowed(p, t, e)
  {
    match e
    case Nothing => t
    case Inserted(key, place, index, targeted) =>
      Insert(p, t, key, place, index, ResolveCanonicalPath(place.profile, place.account, index).value, targeted)
    case Advanced(key, row') => Advance(p, t, key, row')
    case Ended(key, reason) =>
      var row := t.rows[key];
      Advance(p, t, key, row.(state := Tombstoned))
        .(tombstones := Bury(t.tombstones, IndexKey(PlaceOf(key, row), row.index), reason))
    case Discovered(found, opens) =>
      t.(namespaces := if opens then t.namespaces[found.place := NamespaceAt(t, found.place)] else t.namespaces,
         tombstones := Bury(t.tombstones, found, InvalidChild))
  }

  /** The caller records invalid children only when they are invalid. */
  predicate Honest(p: Primitives, c: Command) {
    match c
    case RecordInvalidCmd(k) => p.invalidChild(k.place.wallet, k.place.profile, k.place.account, k.index)
    case _ => true
  }

  lemma ChosenIndex(p: Primitives, t: Tables, place: Place, target: Option<nat>)
    requires target.Some? ==> target.value < HARDENED_OFFSET
    ensures match ChooseIndex(p, t, place, NamespaceAt(t, place), target)
            case Ok(index) =>
              && index < U32_LIMIT && !Dead(p, t, place, index)
              && (if target.Some? then index == target.value else Skips(p, t, place, index))
            case Err(error) =>
              error == InvalidChildIndex ==>
                target.Some? && p.invalidChild(place.wallet, place.profile, place.account, target.value)
  {
    var start := CounterStart(NamespaceAt(t, place));
    var dead := (c: nat) => Dead(p, t, place, c);
    var found := FirstLive(start, dead);
    if target.None? && found.Some? {
      assert ChooseIndex(p, t, place, NamespaceAt(t, place), target) == Ok(found.value);
      forall j | start <= j < found.value ensures Dead(p, t, place, j) {
        assert dead(j);
      }
    }
  }

  lemma ReserveEffect(p: Primitives, t: Tables, key: OpKey, place: Place, target: Option<nat>, auditOk: bool)
      returns (e: Effect)
    requires key !in t.rows && key.wallet == place.wallet && place.account < HARDENED_OFFSET
    requires target.Some? ==> target.value < HARDENED_OFFSET
    ensures Allowed(p, t, e) && Reserve(p, t, key, place, target, auditOk).0 == Apply(p, t, e)
    ensures ReserveReports(Reserve(p, t, key, place, target, auditOk).1, key, place, target, e)
  {
    e := Nothing;
    ChosenIndex(p, t, place, target);
    if KnownProfile(place.profile) && |LiveRows(t, place)| < NamespaceAt(t, place).maximumChildren {
      match ChooseIndex(p, t, place, NamespaceAt(t, place), target)
      case Ok(index) =>
        var path := ResolveCanonicalPath(place.profile, place.account, index).value;
        if !PathOwned(t, key.wallet, place.profile, path) && auditOk {
          e := Inserted(key, place, index, target.Some?);
        }
      case Err(error) =>
        if error == InvalidChildIndex {
          e := Discovered(IndexKey(place, target.value), true);
        }
    }
  }

  /** What the answer to a reservation says about its effect. */
  predicate ReserveReports(answer: Result<Reservation, Error>, key: OpKey, place: Place, target: Option<nat>, e: Effect) {
    match answer
    case Ok(r) =>
      && e == Inserted(key, place, r.index, target.Some?) && r == ReservationOf(key, NewRow(place, r.index, r.path))
      && ResolveCanonicalPath(place.profile, place.account, r.index) == Some(r.path)
      && (target.Some? ==> r.index == target.value)
    case Err(error) =>
      if error == InvalidChildIndex then target.Some? && e == Discovered(IndexKey(place, target.value), true) else e == Nothing
  }

  lemma PrepareEffect(p: Primitives, t: Tables, key: OpKey, profile: string, role: string,
                      account: Option<nat>, target: Option<nat>, auditOk: bool) returns (e: Effect)
    ensures Allowed(p, t, e) && PrepareAllocation(p, t, key, profile, role, account, target, auditOk).0 == Apply(p, t, e)
  {
    e := Nothing;
    if RequestInRange(profile, account, target) && key !in t.rows && ChooseAccount(t, key.wallet, profile, account).Ok? {
      AccountInRange(t, key.wallet, profile, account);
      var number := ChooseAccount(t, key.wallet, profile, account).value;
      e := ReserveEffect(p, t, key, Place(key.wallet, profile, role, number), target, auditOk);
    }
  }

  lemma AccountInRange(t: Tables, wallet: string, profile: string, account: Option<nat>)
    ensures var r := ChooseAccount(t, wallet, profile, account);
            r.Ok? && (account.Some? ==> account.value < HARDENED_OFFSET) ==> r.value < HARDENED_OFFSET
  {
  }

  lemma StepEffect(p: Primitives, t: Tables, c: Command) returns (e: Effect)
    requires RowsSound(p, t) && Honest(p, c)
    ensures Allowed(p, t, e) && Step(p, t, c) == Apply(p, t, e)
  {
    e := Nothing;
    match c
    case PrepareCmd(key, profile, role, account, target, ok) =>
      e := PrepareEffect(p, t, key, profile, role, account, target, ok);
    case TombstoneCmd(key, ok) =>
      if ok && key in t.rows && t.rows[key].state != Tombstoned {
        e := Ended(key, if Listed(t.rows[key]) then FormerlyLive else Abandoned);
      }
    case RecordInvalidCmd(index) =>
      e := Discovered(index, false);
    case _ =>
      e := AdvanceEffect(p, t, c);
  }

  lemma AdvanceEffect(p: Primitives, t: Tables, c: Command) returns (e: Effect)
    requires RowsSound(p, t) && (c.CommitIndexCmd? || c.CommitAccountCmd? || c.ActivateCmd? || c.RetireCmd?)
    ensures Allowed(p, t, e) && Step(p, t, c) == Apply(p, t, e)
  {
    e := Nothing;
    match c
    case CommitIndexCmd(key, ok) =>
      if ok && key in t.rows && t.rows[key].state == Prepared {
        e := Advanced(key, t.rows[key].(state := IndexCommitted));
      }
    case CommitAccountCmd(key, spki, fingerprint, ok) =>
      e := CommitAccountEffect(p, t, key, spki, fingerprint, ok);
    case ActivateCmd(key, ok) =>
      if ok && key in t.rows && t.rows[key].state == AccountCommitted {
        assert RowSound(p, key.wallet, t.rows[key]);
        e := Advanced(key, t.rows[key].(state := Activated));
      }
    case RetireCmd(key, ok) =>
      if ok && key in t.rows && t.rows[key].state == Activated {
        e := Advanced(key, t.rows[key].(state := Retired));
      }
  }

  lemma CommitAccountEffect(p: Primitives, t: Tables, key: OpKey, spki: string, fingerprint: string, ok: bool) returns (e: Effect)
    ensures Allowed(p, t, e) && CommitAccount(p, t, key, spki, fingerprint, ok).0 == Apply(p, t, e)
  {
    e := Nothing;
    if ok && key in t.rows && t.rows[key].state == IndexCommitted && p.digest(spki) == Some(fingerprint) {
      e := Advanced(key, t.rows[key].(state := AccountCommitted, spki := Some(spki), fingerprint := Some(fingerprint)));
    }
  }

  // ---------------------------------------------------------------- preservation

  lemma KeepsRows(p: Primitives, t: Tables, e: Effect)
    requires Allowed(p, t, e) && RowsSound(p, t)
    ensures RowsSound(p, Apply(p, t, e))
  {
    var t' := Apply(p, t, e);
    forall k | k in t'.rows ensures RowSound(p, k.wallet, t'.rows[k]) {
      if k in t.rows {
        assert RowSound(p, k.wallet, t.rows[k]);
      }
    }
  }

  lemma SamePath(p: Primitives, w: string, a: Row, b: Row)
    requires RowSound(p, w, a) && RowSound(p, w, b) && a.path == b.path
    ensures a.profile == b.profile && a.account == b.account && (a.profile == PROFILE_EVM ==> a.index == b.index)
  {
    FamiliesDisjoint(a.account, a.index, b.account, 0, 0);
    FamiliesDisjoint(b.account, b.index, a.account, 0, 0);
    if a.profile == PROFILE_EVM {
      EvmPathInjective(a.account, a.index, b.account, b.index);
    } else {
      SolanaPathInjective(a.account, b.account);
    }
  }

  lemma KeepsPaths(p: Primitives, t: Tables, e: Effect)
    requires Allowed(p, t, e) && RowsSound(p, t) && PathsUnique(t)
    ensures PathsUnique(Apply(p, t, e))
  {
    var t' := Apply(p, t, e);
    KeepsRows(p, t, e);
    forall j, k | j in t'.rows && k in t'.rows && j.wallet == k.wallet && t'.rows[j].path == t'.rows[k].path
      ensures j == k
    {
      assert RowSound(p, j.wallet, t'.rows[j]) && RowSound(p, k.wallet, t'.rows[k]);
      SamePath(p, j.wallet, t'.rows[j], t'.rows[k]);
    }
  }

  lemma NewlyBuried(p: Primitives, t: Tables, e: Effect, k: IndexKey)
    requires Allowed(p, t, e) && k in Apply(p, t, e).tombstones && k !in t.tombstones
    ensures p.invalidChild(k.place.wallet, k.place.profile, k.place.account, k.index)
            || (e.Ended? && k == IndexKey(PlaceOf(e.key, t.rows[e.key]), t.rows[e.key].index))
  {
    if e.Inserted? && !e.targeted {
      BuryRangeExact(t.tombstones, e.place, CounterStart(NamespaceAt(t, e.place)), e.index);
      assert Dead(p, t, e.place, k.index);
    }
  }

  lemma TombstonesStay(p: Primitives, t: Tables, e: Effect)
    requires Allowed(p, t, e)
    ensures forall k :: k in t.tombstones ==> k in Apply(p, t, e).tombstones && Apply(p, t, e).tombstones[k] == t.tombstones[k]
  {
    if e.Inserted? && !e.targeted {
      BuryRangeExact(t.tombstones, e.place, CounterStart(NamespaceAt(t, e.place)), e.index);
    }
  }

  /** Only the row an ending names becomes TOMBSTONED. */
  lemma StateMoves(p: Primitives, t: Tables, e: Effect, k: OpKey)
    requires Allowed(p, t, e) && k in t.rows
    ensures var state' := Apply(p, t, e).rows[k].state;
            && (state' == Tombstoned <==> t.rows[k].state == Tombstoned || (e.Ended? && e.key == k))
            && Rank(t.rows[k].state) <= Rank(state')
  {
  }

  lemma NewRowUnburied(p: Primitives, t: Tables, e: Effect)
    requires Allowed(p, t, e) && e.Inserted?
    ensures var t' := Apply(p, t, e);
            !Buried(t', e.key) && t'.rows[e.key].state == Prepared
  {
    if !e.targeted {
      BuryRangeExact(t.tombstones, e.place, CounterStart(NamespaceAt(t, e.place)), e.index);
    }
  }

  lemma KeepsTombstones(p: Primitives, t: Tables, e: Effect)
    requires Allowed(p, t, e) && RowsSound(p, t) && PathsUnique(t) && TombstonesSound(t)
    ensures TombstonesSound(Apply(p, t, e))
  {
    var t' := Apply(p, t, e);
    TombstonesStay(p, t, e);
    forall k | k in t'.rows ensures Buried(t', k) <==> t'.rows[k].state == Tombstoned {
      if k !in t.rows {
        NewRowUnburied(p, t, e);
      } else {
        IdentityKept(p, t, e, k);
        StateMoves(p, t, e, k);
        assert RowSound(p, k.wallet, t.rows[k]);
        assert Buried(t, k) <==> t.rows[k].state == Tombstoned;
        var here := IndexKey(PlaceOf(k, t.rows[k]), t.rows[k].index);
        if here in t'.tombstones && here !in t.tombstones {
          NewlyBuried(p, t, e, here);
          assert RowSound(p, e.key.wallet, t.rows[e.key]);
        }
      }
    }
  }

  lemma KeepsLog(p: Primitives, t: Tables, e: Effect)
    requires Allowed(p, t, e) && LogSound(p, t)
    ensures LogSound(p, Apply(p, t, e))
  {
    var t' := Apply(p, t, e);
    if t'.events != t.events {
      var wallet, operation := e.key.wallet, e.key.operation;
      var from := if e.Inserted? then None else Some(t.rows[e.key].state);
      var to := t'.rows[e.key].state;
      assert e.key == OpKey(wallet, operation);
      assert Replay(t.events, wallet, operation) == LabelAt(t, wallet, operation);
      AppendAccepted(p.hash, t.events, wallet, operation, from, to);
      AppendLegal(p.hash, t.events, wallet, operation, from, to);
      forall w, o ensures Replay(t'.events, w, o) == LabelAt(t', w, o) {
        assert Replay(t.events, w, o) == LabelAt(t, w, o);
      }
    } else {
      assert !e.Inserted? && !e.Advanced? && !e.Ended?;
    }
  }

  lemma LiveRowsAfter(p: Primitives, t: Tables, e: Effect, place: Place)
    requires Allowed(p, t, e)
    ensures LiveRows(Apply(p, t, e), place)
            <= LiveRows(t, place) + if e.Inserted? && e.place == place then {e.key} else {}
  {
  }

  lemma BelowKept(p: Primitives, t: Tables, e: Effect, k: OpKey)
    requires Allowed(p, t, e) && CountersSound(t) && k in Apply(p, t, e).rows
    ensures Below(Apply(p, t, e), k)
  {
    var t' := Apply(p, t, e);
    if k in t.rows {
      IdentityKept(p, t, e, k);
      assert Below(t, k);
      CounterMoves(p, t, e, PlaceOf(k, t.rows[k]));
    } else {
      CounterMoves(p, t, e, e.place);
    }
  }

  lemma KeepsCounters(p: Primitives, t: Tables, e: Effect)
    requires Allowed(p, t, e) && CountersSound(t)
    ensures CountersSound(Apply(p, t, e))
  {
    var t' := Apply(p, t, e);
    forall k | k in t'.rows ensures Below(t', k) {
      BelowKept(p, t, e, k);
    }
    forall place | place in t'.namespaces
      ensures t'.namespaces[place].nextIndex <= U32_LIMIT
      ensures t'.namespaces[place].maximumChildren == DEFAULT_NAMESPACE_CAP
      ensures |LiveRows(t', place)| <= DEFAULT_NAMESPACE_CAP
      ensures Counted(t', place)
    {
      CapKept(p, t, e, place);
      CounterMoves(p, t, e, place);
      CountedKept(p, t, e, place);
    }
  }

  lemma FreshPlaceHasNoRows(t: Tables, place: Place)
    requires CountersSound(t) && place !in t.namespaces
    ensures LiveRows(t, place) == {}
  {
  }

  lemma CapKept(p: Primitives, t: Tables, e: Effect, place: Place)
    requires Allowed(p, t, e) && CountersSound(t) && place in Apply(p, t, e).namespaces
    ensures var t' := Apply(p, t, e);
            && t'.namespaces[place].maximumChildren == DEFAULT_NAMESPACE_CAP
            && |LiveRows(t', place)| <= DEFAULT_NAMESPACE_CAP
  {
    LiveRowsAfter(p, t, e, place);
    var more := if e.Inserted? && e.place == place then {e.key} else {};
    SubsetSize(LiveRows(Apply(p, t, e), place), LiveRows(t, place) + more);
    if place !in t.namespaces {
      FreshPlaceHasNoRows(t, place);
    }
  }

  /** Only an insertion moves a counter, and only to one past the index it inserts. */
  lemma CounterMoves(p: Primitives, t: Tables, e: Effect, place: Place)
    requires Allowed(p, t, e) && place in Apply(p, t, e).namespaces
    requires NamespaceAt(t, place).nextIndex <= U32_LIMIT
    ensures var before, after := NamespaceAt(t, place), Apply(p, t, e).namespaces[place];
            && after.maximumChildren == before.maximumChildren
            && before.nextIndex <= after.nextIndex
            && (e.Inserted? && e.place == place ==> e.index < after.nextIndex)
            && (after.nextIndex == before.nextIndex
                || (e.Inserted? && e.place == place && after.nextIndex == e.index + 1))
  {
  }

  lemma IdentityKept(p: Primitives, t: Tables, e: Effect, k: OpKey)
    requires Allowed(p, t, e) && k in t.rows
    ensures k in Apply(p, t, e).rows && SameIdentity(t.rows[k], Apply(p, t, e).rows[k])
  {
  }

  lemma CountedKept(p: Primitives, t: Tables, e: Effect, place: Place)
    requires Allowed(p, t, e) && CountersSound(t) && place in Apply(p, t, e).namespaces
    ensures Counted(Apply(p, t, e), place)
  {
    var t' := Apply(p, t, e);
    CounterMoves(p, t, e, place);
    if t'.namespaces[place].nextIndex != NamespaceAt(t, place).nextIndex {
      assert e.key in t'.rows;
      assert PlaceOf(e.key, t'.rows[e.key]) == place && t'.rows[e.key].index == e.index;
    } else if place in t.namespaces && t.namespaces[place].nextIndex != 0 {
      assert Counted(t, place);
      var k :| k in t.rows && PlaceOf(k, t.rows[k]) == place && t.rows[k].index + 1 == t.namespaces[place].nextIndex;
      IdentityKept(p, t, e, k);
      assert PlaceOf(k, t'.rows[k]) == place && t'.rows[k].index == t.rows[k].index;
    }
  }

  lemma StepKeepsInvariant(p: Primitives, t: Tables, c: Command)
    requires Invariant(p, t) && Honest(p, c)
    ensures Invariant(p, Step(p, t, c))
  {
    var e := StepEffect(p, t, c);
    KeepsRows(p, t, e);
    KeepsPaths(p, t, e);
    KeepsTombstones(p, t, e);
    KeepsLog(p, t, e);
    KeepsCounters(p, t, e);
  }

  lemma EmptyInvariant(p: Primitives)
    ensures Invariant(p, EMPTY)
  {
  }

  /** Every run keeps the invariant. */
  lemma {:induction false} RunKeepsInvariant(p: Primitives, t: Tables, commands: seq<Command>)
    requires Invariant(p, t)
    requires forall c :: c in commands ==> Honest(p, c)
    ensures Invariant(p, Run(p, t, commands))
    decreases |commands|
  {
    if commands != [] {
      StepKeepsInvariant(p, t, commands[0]);
      RunKeepsInvariant(p, Step(p, t, commands[0]), commands[1..]);
    }
  }

  // ---------------------------------------------------------------- monotonicity

  /** A row keeps its identity and its descriptor, and its state only moves forward. */
  ghost predicate RowLater(a: Row, b: Row) {
    && SameIdentity(a, b)
    && Rank(a.state) <= Rank(b.state)
    && (a.spki.Some? ==> b.spki == a.spki)
    && (a.fingerprint.Some? ==> b.fingerprint == a.fingerprint)
  }

  ghost predicate RowsLater(t: Tables, t': Tables) {
    forall k :: k in t.rows ==> k in t'.rows && RowLater(t.rows[k], t'.rows[k])
  }

  ghost predicate TombstonesLater(t: Tables, t': Tables) {
    forall k :: k in t.tombstones ==> k in t'.tombstones && t'.tombstones[k] == t.tombstones[k]
  }

  ghost predicate CountersLater(t: Tables, t': Tables) {
    forall place :: place in t.namespaces ==>
      place in t'.namespaces && t.namespaces[place].nextIndex <= t'.namespaces[place].nextIndex
  }

  /** Nothing is forgotten: rows, tombstones and events stay, and counters never decrease. */
  ghost predicate Later(t: Tables, t': Tables) {
    RowsLater(t, t') && TombstonesLater(t, t') && CountersLater(t, t') && t.events <= t'.events
  }

  lemma LaterTransitive(a: Tables, b: Tables, c: Tables)
    requires Later(a, b) && Later(b, c)
    ensures Later(a, c)
  {
  }

  lemma RowEffectLater(p: Primitives, t: Tables, e: Effect, k: OpKey)
    requires Allowed(p, t, e) && k in t.rows && RowSound(p, k.wallet, t.rows[k])
    ensures k in Apply(p, t, e).rows && RowLater(t.rows[k], Apply(p, t, e).rows[k])
  {
    StateMoves(p, t, e, k);
  }

  lemma EffectLater(p: Primitives, t: Tables, e: Effect)
    requires Allowed(p, t, e) && RowsSound(p, t) && CountersSound(t)
    ensures Later(t, Apply(p, t, e))
  {
    var t' := Apply(p, t, e);
    forall k | k in t.rows ensures k in t'.rows && RowLater(t.rows[k], t'.rows[k]) {
      RowEffectLater(p, t, e, k);
    }
    TombstonesStay(p, t, e);
    forall place | place in t.namespaces
      ensures place in t'.namespaces && t.namespaces[place].nextIndex <= t'.namespaces[place].nextIndex
    {
      PlacesStay(p, t, e, place);
      CounterMoves(p, t, e, place);
    }
    EventsStay(p, t, e);
  }

  lemma PlacesStay(p: Primitives, t: Tables, e: Effect, place: Place)
    requires Allowed(p, t, e) && place in t.namespaces
    ensures place in Apply(p, t, e).namespaces
  {
  }

  lemma EventsStay(p: Primitives, t: Tables, e: Effect)
    requires Allowed(p, t, e)
    ensures t.events <= Apply(p, t, e).events
  {
  }

  lemma StepLater(p: Primitives, t: Tables, c: Command)
    requires Invariant(p, t) && Honest(p, c)
    ensures Later(t, Step(p, t, c))
  {
    var e := StepEffect(p, t, c);
    EffectLater(p, t, e);
  }

  /** Whatever a run does, it forgets nothing. */
  lemma {:induction false} RunLater(p: Primitives, t: Tables, commands: seq<Command>)
    requires Invariant(p, t)
    requires forall c :: c in commands ==> Honest(p, c)
    ensures Later(t, Run(p, t, commands))
    decreases |commands|
  {
    if commands != [] {
      var next := Step(p, t, commands[0]);
      StepLater(p, t, commands[0]);
      StepKeepsInvariant(p, t, commands[0]);
      RunLater(p, next, commands[1..]);
      LaterTransitive(t, next, Run(p, next, commands[1..]));
    }
  }
}
