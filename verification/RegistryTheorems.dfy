/**
 The registry's promises, over every run from the empty tables.
 */
module RegistryTheorems {
  import opened Limits
  import opened Wrappers
  import opened Paths
  import opened EventChain
  import opened DerivationRegistry
  import opened RegistryInvariants

  predicate AllHonest(p: Primitives, commands: seq<Command>) {
    forall c :: c in commands ==> Honest(p, c)
  }

  /** Tables some run of honest commands reaches. */
  ghost predicate Reachable(p: Primitives, t: Tables) {
    exists commands :: AllHonest(p, commands) && t == Run(p, EMPTY, commands)
  }

  lemma ReachableInvariant(p: Primitives, t: Tables)
    requires Reachable(p, t)
    ensures Invariant(p, t)
  {
    var commands :| AllHonest(p, commands) && t == Run(p, EMPTY, commands);
    EmptyInvariant(p);
    RunKeepsInvariant(p, EMPTY, commands);
  }

  // ---------------------------------------------------------------- safety of the tables

  /** Neither a path nor a place and index is ever held by two operations of one wallet. */
  lemma NoPathTwice(p: Primitives, t: Tables, j: OpKey, k: OpKey)
    requires Reachable(p, t) && j in t.rows && k in t.rows && j != k && j.wallet == k.wallet
    ensures t.rows[j].path != t.rows[k].path
    ensures PlaceOf(j, t.rows[j]) != PlaceOf(k, t.rows[k]) || t.rows[j].index != t.rows[k].index
  {
    ReachableInvariant(p, t);
    assert RowSound(p, j.wallet, t.rows[j]) && RowSound(p, k.wallet, t.rows[k]);
  }

  /** The log is accepted by the verifier method's predicate and replays to every row's state. */
  lemma LogReplaysToRows(p: Primitives, t: Tables, key: OpKey)
    requires Reachable(p, t)
    ensures Accepted(p.hash, t.events) && StepsLegal(t.events)
    ensures Replay(t.events, key.wallet, key.operation)
            == if key in t.rows then Some(t.rows[key].state.Label()) else None
  {
    ReachableInvariant(p, t);
    assert Replay(t.events, key.wallet, key.operation) == LabelAt(t, key.wallet, key.operation);
  }

  /** Every listed account carries a descriptor whose digest is its fingerprint. */
  lemma ListedAccountsDescribed(p: Primitives, t: Tables, key: OpKey)
    requires Reachable(p, t) && key in t.rows && Listed(t.rows[key])
    ensures var row := t.rows[key];
            && row.spki.Some? && row.fingerprint.Some? && p.digest(row.spki.value) == Some(row.fingerprint.value)
            && !Buried(t, key)
  {
    ReachableInvariant(p, t);
    assert RowSound(p, key.wallet, t.rows[key]);
    assert Buried(t, key) <==> t.rows[key].state == Tombstoned;
  }

  /** Once TOMBSTONED, always TOMBSTONED, and the index stays buried for good. */
  lemma TombstonedForever(p: Primitives, t: Tables, commands: seq<Command>, key: OpKey)
    requires Reachable(p, t) && AllHonest(p, commands) && key in t.rows && t.rows[key].state == Tombstoned
    ensures var t' := Run(p, t, commands);
            key in t'.rows && t'.rows[key] == t.rows[key] && Buried(t', key)
  {
    ReachableInvariant(p, t);
    RunKeepsInvariant(p, t, commands);
    RunLater(p, t, commands);
    var t' := Run(p, t, commands);
    assert RowLater(t.rows[key], t'.rows[key]);
    assert Buried(t', key) <==> t'.rows[key].state == Tombstoned;
    FrozenDescriptor(p, t, commands, key);
  }

  /** From ACCOUNT_COMMITTED on, and once TOMBSTONED, a row's descriptor columns are never written again. */
  lemma {:induction false} FrozenDescriptor(p: Primitives, t: Tables, commands: seq<Command>, key: OpKey)
    requires Invariant(p, t) && AllHonest(p, commands) && key in t.rows && Rank(t.rows[key].state) >= 2
    ensures var t' := Run(p, t, commands);
            key in t'.rows && t'.rows[key] == t.rows[key].(state := t'.rows[key].state)
            && Rank(t'.rows[key].state) >= Rank(t.rows[key].state)
    decreases |commands|
  {
    if commands != [] {
      var e := StepEffect(p, t, commands[0]);
      StepKeepsInvariant(p, t, commands[0]);
      FrozenByEffect(p, t, e, key);
      FrozenDescriptor(p, Step(p, t, commands[0]), commands[1..], key);
    }
  }

  lemma FrozenByEffect(p: Primitives, t: Tables, e: Effect, key: OpKey)
    requires Allowed(p, t, e) && key in t.rows && Rank(t.rows[key].state) >= 2
    ensures var t' := Apply(p, t, e);
            key in t'.rows && t'.rows[key] == t.rows[key].(state := t'.rows[key].state)
            && Rank(t'.rows[key].state) >= Rank(t.rows[key].state)
  {
  }

  // ---------------------------------------------------------------- ordinary reservations

  /**
   An ordinary reservation takes the least index at or above the counter that is neither buried
   nor an invalid child, and its EVM path passes the validator exactly when the index is below
   2^31. The counter is read through a 32-bit cast, so this holds exactly while it is below 2^32.
   */
  lemma OrdinaryTakesLeast(p: Primitives, t: Tables, key: OpKey, profile: string, role: string, account: Option<nat>)
    requires Reachable(p, t) && key !in t.rows
    requires PrepareAllocation(p, t, key, profile, role, account, None, true).1.Ok?
    ensures var r := PrepareAllocation(p, t, key, profile, role, account, None, true).1.value;
            var place := Place(key.wallet, profile, role, r.account);
            var counter := NamespaceAt(t, place).nextIndex;
            && !Dead(p, t, place, r.index)
            && (counter <= r.index <==> counter < U32_LIMIT)
            && (counter < U32_LIMIT ==> forall j :: counter <= j < r.index ==> Dead(p, t, place, j))
            && (profile == PROFILE_EVM ==> (ValidAllocatedPath(Evm, r.path) <==> r.index < HARDENED_OFFSET))
  {
    var place := FreshPrepare(p, t, key, profile, role, account, None, true);
    CounterInRange(p, t, place);
    ReserveLeast(p, t, key, place);
  }

  lemma CounterInRange(p: Primitives, t: Tables, place: Place)
    requires Reachable(p, t)
    ensures NamespaceAt(t, place).nextIndex <= U32_LIMIT
  {
    ReachableInvariant(p, t);
  }

  /** A request for a new operation is a reservation in the namespace its account selects. */
  lemma FreshPrepare(p: Primitives, t: Tables, key: OpKey, profile: string, role: string,
                     account: Option<nat>, target: Option<nat>, auditOk: bool) returns (place: Place)
    requires key !in t.rows && RequestInRange(profile, account, target) && ChooseAccount(t, key.wallet, profile, account).Ok?
    ensures place == Place(key.wallet, profile, role, ChooseAccount(t, key.wallet, profile, account).value)
    ensures place.account < HARDENED_OFFSET
    ensures PrepareAllocation(p, t, key, profile, role, account, target, auditOk) == Reserve(p, t, key, place, target, auditOk)
  {
    AccountInRange(t, key.wallet, profile, account);
    place := Place(key.wallet, profile, role, ChooseAccount(t, key.wallet, profile, account).value);
  }

  lemma ReserveLeast(p: Primitives, t: Tables, key: OpKey, place: Place)
    requires key !in t.rows && key.wallet == place.wallet && place.account < HARDENED_OFFSET
    requires NamespaceAt(t, place).nextIndex <= U32_LIMIT
    requires Reserve(p, t, key, place, None, true).1.Ok?
    ensures var r := Reserve(p, t, key, place, None, true).1.value;
            var counter := NamespaceAt(t, place).nextIndex;
            && r.account == place.account
            && !Dead(p, t, place, r.index)
            && (counter <= r.index <==> counter < U32_LIMIT)
            && (counter < U32_LIMIT ==> forall j :: counter <= j < r.index ==> Dead(p, t, place, j))
            && (place.profile == PROFILE_EVM ==> (ValidAllocatedPath(Evm, r.path) <==> r.index < HARDENED_OFFSET))
  {
    var e := ReserveEffect(p, t, key, place, None, true);
    CounterReached(p, t, place, e.index);
    EvmPathValidExactly(place.account, e.index);
  }

  lemma CounterReached(p: Primitives, t: Tables, place: Place, index: nat)
    requires NamespaceAt(t, place).nextIndex <= U32_LIMIT && index < U32_LIMIT && Skips(p, t, place, index)
    ensures var counter := NamespaceAt(t, place).nextIndex;
            && (counter <= index <==> counter < U32_LIMIT)
            && (counter < U32_LIMIT ==> forall j :: counter <= j < index ==> Dead(p, t, place, j))
  {
  }

  /** When the reservation of index `index` succeeds. */
  lemma ReserveSucceeds(p: Primitives, t: Tables, key: OpKey, place: Place, target: Option<nat>, index: nat)
    requires key !in t.rows && place.profile == PROFILE_EVM && |t.rows| < NamespaceAt(t, place).maximumChildren
    requires index < U32_LIMIT && !Dead(p, t, place, index)
    requires if target.Some? then target.value == index else Skips(p, t, place, index)
    requires forall k :: k in t.rows ==> t.rows[k].path != EvmPath(place.account, index)
    ensures Reserve(p, t, key, place, target, true)
            == (Insert(p, t, key, place, index, EvmPath(place.account, index), target.Some?),
                Ok(ReservationOf(key, NewRow(place, index, EvmPath(place.account, index)))))
  {
    SubsetSize(LiveRows(t, place), t.rows.Keys);
    ChoiceIsLeast(p, t, place, target, index);
  }

  lemma ChoiceIsLeast(p: Primitives, t: Tables, place: Place, target: Option<nat>, index: nat)
    requires index < U32_LIMIT && !Dead(p, t, place, index)
    requires if target.Some? then target.value == index else Skips(p, t, place, index)
    ensures ChooseIndex(p, t, place, NamespaceAt(t, place), target) == Ok(index)
  {
    if target.None? {
      var dead := (c: nat) => Dead(p, t, place, c);
      var start := CounterStart(NamespaceAt(t, place));
      var found := FirstLive(start, dead);
      assert !dead(index);
      forall j: nat | start <= j < index ensures dead(j) {
        assert Dead(p, t, place, j);
      }
      assert found == Some(index);
    }
  }

  const WRAP_PLACE: Place := Place("w", PROFILE_EVM, "r", 0)
  const WRAP_LAST: nat := U32_LIMIT - 1

  /** Every index from 6 up to the last but one is an invalid child. */
  function WrapPrimitives(): Primitives {
    Primitives(x => GENESIS, x => None, (w: string, f: string, a: nat, i: nat) => 6 <= i < WRAP_LAST)
  }

  function WrapCommand(operation: string, target: Option<nat>): Command {
    PrepareCmd(OpKey("w", operation), PROFILE_EVM, "r", None, target, true)
  }

  function WrapRow(index: nat): Row { NewRow(WRAP_PLACE, index, EvmPath(0, index)) }

  lemma WrapSecond(t: Tables)
    requires t.rows == map[OpKey("w", "1") := WrapRow(5)] && t.tombstones == map[]
    requires NamespaceAt(t, WRAP_PLACE) == Namespace(6, DEFAULT_NAMESPACE_CAP)
    ensures Step(WrapPrimitives(), t, WrapCommand("2", None))
            == Insert(WrapPrimitives(), t, OpKey("w", "2"), WRAP_PLACE, WRAP_LAST, EvmPath(0, WRAP_LAST), false)
  {
    if EvmPath(0, 5) == EvmPath(0, WRAP_LAST) {
      EvmPathInjective(0, 5, 0, WRAP_LAST);
    }
    ReserveSucceeds(WrapPrimitives(), t, OpKey("w", "2"), WRAP_PLACE, None, WRAP_LAST);
  }

  lemma WrapThird(t: Tables)
    requires t.rows == map[OpKey("w", "1") := WrapRow(5), OpKey("w", "2") := WrapRow(WRAP_LAST)]
    requires t.tombstones == BuryRange(map[], WRAP_PLACE, 6, WRAP_LAST)
    requires NamespaceAt(t, WRAP_PLACE) == Namespace(U32_LIMIT, DEFAULT_NAMESPACE_CAP)
    ensures PrepareAllocation(WrapPrimitives(), t, OpKey("w", "3"), PROFILE_EVM, "r", None, None, true).1
            == Ok(Reservation("3", PROFILE_EVM, "r", 0, 0, EvmPath(0, 0), Prepared))
  {
    if EvmPath(0, 5) == EvmPath(0, 0) {
      EvmPathInjective(0, 5, 0, 0);
    }
    if EvmPath(0, WRAP_LAST) == EvmPath(0, 0) {
      EvmPathInjective(0, WRAP_LAST, 0, 0);
    }
    BuryRangeExact(map[], WRAP_PLACE, 6, WRAP_LAST);
    ReserveSucceeds(WrapPrimitives(), t, OpKey("w", "3"), WRAP_PLACE, None, 0);
  }

  /**
   The counter does wrap: a targeted 5, then an ordinary reservation that lands on the last 32-bit
   index, then an ordinary reservation that is given index 0, below the counter 2^32.
   */
  lemma CounterWraps()
    ensures var p := WrapPrimitives();
            var t := Run(p, EMPTY, [WrapCommand("1", Some(5)), WrapCommand("2", None)]);
            && NamespaceAt(t, WRAP_PLACE).nextIndex == U32_LIMIT
            && PrepareAllocation(p, t, OpKey("w", "3"), PROFILE_EVM, "r", None, None, true).1
               == Ok(Reservation("3", PROFILE_EVM, "r", 0, 0, EvmPath(0, 0), Prepared))
  {
    var p := WrapPrimitives();
    var k1, k2 := OpKey("w", "1"), OpKey("w", "2");
    ReserveSucceeds(p, EMPTY, k1, WRAP_PLACE, Some(5), 5);
    var t1 := Insert(p, EMPTY, k1, WRAP_PLACE, 5, EvmPath(0, 5), true);
    assert Step(p, EMPTY, WrapCommand("1", Some(5))) == t1;
    assert t1.rows == map[k1 := WrapRow(5)];
    WrapSecond(t1);
    var t2 := Insert(p, t1, k2, WRAP_PLACE, WRAP_LAST, EvmPath(0, WRAP_LAST), false);
    assert t2.rows == map[k1 := WrapRow(5), k2 := WrapRow(WRAP_LAST)];
    WrapThird(t2);
    assert Run(p, t1, [WrapCommand("2", None)]) == t2;
    assert [WrapCommand("1", Some(5)), WrapCommand("2", None)][1..] == [WrapCommand("2", None)];
  }

  // ---------------------------------------------------------------- the shared account number

  ghost predicate EvmRowAt(t: Tables, wallet: string, n: nat) {
    exists k :: k in t.rows && k.wallet == wallet && t.rows[k].profile == PROFILE_EVM
                && t.rows[k].account == 0 && t.rows[k].index == n
  }

  ghost predicate EvmTombstoneAt(t: Tables, wallet: string, n: nat) {
    exists k :: k in t.tombstones && k.place.wallet == wallet && k.place.profile == PROFILE_EVM
                && k.place.account == 0 && k.index == n
  }

  ghost predicate SolanaRowAt(t: Tables, wallet: string, n: nat) {
    exists k :: k in t.rows && k.wallet == wallet && t.rows[k].profile == PROFILE_SOLANA && t.rows[k].account == n
  }

  /** The wallet has a row, of any role and state, or a tombstone on number `n` in either family. */
  ghost predicate UsedNumber(t: Tables, wallet: string, n: nat) {
    EvmRowAt(t, wallet, n) || EvmTombstoneAt(t, wallet, n) || SolanaRowAt(t, wallet, n)
  }

  /** The next account number is exactly one more than the highest number ever used, or 0. */
  lemma NextNumberExact(t: Tables, wallet: string)
    requires CountersSound(t)
    ensures forall n: nat :: UsedNumber(t, wallet, n) ==> n < NextNumber(t, wallet)
    ensures NextNumber(t, wallet) > 0 ==> UsedNumber(t, wallet, NextNumber(t, wallet) - 1)
  {
    forall n: nat | UsedNumber(t, wallet, n) ensures n < NextNumber(t, wallet) {
      UsedIsBelow(t, wallet, n);
    }
    if NextNumber(t, wallet) > 0 {
      TopIsUsed(t, wallet);
    }
  }

  lemma UsedIsBelow(t: Tables, wallet: string, n: nat)
    requires CountersSound(t) && UsedNumber(t, wallet, n)
    ensures n < NextNumber(t, wallet)
  {
    if EvmRowAt(t, wallet, n) {
      var k :| k in t.rows && k.wallet == wallet && t.rows[k].profile == PROFILE_EVM
               && t.rows[k].account == 0 && t.rows[k].index == n;
      assert Below(t, k);
      CounterCounts(t, wallet, PlaceOf(k, t.rows[k]));
    } else if EvmTombstoneAt(t, wallet, n) {
      var k :| k in t.tombstones && k.place.wallet == wallet && k.place.profile == PROFILE_EVM
               && k.place.account == 0 && k.index == n;
      assert k.index + 1 in UsedNumbers(t, wallet);
    } else {
      assert n in SolanaAccounts(t, wallet);
      assert n + 1 in UsedNumbers(t, wallet);
    }
  }

  lemma CounterCounts(t: Tables, wallet: string, place: Place)
    requires place in t.namespaces && place.wallet == wallet && place.profile == PROFILE_EVM && place.account == 0
    ensures t.namespaces[place].nextIndex <= NextNumber(t, wallet)
  {
    assert t.namespaces[place].nextIndex in UsedNumbers(t, wallet);
  }

  lemma TopIsUsed(t: Tables, wallet: string)
    requires CountersSound(t) && NextNumber(t, wallet) > 0
    ensures UsedNumber(t, wallet, NextNumber(t, wallet) - 1)
  {
  }

  /** Numbers never come back: over any run the next account number does not fall. */
  lemma NextNumberNeverFalls(p: Primitives, t: Tables, commands: seq<Command>, wallet: string)
    requires Reachable(p, t) && AllHonest(p, commands)
    ensures NextNumber(t, wallet) <= NextNumber(Run(p, t, commands), wallet)
  {
    ReachableInvariant(p, t);
    RunKeepsInvariant(p, t, commands);
    RunLater(p, t, commands);
    StillUsed(t, Run(p, t, commands), wallet);
  }

  lemma UsedStays(t: Tables, t': Tables, wallet: string, n: nat)
    requires RowsLater(t, t') && TombstonesLater(t, t') && UsedNumber(t, wallet, n)
    ensures UsedNumber(t', wallet, n)
  {
  }

  lemma StillUsed(t: Tables, t': Tables, wallet: string)
    requires CountersSound(t) && CountersSound(t') && Later(t, t')
    ensures NextNumber(t, wallet) <= NextNumber(t', wallet)
  {
    if NextNumber(t, wallet) > 0 {
      TopIsUsed(t, wallet);
      UsedStays(t, t', wallet, NextNumber(t, wallet) - 1);
      UsedIsBelow(t', wallet, NextNumber(t, wallet) - 1);
    }
  }

  /**
   A fresh operation that targets the next account number in the EVM family is never refused for
   a conflict: the answer is determined by the cap, the child's validity and the audit alone.
   */
  lemma FreshEvmTarget(p: Primitives, t: Tables, key: OpKey, role: string, auditOk: bool)
    requires Reachable(p, t) && key !in t.rows && NextAccountNumber(t, key.wallet).Ok?
    ensures var n := NextAccountNumber(t, key.wallet).value;
            var place := Place(key.wallet, PROFILE_EVM, role, 0);
            PrepareAllocation(p, t, key, PROFILE_EVM, role, Some(0), Some(n), auditOk).1
            == if |LiveRows(t, place)| >= DEFAULT_NAMESPACE_CAP then Err(LimitExceeded)
               else if p.invalidChild(key.wallet, PROFILE_EVM, 0, n) then Err(InvalidChildIndex)
               else if !auditOk then Err(AuditRefused)
               else Ok(Reservation(key.operation, PROFILE_EVM, role, 0, n, EvmPath(0, n), Prepared))
  {
    var n := NextAccountNumber(t, key.wallet).value;
    NextNumberUnused(p, t, key.wallet);
    var place := FreshPrepare(p, t, key, PROFILE_EVM, role, Some(0), Some(n), auditOk);
    EvmNumberFree(p, t, place, n);
  }

  lemma NextNumberUnused(p: Primitives, t: Tables, wallet: string)
    requires Reachable(p, t)
    ensures Invariant(p, t) && !UsedNumber(t, wallet, NextNumber(t, wallet))
  {
    ReachableInvariant(p, t);
    NextNumberExact(t, wallet);
  }

  lemma EvmNumberFree(p: Primitives, t: Tables, place: Place, n: nat)
    requires Invariant(p, t) && place.profile == PROFILE_EVM && place.account == 0 && !UsedNumber(t, place.wallet, n)
    ensures NamespaceAt(t, place).maximumChildren == DEFAULT_NAMESPACE_CAP
    ensures IndexKey(place, n) !in t.tombstones && !PathOwned(t, place.wallet, PROFILE_EVM, EvmPath(0, n))
  {
    if PathOwned(t, place.wallet, PROFILE_EVM, EvmPath(0, n)) {
      var k :| k in t.rows && k.wallet == place.wallet && t.rows[k].profile == PROFILE_EVM && t.rows[k].path == EvmPath(0, n);
      assert RowSound(p, k.wallet, t.rows[k]);
      EvmPathInjective(t.rows[k].account, t.rows[k].index, 0, n);
      assert false;
    }
  }

  /** Nor in the Solana family, where the number is the account and the first valid index is taken. */
  lemma FreshSolanaTarget(p: Primitives, t: Tables, key: OpKey, role: string, auditOk: bool)
    requires Reachable(p, t) && key !in t.rows && NextAccountNumber(t, key.wallet).Ok?
    ensures var n := NextAccountNumber(t, key.wallet).value;
            match PrepareAllocation(p, t, key, PROFILE_SOLANA, role, Some(n), None, auditOk).1
            case Ok(r) => auditOk && r.account == n && r.path == SolanaPath(n)
            case Err(error) =>
              error == (if exists j: nat :: j < U32_LIMIT && !Dead(p, t, Place(key.wallet, PROFILE_SOLANA, role, n), j)
                        then AuditRefused else IndexSpacePanic)
  {
    var n := NextAccountNumber(t, key.wallet).value;
    NextNumberUnused(p, t, key.wallet);
    var place := FreshPrepare(p, t, key, PROFILE_SOLANA, role, Some(n), None, auditOk);
    SolanaPlaceUnused(p, t, place);
    SolanaNumberFree(p, t, key.wallet, n);
    FirstFound(p, t, place);
  }

  lemma SolanaNumberFree(p: Primitives, t: Tables, wallet: string, n: nat)
    requires RowsSound(p, t) && !UsedNumber(t, wallet, n)
    ensures !PathOwned(t, wallet, PROFILE_SOLANA, SolanaPath(n))
  {
    if PathOwned(t, wallet, PROFILE_SOLANA, SolanaPath(n)) {
      var k :| k in t.rows && k.wallet == wallet && t.rows[k].profile == PROFILE_SOLANA && t.rows[k].path == SolanaPath(n);
      assert RowSound(p, k.wallet, t.rows[k]);
      SolanaPathInjective(t.rows[k].account, n);
      assert false;
    }
  }

  lemma SolanaPlaceUnused(p: Primitives, t: Tables, place: Place)
    requires Invariant(p, t) && place.profile == PROFILE_SOLANA && !UsedNumber(t, place.wallet, place.account)
    ensures LiveRows(t, place) == {} && NamespaceAt(t, place) == Namespace(0, DEFAULT_NAMESPACE_CAP)
  {
  }

  lemma FirstFound(p: Primitives, t: Tables, place: Place)
    requires NamespaceAt(t, place).nextIndex == 0
    ensures match ChooseIndex(p, t, place, NamespaceAt(t, place), None)
            case Ok(index) => index < U32_LIMIT && !Dead(p, t, place, index)
            case Err(error) => error == IndexSpacePanic && forall j: nat :: j < U32_LIMIT ==> Dead(p, t, place, j)
  {
    var dead := (c: nat) => Dead(p, t, place, c);
    if FirstLive(0, dead).None? {
      forall j: nat | j < U32_LIMIT ensures Dead(p, t, place, j) {
        assert dead(j);
      }
    }
  }

  /** After a success, or an invalid child, on the next number the next number is strictly larger. */
  lemma NextNumberAdvances(p: Primitives, t: Tables, key: OpKey, role: string, auditOk: bool, evm: bool)
    requires Reachable(p, t) && key !in t.rows && NextAccountNumber(t, key.wallet).Ok?
    ensures var n := NextAccountNumber(t, key.wallet).value;
            var (t', r) := if evm then PrepareAllocation(p, t, key, PROFILE_EVM, role, Some(0), Some(n), auditOk)
                           else PrepareAllocation(p, t, key, PROFILE_SOLANA, role, Some(n), None, auditOk);
            r.Ok? || r == Err(InvalidChildIndex) ==> NextNumber(t', key.wallet) > n
  {
    var n := NextAccountNumber(t, key.wallet).value;
    if evm {
      var place := FreshPrepare(p, t, key, PROFILE_EVM, role, Some(0), Some(n), auditOk);
      ReservedIsUsed(p, t, key, place, Some(n), auditOk, n);
    } else {
      var place := FreshPrepare(p, t, key, PROFILE_SOLANA, role, Some(n), None, auditOk);
      ReservedIsUsed(p, t, key, place, None, auditOk, n);
    }
  }

  lemma ReservedIsUsed(p: Primitives, t: Tables, key: OpKey, place: Place, target: Option<nat>, auditOk: bool, n: nat)
    requires Reachable(p, t) && key !in t.rows && key.wallet == place.wallet && place.account < HARDENED_OFFSET
    requires if target.Some? then target.value == n < HARDENED_OFFSET && place.profile == PROFILE_EVM && place.account == 0
             else place.profile == PROFILE_SOLANA && place.account == n
    ensures var (t', r) := Reserve(p, t, key, place, target, auditOk);
            r.Ok? || r == Err(InvalidChildIndex) ==> NextNumber(t', key.wallet) > n
  {
    ReachableInvariant(p, t);
    var e := ReserveEffect(p, t, key, place, target, auditOk);
    if e != Nothing {
      EffectUses(p, t, e, key.wallet, n);
    }
  }

  lemma EffectUses(p: Primitives, t: Tables, e: Effect, wallet: string, n: nat)
    requires CountersSound(t) && Allowed(p, t, e) && Occupies(e, wallet, n)
    ensures n < NextNumber(Apply(p, t, e), wallet)
  {
    KeepsCounters(p, t, e);
    NextNumberExact(Apply(p, t, e), wallet);
    OccupiedIsUsed(p, t, e, wallet, n);
  }

  lemma OccupiedIsUsed(p: Primitives, t: Tables, e: Effect, wallet: string, n: nat)
    requires Allowed(p, t, e) && Occupies(e, wallet, n)
    ensures UsedNumber(Apply(p, t, e), wallet, n)
  {
  }

  /** The effect puts a row or a tombstone on number `n` of the wallet. */
  predicate Occupies(e: Effect, wallet: string, n: nat) {
    match e
    case Inserted(key, place, index, _) =>
      && key.wallet == wallet
      && ((place.profile == PROFILE_EVM && place.account == 0 && index == n)
          || (place.profile == PROFILE_SOLANA && place.account == n))
    case Discovered(found, _) =>
      found.place.wallet == wallet && found.place.profile == PROFILE_EVM && found.place.account == 0 && found.index == n
    case _ => false
  }
}
