/**
 What every registry operation answers and what it then leaves, told in rows, tombstones and events,
 and what a tombstone ends for good.
 */
module RegistryAnswers {
  import opened Limits
  import opened Wrappers
  import Paths
  import opened EventChain
  import opened DerivationRegistry
  import opened RegistryInvariants
  import opened RegistryTheorems

  /** One row changes, with one event for it from its former state; nothing else does but, for an ending, its tombstone. */
  ghost predicate Moves(t: Tables, t': Tables, key: OpKey, row': Row)
    requires key in t.rows
  {
    && t'.rows == t.rows[key := row'] && t'.namespaces == t.namespaces
    && |t'.events| == |t.events| + 1 && t'.events[..|t.events|] == t.events
    && var e := t'.events[|t.events|];
       && e.wallet == key.wallet && e.operation == key.operation
       && e.from == Some(t.rows[key].state.Label()) && e.to == row'.state.Label()
  }

  function Reserved(key: OpKey, row: Row, state: Lifecycle): Reservation {
    Reservation(key.operation, row.profile, row.role, row.account, row.index, row.path, state)
  }

  predicate At(t: Tables, key: OpKey, state: Lifecycle) { key in t.rows && t.rows[key].state == state }

  lemma AdvanceMoves(p: Primitives, t: Tables, key: OpKey, row': Row)
    requires key in t.rows
    ensures Moves(t, Advance(p, t, key, row'), key, row') && Advance(p, t, key, row').tombstones == t.tombstones
  {
  }

  // ---------------------------------------------------------------- the pipeline

  /** The index is committed from PREPARED with the audit's consent, and stays committed up to ACTIVATED. */
  lemma CommitIndexExactly(p: Primitives, t: Tables, key: OpKey, auditOk: bool)
    ensures var (t', r) := CommitIndex(p, t, key, auditOk);
            && (r.Ok? <==> (At(t, key, Prepared) && auditOk)
                           || At(t, key, IndexCommitted) || At(t, key, AccountCommitted) || At(t, key, Activated))
            && (if At(t, key, Prepared) && auditOk then
                  && Moves(t, t', key, t.rows[key].(state := IndexCommitted)) && t'.tombstones == t.tombstones
                  && r.value == Reserved(key, t.rows[key], IndexCommitted)
                else t' == t && (r.Ok? ==> r.value == Reserved(key, t.rows[key], t.rows[key].state)))
            && (r.Err? ==> r.error == if At(t, key, Prepared) then AuditRefused else Invalid)
  {
    if At(t, key, Prepared) {
      AdvanceMoves(p, t, key, t.rows[key].(state := IndexCommitted));
    }
  }

  /** The account is committed from INDEX_COMMITTED, to a descriptor that digests to the fingerprint, and only once. */
  lemma CommitAccountExactly(p: Primitives, t: Tables, key: OpKey, spki: string, fingerprint: string, auditOk: bool)
    ensures var (t', r) := CommitAccount(p, t, key, spki, fingerprint, auditOk);
            && (r.Ok? <==> && p.digest(spki) == Some(fingerprint)
                           && ((At(t, key, IndexCommitted) && auditOk) || At(t, key, AccountCommitted) || At(t, key, Activated)))
            && (if At(t, key, IndexCommitted) && r.Ok? then
                  && Moves(t, t', key, t.rows[key].(state := AccountCommitted, spki := Some(spki), fingerprint := Some(fingerprint)))
                  && t'.tombstones == t.tombstones && r.value == Reserved(key, t.rows[key], AccountCommitted)
                else t' == t && (r.Ok? ==> r.value == Reserved(key, t.rows[key], t.rows[key].state)))
            && (r.Err? ==> r.error == if p.digest(spki) == Some(fingerprint) && At(t, key, IndexCommitted) then AuditRefused else Invalid)
  {
    if At(t, key, IndexCommitted) {
      AdvanceMoves(p, t, key, t.rows[key].(state := AccountCommitted, spki := Some(spki), fingerprint := Some(fingerprint)));
    }
  }

  /** The account of a row that carries its descriptor. */
  function Public(key: OpKey, row: Row): PublicAccount
    requires row.spki.Some? && row.fingerprint.Some?
  {
    PublicAccount(key.wallet, key.operation, row.profile, row.role, row.path, row.account, row.index, row.keySpec,
                  row.spki.value, row.fingerprint.value, Activated)
  }

  predicate Described(t: Tables, key: OpKey) {
    key in t.rows && t.rows[key].spki.Some? && t.rows[key].fingerprint.Some?
  }

  lemma CommittedIsDescribed(p: Primitives, t: Tables, key: OpKey)
    requires Reachable(p, t) && (At(t, key, AccountCommitted) || At(t, key, Activated))
    ensures Described(t, key)
  {
    ReachableInvariant(p, t);
    assert RowSound(p, key.wallet, t.rows[key]);
  }

  lemma DescribedActivates(p: Primitives, t: Tables, key: OpKey, auditOk: bool)
    requires Described(t, key) && (At(t, key, AccountCommitted) || At(t, key, Activated))
    ensures Activate(p, t, key, auditOk)
            == (if At(t, key, Activated) then (t, Ok(Public(key, t.rows[key])))
                else if auditOk then (Advance(p, t, key, t.rows[key].(state := Activated)), Ok(Public(key, t.rows[key])))
                else (t, Err(AuditRefused)))
  {
  }

  /** In every reachable state an account is activated from ACCOUNT_COMMITTED, and answered again while ACTIVATED. */
  lemma ActivateExactly(p: Primitives, t: Tables, key: OpKey, auditOk: bool)
    requires Reachable(p, t)
    ensures var (t', r) := Activate(p, t, key, auditOk);
            && (r.Ok? <==> (At(t, key, AccountCommitted) && auditOk) || At(t, key, Activated))
            && (if At(t, key, AccountCommitted) && auditOk then
                  Moves(t, t', key, t.rows[key].(state := Activated)) && t'.tombstones == t.tombstones
                else t' == t)
            && (r.Ok? ==> Described(t, key) && r.value == Public(key, t.rows[key]))
            && (r.Err? ==> r.error == if At(t, key, AccountCommitted) then AuditRefused else Invalid)
  {
    if At(t, key, AccountCommitted) || At(t, key, Activated) {
      CommittedIsDescribed(p, t, key);
      DescribedActivates(p, t, key, auditOk);
      AdvanceMoves(p, t, key, t.rows[key].(state := Activated));
    }
  }

  /** Only an ACTIVATED account is retired. */
  lemma RetireExactly(p: Primitives, t: Tables, key: OpKey, auditOk: bool)
    ensures var (t', r) := Retire(p, t, key, auditOk);
            && (r.Ok? <==> At(t, key, Activated) && auditOk)
            && (if r.Ok? then Moves(t, t', key, t.rows[key].(state := Retired)) && t'.tombstones == t.tombstones else t' == t)
            && (r.Err? ==> r.error == if At(t, key, Activated) then AuditRefused else Invalid)
  {
    if At(t, key, Activated) {
      AdvanceMoves(p, t, key, t.rows[key].(state := Retired));
    }
  }

  // ---------------------------------------------------------------- the end

  function IndexOf(key: OpKey, row: Row): IndexKey { IndexKey(Place(key.wallet, row.profile, row.role, row.account), row.index) }

  /** The step to TOMBSTONED, from a row that is not. */
  lemma EndingMoves(p: Primitives, t: Tables, key: OpKey, auditOk: bool)
    requires key in t.rows && !At(t, key, Tombstoned)
    ensures var (t', r) := Tombstone(p, t, key, auditOk);
            if auditOk then
              && r == Ok(()) && Moves(t, t', key, t.rows[key].(state := Tombstoned))
              && t'.tombstones == Bury(t.tombstones, IndexOf(key, t.rows[key]),
                                       if At(t, key, Activated) || At(t, key, Retired) then FormerlyLive else Abandoned)
            else t' == t && r == Err(AuditRefused)
  {
    AdvanceMoves(p, t, key, t.rows[key].(state := Tombstoned));
  }

  lemma EndedReplays(p: Primitives, t: Tables, key: OpKey)
    requires Invariant(p, t) && At(t, key, Tombstoned)
    ensures IndexOf(key, t.rows[key]) in t.tombstones
    ensures Replay(t.events, key.wallet, key.operation) == Some(Tombstoned.Label())
  {
    assert Buried(t, key) <==> t.rows[key].state == Tombstoned;
    assert Replay(t.events, key.wallet, key.operation) == LabelAt(t, key.wallet, key.operation);
  }

  /**
   In every reachable state any row is tombstoned with the audit's consent, and stays so. Its index is
   then buried, for the reason its former state gives, and its end is the last event of its log.
   */
  lemma TombstoneExactly(p: Primitives, t: Tables, key: OpKey, auditOk: bool)
    requires Reachable(p, t)
    ensures var (t', r) := Tombstone(p, t, key, auditOk);
            && (r.Ok? <==> key in t.rows && (auditOk || At(t, key, Tombstoned)))
            && (r.Err? ==> r.error == if key in t.rows then AuditRefused else Invalid)
            && (if r.Ok? && !At(t, key, Tombstoned) then
                  && Moves(t, t', key, t.rows[key].(state := Tombstoned))
                  && IndexOf(key, t.rows[key]) !in t.tombstones
                  && t'.tombstones == t.tombstones[IndexOf(key, t.rows[key]) :=
                       if At(t, key, Activated) || At(t, key, Retired) then FormerlyLive else Abandoned]
                else t' == t)
    ensures var (t', r) := Tombstone(p, t, key, auditOk);
            r.Ok? ==> At(t', key, Tombstoned) && IndexOf(key, t.rows[key]) in t'.tombstones
                      && Replay(t'.events, key.wallet, key.operation) == Some(Tombstoned.Label())
  {
    ReachableInvariant(p, t);
    if key in t.rows {
      assert Buried(t, key) <==> t.rows[key].state == Tombstoned;
      if !At(t, key, Tombstoned) {
        EndingMoves(p, t, key, auditOk);
      }
      TombstoneReplays(p, t, key, auditOk);
    }
  }

  lemma TombstoneReplays(p: Primitives, t: Tables, key: OpKey, auditOk: bool)
    requires Invariant(p, t) && key in t.rows
    ensures var (t', r) := Tombstone(p, t, key, auditOk);
            r.Ok? ==> At(t', key, Tombstoned) && IndexOf(key, t.rows[key]) in t'.tombstones
                      && Replay(t'.events, key.wallet, key.operation) == Some(Tombstoned.Label())
  {
    var (t', r) := Tombstone(p, t, key, auditOk);
    if r.Ok? {
      StepKeepsInvariant(p, t, TombstoneCmd(key, auditOk));
      if !At(t, key, Tombstoned) {
        EndingMoves(p, t, key, auditOk);
      }
      EndedReplays(p, t', key);
    }
  }

  /** A tombstoned operation refuses every further step, and tombstoning it again changes nothing. */
  lemma EndedRefuses(p: Primitives, t: Tables, key: OpKey, spki: string, fingerprint: string, auditOk: bool)
    requires At(t, key, Tombstoned)
    ensures CommitIndex(p, t, key, auditOk) == (t, Err(Invalid))
    ensures CommitAccount(p, t, key, spki, fingerprint, auditOk) == (t, Err(Invalid))
    ensures Activate(p, t, key, auditOk) == (t, Err(Invalid))
    ensures Retire(p, t, key, auditOk) == (t, Err(Invalid))
    ensures Tombstone(p, t, key, auditOk) == (t, Ok(()))
  {
  }

  /** No reservation is answered a buried index. */
  lemma BuriedNeverReserved(p: Primitives, t: Tables, key: OpKey, profile: string, role: string,
                            account: Option<nat>, target: Option<nat>, auditOk: bool)
    requires key !in t.rows
    ensures var r := PrepareAllocation(p, t, key, profile, role, account, target, auditOk).1;
            r.Ok? ==> IndexKey(Place(key.wallet, profile, role, r.value.account), r.value.index) !in t.tombstones
  {
    if RequestInRange(profile, account, target) && ChooseAccount(t, key.wallet, profile, account).Ok? {
      var place := FreshPrepare(p, t, key, profile, role, account, target, auditOk);
      var e := ReserveEffect(p, t, key, place, target, auditOk);
    }
  }

  /**
   After an accepted tombstone and any further run, committing, activating and retiring the operation
   are refused, its index stays buried, and no new reservation in its place is answered that index.
   */
  lemma TombstoneEnds(p: Primitives, t: Tables, key: OpKey, auditOk: bool, commands: seq<Command>,
                      spki: string, fingerprint: string, again: bool, q: Command)
    requires Reachable(p, t) && AllHonest(p, commands) && Tombstone(p, t, key, auditOk).1.Ok?
    ensures var t2 := Run(p, Tombstone(p, t, key, auditOk).0, commands);
            && At(t2, key, Tombstoned) && IndexOf(key, t.rows[key]) in t2.tombstones
            && CommitIndex(p, t2, key, again) == (t2, Err(Invalid))
            && CommitAccount(p, t2, key, spki, fingerprint, again) == (t2, Err(Invalid))
            && Activate(p, t2, key, again) == (t2, Err(Invalid))
            && Retire(p, t2, key, again) == (t2, Err(Invalid))
            && (q.PrepareCmd? && q.key !in t2.rows ==>
                  var r := PrepareAllocation(p, t2, q.key, q.profile, q.role, q.account, q.target, q.auditOk).1;
                  r.Ok? ==> IndexKey(Place(q.key.wallet, q.profile, q.role, r.value.account), r.value.index) != IndexOf(key, t.rows[key]))
  {
    TombstoneExactly(p, t, key, auditOk);
    var t1 := Tombstone(p, t, key, auditOk).0;
    ReachableStep(p, t, TombstoneCmd(key, auditOk));
    TombstonedForever(p, t1, commands, key);
    var t2 := Run(p, t1, commands);
    EndedRefuses(p, t2, key, spki, fingerprint, again);
    if q.PrepareCmd? && q.key !in t2.rows {
      BuriedNeverReserved(p, t2, q.key, q.profile, q.role, q.account, q.target, q.auditOk);
    }
  }

  lemma {:induction false} RunAppend(p: Primitives, t: Tables, commands: seq<Command>, c: Command)
    ensures Run(p, t, commands + [c]) == Step(p, Run(p, t, commands), c)
    decreases |commands|
  {
    if commands == [] {
      assert [] + [c] == [c] && [c][1..] == [];
      assert Run(p, t, [c]) == Run(p, Step(p, t, c), []);
    } else {
      assert (commands + [c])[0] == commands[0] && (commands + [c])[1..] == commands[1..] + [c];
      RunAppend(p, Step(p, t, commands[0]), commands[1..], c);
    }
  }

  lemma ReachableStep(p: Primitives, t: Tables, c: Command)
    requires Reachable(p, t) && Honest(p, c)
    ensures Reachable(p, Step(p, t, c))
  {
    var commands :| AllHonest(p, commands) && t == Run(p, EMPTY, commands);
    RunAppend(p, EMPTY, commands, c);
    assert AllHonest(p, commands + [c]);
  }

  // ---------------------------------------------------------------- reserving

  /** A reserved operation is answered its row exactly to the request that made it, or a vaguer one. */
  lemma PrepareAgainExactly(p: Primitives, t: Tables, key: OpKey, profile: string, role: string,
                            account: Option<nat>, target: Option<nat>, auditOk: bool)
    requires key in t.rows
    ensures var (t', r) := PrepareAllocation(p, t, key, profile, role, account, target, auditOk);
            var row := t.rows[key];
            && t' == t
            && (r.Ok? <==> && (account.Some? ==> account.value < HARDENED_OFFSET && account.value == row.account)
                           && (target.Some? ==> target.value < HARDENED_OFFSET && target.value == row.index && profile == PROFILE_EVM)
                           && row.profile == profile && row.role == role)
            && (r.Ok? ==> r.value == Reserved(key, row, row.state))
  {
  }

  /** The account a new request lands on: the one it names, 0, or one past the last Solana account the wallet used. */
  predicate Lands(t: Tables, wallet: string, profile: string, account: Option<nat>, number: nat) {
    && number < HARDENED_OFFSET
    && (if account.Some? then number == account.value
        else if profile != PROFILE_SOLANA then number == 0
        else
          && (forall k :: k in t.rows && k.wallet == wallet && t.rows[k].profile == PROFILE_SOLANA ==> t.rows[k].account < number)
          && (number == 0 || exists k :: k in t.rows && k.wallet == wallet && t.rows[k].profile == PROFILE_SOLANA
                                         && t.rows[k].account + 1 == number))
  }

  lemma LandsExactly(t: Tables, wallet: string, profile: string, account: Option<nat>, number: nat)
    requires account.Some? ==> account.value < HARDENED_OFFSET
    ensures Lands(t, wallet, profile, account, number) <==> ChooseAccount(t, wallet, profile, account) == Ok(number)
  {
    if account.None? && profile == PROFILE_SOLANA {
      SolanaLands(t, wallet, number);
    }
  }

  lemma SolanaUses(t: Tables, wallet: string, n: nat)
    ensures n in SolanaAccounts(t, wallet)
            <==> exists k :: k in t.rows && k.wallet == wallet && t.rows[k].profile == PROFILE_SOLANA && t.rows[k].account == n
  {
  }

  lemma SolanaLands(t: Tables, wallet: string, number: nat)
    ensures Lands(t, wallet, PROFILE_SOLANA, None, number) <==> ChooseAccount(t, wallet, PROFILE_SOLANA, None) == Ok(number)
  {
    var used := SolanaAccounts(t, wallet);
    var top := MaxOrZero(used);
    forall k | k in t.rows && k.wallet == wallet && t.rows[k].profile == PROFILE_SOLANA ensures t.rows[k].account in used {
      SolanaUses(t, wallet, t.rows[k].account);
    }
    if used != {} {
      SolanaUses(t, wallet, top);
      var k :| k in t.rows && k.wallet == wallet && t.rows[k].profile == PROFILE_SOLANA && t.rows[k].account == top;
      assert t.rows[k].account + 1 == top + 1;
    }
  }

  /** A request the registry looks at: indexes are targeted in the EVM family only, all below 2^31. */
  predicate WellFormed(profile: string, account: Option<nat>, target: Option<nat>) {
    && (account.Some? ==> account.value < HARDENED_OFFSET)
    && (target.Some? ==> target.value < HARDENED_OFFSET && profile == PROFILE_EVM)
  }

  predicate Free(p: Primitives, t: Tables, place: Place, index: nat) {
    IndexKey(place, index) !in t.tombstones && !p.invalidChild(place.wallet, place.profile, place.account, index)
  }

  /** The index a reservation takes: its target if free, or the first free one from the counter as the cast reads it. */
  predicate Takes(p: Primitives, t: Tables, place: Place, target: Option<nat>, index: nat) {
    && Free(p, t, place, index)
    && (if target.Some? then index == target.value
        else
          var start := (if place in t.namespaces then t.namespaces[place].nextIndex else 0) % U32_LIMIT;
          start <= index < U32_LIMIT && forall j :: start <= j < index ==> !Free(p, t, place, j))
  }

  lemma TakesExactly(p: Primitives, t: Tables, place: Place, target: Option<nat>, index: nat)
    ensures Takes(p, t, place, target, index) <==> ChooseIndex(p, t, place, NamespaceAt(t, place), target) == Ok(index)
  {
    if target.None? {
      var dead := (c: nat) => Dead(p, t, place, c);
      var start := CounterStart(NamespaceAt(t, place));
      var found := FirstLive(start, dead);
      forall j: nat ensures dead(j) <==> !Free(p, t, place, j) {
      }
      if Takes(p, t, place, target, index) {
        assert !dead(index);
        assert found.Some? && found.value <= index;
        assert !dead(found.value);
      }
    }
  }

  predicate Held(t: Tables, wallet: string, profile: string, path: string) {
    exists k :: k in t.rows && k.wallet == wallet && t.rows[k].profile == profile && t.rows[k].path == path
  }

  /** The operations of a place that are not tombstoned. */
  function Occupants(t: Tables, place: Place): set<OpKey> {
    set k | k in t.rows && k.wallet == place.wallet && t.rows[k].profile == place.profile && t.rows[k].role == place.role
            && t.rows[k].account == place.account && t.rows[k].state != Tombstoned
  }

  predicate Reserves(p: Primitives, t: Tables, place: Place, target: Option<nat>, auditOk: bool, index: nat) {
    && (place.profile == PROFILE_EVM || place.profile == PROFILE_SOLANA)
    && |Occupants(t, place)| < 100 && auditOk
    && Takes(p, t, place, target, index)
    && !Held(t, place.wallet, place.profile, if place.profile == PROFILE_EVM then Paths.EvmPath(place.account, index) else Paths.SolanaPath(place.account))
  }

  /** The row a new reservation makes. */
  function Fresh(place: Place, index: nat): Row {
    var evm := place.profile == PROFILE_EVM;
    Row(place.profile, place.role, place.account, index, if evm then Paths.EvmPath(place.account, index) else Paths.SolanaPath(place.account),
        Prepared, if evm then "secp256k1" else "ed25519", None, None)
  }

  /**
   In every reachable state a new operation is reserved if and only if its request is well formed, in a
   known family, its place has fewer than 100 live operations, an index is to be taken whose path no
   operation of the wallet's family holds, and the audit consents; it then has a PREPARED row there.
   */
  lemma PrepareNewExactly(p: Primitives, t: Tables, key: OpKey, profile: string, role: string,
                          account: Option<nat>, target: Option<nat>, auditOk: bool, number: nat)
    requires Reachable(p, t) && key !in t.rows && WellFormed(profile, account, target) && Lands(t, key.wallet, profile, account, number)
    ensures var (t', r) := PrepareAllocation(p, t, key, profile, role, account, target, auditOk);
            var place := Place(key.wallet, profile, role, number);
            && (r.Ok? <==> exists index: nat :: Reserves(p, t, place, target, auditOk, index))
            && (r.Ok? ==> Reserves(p, t, place, target, auditOk, r.value.index)
                          && r.value == Reserved(key, Fresh(place, r.value.index), Prepared)
                          && t'.rows == t.rows[key := Fresh(place, r.value.index)])
  {
    LandsExactly(t, key.wallet, profile, account, number);
    var place := FreshPrepare(p, t, key, profile, role, account, target, auditOk);
    ReserveExactly(p, t, key, place, target, auditOk);
  }

  lemma CapIsHundred(p: Primitives, t: Tables, place: Place)
    requires Reachable(p, t)
    ensures NamespaceAt(t, place).maximumChildren == 100 && LiveRows(t, place) == Occupants(t, place)
  {
    ReachableInvariant(p, t);
  }

  lemma ReserveExactly(p: Primitives, t: Tables, key: OpKey, place: Place, target: Option<nat>, auditOk: bool)
    requires Reachable(p, t) && key !in t.rows && place.wallet == key.wallet && place.account < HARDENED_OFFSET
    requires target.Some? ==> target.value < HARDENED_OFFSET
    ensures var (t', r) := Reserve(p, t, key, place, target, auditOk);
            && (r.Ok? <==> exists index: nat :: Reserves(p, t, place, target, auditOk, index))
            && (r.Ok? ==> Reserves(p, t, place, target, auditOk, r.value.index)
                          && r.value == Reserved(key, Fresh(place, r.value.index), Prepared)
                          && t'.rows == t.rows[key := Fresh(place, r.value.index)])
  {
    CapIsHundred(p, t, place);
    var choice := ChooseIndex(p, t, place, NamespaceAt(t, place), target);
    if choice.Ok? {
      TakesExactly(p, t, place, target, choice.value);
    }
    SettleExactly(p, t, key, place, target, auditOk, choice);
    if choice.Ok? {
      assert Reserve(p, t, key, place, target, auditOk).1.Ok? ==> Reserves(p, t, place, target, auditOk, choice.value);
    }
    forall index: nat | Reserves(p, t, place, target, auditOk, index) ensures choice == Ok(index) {
      TakesExactly(p, t, place, target, index);
    }
  }

  lemma SettleExactly(p: Primitives, t: Tables, key: OpKey, place: Place, target: Option<nat>, auditOk: bool, choice: Result<nat, Error>)
    requires key.wallet == place.wallet && choice == ChooseIndex(p, t, place, NamespaceAt(t, place), target)
    requires choice.Ok? ==> Takes(p, t, place, target, choice.value)
    ensures var (t', r) := Reserve(p, t, key, place, target, auditOk);
            && (r.Ok? <==> && KnownProfile(place.profile) && |LiveRows(t, place)| < NamespaceAt(t, place).maximumChildren
                           && choice.Ok? && auditOk && !Held(t, place.wallet, place.profile, Fresh(place, choice.value).path))
            && (r.Ok? ==> r.value == Reserved(key, Fresh(place, choice.value), Prepared) && t'.rows == t.rows[key := Fresh(place, choice.value)])
  {
  }

  /** A refused reservation changes nothing, but that a free target which is an invalid child is buried as such. */
  lemma PrepareRefusedLeaves(p: Primitives, t: Tables, key: OpKey, profile: string, role: string,
                             account: Option<nat>, target: Option<nat>, auditOk: bool, number: nat)
    requires key !in t.rows && WellFormed(profile, account, target) && Lands(t, key.wallet, profile, account, number)
    requires PrepareAllocation(p, t, key, profile, role, account, target, auditOk).1.Err?
    ensures var (t', r) := PrepareAllocation(p, t, key, profile, role, account, target, auditOk);
            var place := Place(key.wallet, profile, role, number);
            if r.error == InvalidChildIndex then
              && target.Some? && p.invalidChild(key.wallet, profile, number, target.value) && IndexKey(place, target.value) !in t.tombstones
              && t'.rows == t.rows && t'.events == t.events
              && t'.tombstones == t.tombstones[IndexKey(place, target.value) := InvalidChild]
            else t' == t
  {
    LandsExactly(t, key.wallet, profile, account, number);
    var place := FreshPrepare(p, t, key, profile, role, account, target, auditOk);
    ReserveRefusedLeaves(p, t, key, place, target, auditOk);
  }

  lemma ReserveRefusedLeaves(p: Primitives, t: Tables, key: OpKey, place: Place, target: Option<nat>, auditOk: bool)
    requires Reserve(p, t, key, place, target, auditOk).1.Err? && key.wallet == place.wallet
    ensures var (t', r) := Reserve(p, t, key, place, target, auditOk);
            if r.error == InvalidChildIndex then
              && target.Some? && p.invalidChild(key.wallet, place.profile, place.account, target.value)
              && IndexKey(place, target.value) !in t.tombstones
              && t'.rows == t.rows && t'.events == t.events
              && t'.tombstones == t.tombstones[IndexKey(place, target.value) := InvalidChild]
            else t' == t
  {
  }

  /** A malformed request, and one that no account is left for, changes nothing. */
  lemma PrepareUnplacedLeaves(p: Primitives, t: Tables, key: OpKey, profile: string, role: string,
                              account: Option<nat>, target: Option<nat>, auditOk: bool)
    requires key !in t.rows && !(WellFormed(profile, account, target) && exists number: nat :: Lands(t, key.wallet, profile, account, number))
    ensures var (t', r) := PrepareAllocation(p, t, key, profile, role, account, target, auditOk);
            t' == t && r.Err?
  {
    var chosen := ChooseAccount(t, key.wallet, profile, account);
    if WellFormed(profile, account, target) && chosen.Ok? {
      LandsExactly(t, key.wallet, profile, account, chosen.value);
    }
  }

  // ---------------------------------------------------------------- invalid children and account numbers

  /** Recording an invalid child buries its index, and an index that is buried keeps its reason. */
  lemma RecordInvalidExactly(t: Tables, key: IndexKey)
    ensures var t' := RecordInvalidChild(t, key);
            t' == t.(tombstones := if key in t.tombstones then t.tombstones else t.tombstones[key := InvalidChild])
  {
  }

  lemma NumberIsNext(t: Tables, wallet: string, n: nat)
    requires CountersSound(t)
    ensures n == NextNumber(t, wallet)
            <==> (forall m: nat :: UsedNumber(t, wallet, m) ==> m < n) && (n == 0 || UsedNumber(t, wallet, n - 1))
  {
    var next := NextNumber(t, wallet);
    if next > 0 {
      TopIsUsed(t, wallet);
    }
    if n > 0 && UsedNumber(t, wallet, n - 1) {
      UsedIsBelow(t, wallet, n - 1);
    }
    if n == next {
      forall m: nat | UsedNumber(t, wallet, m) ensures m < n {
        UsedIsBelow(t, wallet, m);
      }
    }
  }

  /**
   In every reachable state the next account number is answered if and only if it is below 2^31; it is above every used
   number, the last of which it follows.
   */
  lemma NextAccountExactly(p: Primitives, t: Tables, wallet: string, n: nat)
    requires Reachable(p, t)
    ensures NextAccountNumber(t, wallet) == Ok(n)
            <==> n < HARDENED_OFFSET && (forall m: nat :: UsedNumber(t, wallet, m) ==> m < n) && (n == 0 || UsedNumber(t, wallet, n - 1))
  {
    ReachableInvariant(p, t);
    NumberIsNext(t, wallet, n);
  }
}
