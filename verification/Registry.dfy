/**
 The registry as the program runs it: tables updated statement by statement inside a transaction
 that an early error rolls back. Every method is proved equal to the operation it implements.
 */
module Registry {
  import opened Limits
  import opened Wrappers
  import opened EventChain
  import opened DerivationRegistry

  /** The indexes `low..high` in order. */
  function Range(low: nat, high: nat): (r: seq<nat>)
    requires low <= high
    ensures |r| == high - low && forall i :: 0 <= i < |r| ==> r[i] == low + i
  {
    seq(high - low, i => low + i)
  }

  /**
   `next_valid_index`: the first index that is not invalid, with every index skipped on the way.
   None stands for the panic at the end of the 32-bit index space.
   */
  method NextValidIndex(start: nat, invalid: nat -> bool) returns (r: Option<(nat, seq<nat>)>)
    requires start < U32_LIMIT
    ensures r.None? ==> forall j :: start <= j < U32_LIMIT ==> invalid(j)
    ensures r.Some? ==> start <= r.value.0 < U32_LIMIT && !invalid(r.value.0)
    ensures r.Some? ==> r.value.1 == Range(start, r.value.0) && forall j :: start <= j < r.value.0 ==> invalid(j)
  {
    var skipped: seq<nat> := [];
    var candidate := start;
    while invalid(candidate)
      invariant start <= candidate < U32_LIMIT
      invariant skipped == Range(start, candidate)
      invariant forall j :: start <= j < candidate ==> invalid(j)
      decreases U32_LIMIT - candidate
    {
      skipped := skipped + [candidate];
      if candidate + 1 == U32_LIMIT {
        return None;
      }
      candidate := candidate + 1;
    }
    return Some((candidate, skipped));
  }

  /** SQL `MAX`, with 0 for no rows. */
  method Highest(numbers: set<nat>) returns (m: nat)
    ensures m == MaxOrZero(numbers)
  {
    m := 0;
    var rest := numbers;
    while rest != {}
      invariant rest <= numbers
      invariant m == 0 || m in numbers
      invariant forall x :: x in numbers && x !in rest ==> x <= m
    {
      var x :| x in rest;
      if x > m {
        m := x;
      }
      rest := rest - {x};
    }
  }

  class Registry {
    const primitives: Primitives
    var namespaces: map<Place, Namespace>
    var rows: map<OpKey, Row>
    var tombstones: map<IndexKey, Reason>
    var events: seq<Event>

    constructor (primitives: Primitives)
      ensures this.primitives == primitives && Contents() == EMPTY
    {
      this.primitives := primitives;
      namespaces, rows, tombstones, events := map[], map[], map[], [];
    }

    function Contents(): Tables
      reads this
    {
      Tables(namespaces, rows, tombstones, events)
    }

    method Rollback(saved: Tables)
      modifies this
      ensures Contents() == saved
    {
      namespaces, rows, tombstones, events := saved.namespaces, saved.rows, saved.tombstones, saved.events;
    }

    method EnsureNamespace(place: Place) returns (known: bool)
      modifies this`namespaces
      ensures known == KnownProfile(place.profile)
      ensures namespaces == if known then old(namespaces)[place := NamespaceAt(old(Contents()), place)] else old(namespaces)
    {
      if !KnownProfile(place.profile) {
        return false;
      }
      if place !in namespaces {
        namespaces := namespaces[place := Namespace(0, DEFAULT_NAMESPACE_CAP)];
      }
      return true;
    }

    /** `INSERT OR IGNORE` into the tombstones. */
    method InsertTombstone(key: IndexKey, reason: Reason)
      modifies this`tombstones
      ensures tombstones == Bury(old(tombstones), key, reason)
    {
      if key !in tombstones {
        tombstones := tombstones[key := reason];
      }
    }

    /** `append_event`. */
    method AppendEvent(key: OpKey, from: Option<Lifecycle>, to: Lifecycle)
      modifies this`events
      ensures events == Append(primitives.hash, old(events), key.wallet, key.operation, from, to)
    {
      var text := if from.Some? then Some(from.value.Label()) else None;
      var previous := if |events| == 0 then GENESIS else events[|events| - 1].entry;
      var open := Event(key.wallet, key.operation, text, to.Label(), previous, "");
      events := events + [open.(entry := primitives.hash(Preimage(open)))];
    }

    method BurySkipped(place: Place, start: nat, skipped: seq<nat>)
      requires skipped == Range(start, start + |skipped|)
      modifies this`tombstones
      ensures tombstones == BuryRange(old(tombstones), place, start, start + |skipped|)
    {
      for i := 0 to |skipped|
        invariant tombstones == BuryRange(old(tombstones), place, start, start + i)
      {
        InsertTombstone(IndexKey(place, skipped[i]), InvalidChild);
      }
    }

    /** `next_account_number`. */
    method NextAccountNumber(wallet: string) returns (r: Result<nat, Error>)
      ensures r == DerivationRegistry.NextAccountNumber(Contents(), wallet)
    {
      var next := Highest(UsedNumbers(Contents(), wallet));
      return if next < HARDENED_OFFSET then Ok(next) else Err(LimitExceeded);
    }

    method ResolveAccount(wallet: string, profile: string, account: Option<nat>) returns (r: Result<nat, Error>)
      ensures r == ChooseAccount(Contents(), wallet, profile, account)
    {
      if account.Some? {
        return Ok(account.value);
      }
      if profile == PROFILE_SOLANA {
        var used := SolanaAccounts(Contents(), wallet);
        if used == {} {
          return Ok(0);
        }
        var highest := Highest(used);
        return if highest < HARDENED_OFFSET - 1 then Ok(highest + 1) else Err(LimitExceeded);
      }
      return Ok(0);
    }

    /** The index choice, and the indexes an ordinary reservation skipped. */
    method PickIndex(place: Place, target: Option<nat>) returns (r: Result<nat, Error>, skipped: seq<nat>)
      requires place in namespaces
      ensures r == ChooseIndex(primitives, Contents(), place, namespaces[place], target)
      ensures r.Ok? && target.None? ==>
                CounterStart(namespaces[place]) <= r.value && skipped == Range(CounterStart(namespaces[place]), r.value)
    {
      skipped := [];
      match target
      case None =>
        var start := namespaces[place].nextIndex % U32_LIMIT;
        var p, t := primitives, Contents();
        var dead := (c: nat) => Dead(p, t, place, c);
        var found := NextValidIndex(start, dead);
        FirstLiveUnique(start, dead);
        if found.None? {
          return Err(IndexSpacePanic), [];
        }
        return Ok(found.value.0), found.value.1;
      case Some(index) =>
        if IndexKey(place, index) in tombstones {
          return Err(Conflict), [];
        }
        if primitives.invalidChild(place.wallet, place.profile, place.account, index) {
          return Err(InvalidChildIndex), [];
        }
        return Ok(index), [];
    }

    /** `prepare_allocation_at`, from its first write to its commit. */
    method ReserveInTransaction(key: OpKey, place: Place, target: Option<nat>, auditOk: bool)
        returns (r: Result<Reservation, Error>)
      modifies this
      ensures (Contents(), r) == Reserve(primitives, old(Contents()), key, place, target, auditOk)
    {
      var saved := Contents();
      var known := EnsureNamespace(place);
      if !known {
        return Err(Invalid);
      }
      var ns := namespaces[place];
      if |LiveRows(saved, place)| >= ns.maximumChildren {
        Rollback(saved);
        return Err(LimitExceeded);
      }
      var picked, skipped := PickIndex(place, target);
      SameChoice(primitives, saved, Contents(), place, ns, target);
      r := SettleInTransaction(saved, key, place, target, auditOk, picked, skipped);
    }

    method SettleInTransaction(saved: Tables, key: OpKey, place: Place, target: Option<nat>, auditOk: bool,
                               picked: Result<nat, Error>, skipped: seq<nat>) returns (r: Result<Reservation, Error>)
      requires KnownProfile(place.profile)
      requires Contents() == saved.(namespaces := saved.namespaces[place := NamespaceAt(saved, place)])
      requires picked.Ok? && target.None? ==>
                 var start := CounterStart(NamespaceAt(saved, place));
                 start <= picked.value && skipped == Range(start, picked.value)
      modifies this
      ensures (Contents(), r) == Settle(primitives, saved, key, place, target, auditOk, picked)
    {
      if picked.Err? {
        if picked.error == InvalidChildIndex && target.Some? {
          InsertTombstone(IndexKey(place, target.value), InvalidChild);
        } else {
          Rollback(saved);
        }
        return Err(picked.error);
      }
      var index := picked.value;
      var path := ResolveCanonicalPath(place.profile, place.account, index).value;
      if PathOwned(saved, key.wallet, place.profile, path) {
        Rollback(saved);
        return Err(Conflict);
      }
      OpeningAbsorbed(primitives, saved, key, place, index, path, target.Some?);
      if !auditOk {
        Rollback(saved);
        return Err(AuditRefused);
      }
      Commit(key, place, index, path, target.Some?, skipped);
      return Ok(ReservationOf(key, rows[key]));
    }

    /** The writes of a successful reservation. */
    method Commit(key: OpKey, place: Place, index: nat, path: string, targeted: bool, skipped: seq<nat>)
      requires place in namespaces
      requires !targeted ==> CounterStart(namespaces[place]) <= index && skipped == Range(CounterStart(namespaces[place]), index)
      modifies this
      ensures Contents() == Insert(primitives, old(Contents()), key, place, index, path, targeted)
    {
      var ns := namespaces[place];
      if targeted {
        namespaces := namespaces[place := ns.(nextIndex := if index + 1 > ns.nextIndex then index + 1 else ns.nextIndex)];
      } else {
        BurySkipped(place, ns.nextIndex % U32_LIMIT, skipped);
        if ns.nextIndex == ns.nextIndex % U32_LIMIT {
          namespaces := namespaces[place := ns.(nextIndex := index + 1)];
        }
      }
      rows := rows[key := NewRow(place, index, path)];
      AppendEvent(key, None, Prepared);
    }

    /** `prepare_allocation_at`. */
    method PrepareAllocationAt(key: OpKey, profile: string, role: string, account: Option<nat>, target: Option<nat>,
                               auditOk: bool) returns (r: Result<Reservation, Error>)
      modifies this
      ensures (Contents(), r) == PrepareAllocation(primitives, old(Contents()), key, profile, role, account, target, auditOk)
    {
      if !RequestInRange(profile, account, target) {
        return Err(Invalid);
      }
      if key in rows {
        return Retry(key, rows[key], profile, role, account, target);
      }
      var number := ResolveAccount(key.wallet, profile, account);
      if number.Err? {
        return Err(number.error);
      }
      r := ReserveInTransaction(key, Place(key.wallet, profile, role, number.value), target, auditOk);
    }

    /** `transition`: rewrite a row that is in the expected state, and log the change. */
    method Transition(key: OpKey, from: Lifecycle, to: Lifecycle) returns (updated: bool)
      modifies this
      ensures updated == (key in old(rows) && old(rows)[key].state == from)
      ensures Contents() == if updated then Advance(primitives, old(Contents()), key, old(rows)[key].(state := to)) else old(Contents())
    {
      if key !in rows || rows[key].state != from {
        return false;
      }
      rows := rows[key := rows[key].(state := to)];
      AppendEvent(key, Some(from), to);
      return true;
    }

    /** `commit_index`. */
    method CommitIndex(key: OpKey, auditOk: bool) returns (r: Result<Reservation, Error>)
      modifies this
      ensures (Contents(), r) == DerivationRegistry.CommitIndex(primitives, old(Contents()), key, auditOk)
    {
      var saved := Contents();
      if key !in rows {
        return Err(Invalid);
      }
      var current := rows[key].state;
      if current != Prepared {
        if current == IndexCommitted || current == AccountCommitted || current == Activated {
          return Ok(ReservationOf(key, rows[key]));
        }
        return Err(Invalid);
      }
      var updated := Transition(key, Prepared, IndexCommitted);
      if !auditOk {
        Rollback(saved);
        return Err(AuditRefused);
      }
      return Ok(ReservationOf(key, rows[key]));
    }

    /** `commit_account`. */
    method CommitAccount(key: OpKey, spki: string, fingerprint: string, auditOk: bool) returns (r: Result<Reservation, Error>)
      modifies this
      ensures (Contents(), r)
              == DerivationRegistry.CommitAccount(primitives, old(Contents()), key, spki, fingerprint, auditOk)
    {
      if primitives.digest(spki) != Some(fingerprint) || key !in rows {
        return Err(Invalid);
      }
      var saved := Contents();
      if rows[key].state == AccountCommitted || rows[key].state == Activated {
        return Ok(ReservationOf(key, rows[key]));
      }
      if rows[key].state != IndexCommitted {
        return Err(Invalid);
      }
      rows := rows[key := rows[key].(state := AccountCommitted, spki := Some(spki), fingerprint := Some(fingerprint))];
      AppendEvent(key, Some(IndexCommitted), AccountCommitted);
      if !auditOk {
        Rollback(saved);
        return Err(AuditRefused);
      }
      return Ok(ReservationOf(key, rows[key]));
    }

    /** `activate`. */
    method Activate(key: OpKey, auditOk: bool) returns (r: Result<PublicAccount, Error>)
      modifies this
      ensures (Contents(), r) == DerivationRegistry.Activate(primitives, old(Contents()), key, auditOk)
    {
      var saved := Contents();
      if key !in rows {
        return Err(Invalid);
      }
      if rows[key].state == Activated {
        return PublicOf(key, rows[key]);
      }
      var updated := Transition(key, AccountCommitted, Activated);
      if !updated {
        return Err(Invalid);
      }
      if !auditOk {
        Rollback(saved);
        return Err(AuditRefused);
      }
      r := PublicOf(key, rows[key]);
      if r.Err? {
        Rollback(saved);
      }
    }

    /** `retire`. */
    method Retire(key: OpKey, auditOk: bool) returns (r: Result<(), Error>)
      modifies this
      ensures (Contents(), r) == DerivationRegistry.Retire(primitives, old(Contents()), key, auditOk)
    {
      var saved := Contents();
      var updated := Transition(key, Activated, Retired);
      if !updated {
        return Err(Invalid);
      }
      if !auditOk {
        Rollback(saved);
        return Err(AuditRefused);
      }
      return Ok(());
    }

    /** `tombstone`. */
    method Tombstone(key: OpKey, auditOk: bool) returns (r: Result<(), Error>)
      modifies this
      ensures (Contents(), r) == DerivationRegistry.Tombstone(primitives, old(Contents()), key, auditOk)
    {
      if key !in rows {
        return Err(Invalid);
      }
      var saved := Contents();
      var row := rows[key];
      if row.state == Tombstoned {
        return Ok(());
      }
      var reason := if row.state == Activated || row.state == Retired then FormerlyLive else Abandoned;
      rows := rows[key := row.(state := Tombstoned)];
      InsertTombstone(IndexKey(PlaceOf(key, row), row.index), reason);
      AppendEvent(key, Some(row.state), Tombstoned);
      if !auditOk {
        Rollback(saved);
        return Err(AuditRefused);
      }
      return Ok(());
    }

    /** `record_invalid_child_tombstone`. */
    method RecordInvalidChildTombstone(index: IndexKey)
      modifies this
      ensures Contents() == RecordInvalidChild(old(Contents()), index)
    {
      InsertTombstone(index, InvalidChild);
    }
  }

  /** A reservation commits the same tables whether or not its namespace was opened first. */
  lemma OpeningAbsorbed(p: Primitives, t: Tables, key: OpKey, place: Place, index: nat, path: string, targeted: bool)
    requires targeted || CounterStart(NamespaceAt(t, place)) <= index
    ensures Insert(p, t.(namespaces := t.namespaces[place := NamespaceAt(t, place)]), key, place, index, path, targeted)
            == Insert(p, t, key, place, index, path, targeted)
  {
  }

  lemma FirstLiveUnique(start: nat, dead: nat -> bool)
    ensures forall i: nat :: start <= i < U32_LIMIT && !dead(i) && (forall j :: start <= j < i ==> dead(j)) ==>
              FirstLive(start, dead) == Some(i)
    ensures (forall j :: start <= j < U32_LIMIT ==> dead(j)) ==> FirstLive(start, dead) == None
  {
  }

  /** Opening the namespace does not change the index choice. */
  lemma SameChoice(p: Primitives, t: Tables, t': Tables, place: Place, ns: Namespace, target: Option<nat>)
    requires t'.tombstones == t.tombstones
    ensures ChooseIndex(p, t', place, ns, target) == ChooseIndex(p, t, place, ns, target)
  {
    var a, b := (c: nat) => Dead(p, t, place, c), (c: nat) => Dead(p, t', place, c);
    FirstLiveUnique(CounterStart(ns), a);
    FirstLiveUnique(CounterStart(ns), b);
    assert forall c: nat :: a(c) == b(c);
    FirstLiveExtensional(CounterStart(ns), a, b);
  }

  lemma FirstLiveExtensional(start: nat, a: nat -> bool, b: nat -> bool)
    requires forall c: nat :: a(c) == b(c)
    ensures FirstLive(start, a) == FirstLive(start, b)
    decreases U32_LIMIT - start
  {
  }
}
