/**
 The derivation registry: a persistent allocator of BIP-44 children.

 The four SQL tables are one value, `Tables`. Each public operation is a function from the tables
 before its transaction to the tables after it; an early error returns the tables unchanged,
 because the transaction rolls back. `auditOk` says whether the caller's audit recorder accepts.
 */
module DerivationRegistry {
  import opened Limits
  import opened Wrappers
  import opened Paths
  import opened EventChain

  const PROFILE_EVM: string := "bip44-evm-secp256k1-v1"
  const PROFILE_SOLANA: string := "bip44-solana-slip10-ed25519-v1"
  const DEFAULT_NAMESPACE_CAP: nat := 100

  datatype OpKey = OpKey(wallet: string, operation: string)

  /** Primary key of a namespace. */
  datatype Place = Place(wallet: string, profile: string, role: string, account: nat)

  datatype Namespace = Namespace(nextIndex: nat, maximumChildren: nat)

  datatype IndexKey = IndexKey(place: Place, index: nat)

  datatype Reason = InvalidChild | FormerlyLive | Abandoned

  datatype Row = Row(
    profile: string, role: string, account: nat, index: nat, path: string, state: Lifecycle,
    keySpec: string, spki: Option<string>, fingerprint: Option<string>)

  datatype Tables = Tables(
    namespaces: map<Place, Namespace>,
    rows: map<OpKey, Row>,
    tombstones: map<IndexKey, Reason>,
    events: seq<Event>)

  const EMPTY: Tables := Tables(map[], map[], map[], [])

  /**
   The functions the registry is given: the event hash, the fingerprint of a hexadecimal
   descriptor (none when it is not hexadecimal), and BIP-32 invalid-child status.
   */
  datatype Primitives = Primitives(
    hash: string -> string,
    digest: string -> Option<string>,
    invalidChild: (string, string, nat, nat) -> bool)

  datatype Error = Invalid | Conflict | LimitExceeded | InvalidChildIndex | AuditRefused | IndexSpacePanic

  datatype Reservation = Reservation(
    operation: string, profile: string, role: string, account: nat, index: nat, path: string, state: Lifecycle)

  datatype PublicAccount = PublicAccount(
    wallet: string, operation: string, profile: string, role: string, path: string, account: nat, index: nat,
    keySpec: string, spki: string, fingerprint: string, lifecycle: Lifecycle)

  // ---------------------------------------------------------------- table queries

  function PlaceOf(key: OpKey, row: Row): Place {
    Place(key.wallet, row.profile, row.role, row.account)
  }

  function LiveRows(t: Tables, place: Place): set<OpKey> {
    set k | k in t.rows && PlaceOf(k, t.rows[k]) == place && t.rows[k].state != Tombstoned
  }

  predicate PathOwned(t: Tables, wallet: string, profile: string, path: string) {
    exists k :: k in t.rows && k.wallet == wallet && t.rows[k].profile == profile && t.rows[k].path == path
  }

  function NamespaceAt(t: Tables, place: Place): Namespace {
    if place in t.namespaces then t.namespaces[place] else Namespace(0, DEFAULT_NAMESPACE_CAP)
  }

  /** `INSERT OR IGNORE`: the first reason recorded for an index stays. */
  function Bury(tombstones: map<IndexKey, Reason>, key: IndexKey, reason: Reason): map<IndexKey, Reason> {
    if key in tombstones then tombstones else tombstones[key := reason]
  }

  /** The tombstones for the indexes `low..high` that an ordinary reservation skipped. */
  function BuryRange(tombstones: map<IndexKey, Reason>, place: Place, low: nat, high: nat): map<IndexKey, Reason>
    requires low <= high
    decreases high
  {
    if low == high then tombstones
    else Bury(BuryRange(tombstones, place, low, high - 1), IndexKey(place, high - 1), InvalidChild)
  }

  lemma {:induction false} BuryRangeExact(tombstones: map<IndexKey, Reason>, place: Place, low: nat, high: nat)
    requires low <= high
    ensures var r := BuryRange(tombstones, place, low, high);
            && (forall k :: k in r <==> k in tombstones || (k.place == place && low <= k.index < high))
            && (forall k :: k in tombstones ==> r[k] == tombstones[k])
    decreases high
  {
    if low < high {
      BuryRangeExact(tombstones, place, low, high - 1);
    }
  }

  /** Upper bound of a set of numbers that belongs to it, or 0 for the empty set. */
  ghost function MaxOrZero(s: set<nat>): (m: nat)
    ensures forall x :: x in s ==> x <= m
    ensures m in s || (s == {} && m == 0)
  {
    if s == {} then 0
    else
      var x :| x in s;
      var rest := MaxOrZero(s - {x});
      assert s == s - {x} + {x};
      if x <= rest then rest else x
  }

  function SolanaAccounts(t: Tables, wallet: string): set<nat> {
    set k | k in t.rows && k.wallet == wallet && t.rows[k].profile == PROFILE_SOLANA :: t.rows[k].account
  }

  function ResolveCanonicalPath(profile: string, account: nat, index: nat): Option<string> {
    if profile == PROFILE_EVM then Some(EvmPath(account, index))
    else if profile == PROFILE_SOLANA then Some(SolanaPath(account))
    else None
  }

  predicate KnownProfile(profile: string) { profile == PROFILE_EVM || profile == PROFILE_SOLANA }

  function KeySpecForProfile(profile: string): string {
    if profile == PROFILE_EVM then "secp256k1" else "ed25519"
  }

  // ---------------------------------------------------------------- index choice

  /** The least index at or above `start` that is not dead; none when all of them up to 2^32 are. */
  function FirstLive(start: nat, dead: nat -> bool): (r: Option<nat>)
    ensures r.Some? ==> start <= r.value < U32_LIMIT && !dead(r.value) && forall j :: start <= j < r.value ==> dead(j)
    ensures r.None? ==> forall j :: start <= j < U32_LIMIT ==> dead(j)
    decreases U32_LIMIT - start
  {
    if start >= U32_LIMIT then None
    else if dead(start) then FirstLive(start + 1, dead)
    else Some(start)
  }

  predicate Dead(p: Primitives, t: Tables, place: Place, index: nat) {
    IndexKey(place, index) in t.tombstones || p.invalidChild(place.wallet, place.profile, place.account, index)
  }

  /** The counter column is read back as a 32-bit number. */
  function CounterStart(ns: Namespace): nat { ns.nextIndex % U32_LIMIT }

  function ChooseIndex(p: Primitives, t: Tables, place: Place, ns: Namespace, target: Option<nat>): Result<nat, Error> {
    match target
    case None => (
      match FirstLive(CounterStart(ns), (c: nat) => Dead(p, t, place, c))
      case Some(index) => Ok(index)
      case None => Err(IndexSpacePanic))
    case Some(index) =>
      if IndexKey(place, index) in t.tombstones then Err(Conflict)
      else if p.invalidChild(place.wallet, place.profile, place.account, index) then Err(InvalidChildIndex)
      else Ok(index)
  }

  function AdvanceCounter(ns: Namespace, index: nat, targeted: bool): Namespace {
    if targeted then ns.(nextIndex := if index + 1 > ns.nextIndex then index + 1 else ns.nextIndex)
    else if ns.nextIndex == CounterStart(ns) then ns.(nextIndex := index + 1)
    else ns
  }

  // ---------------------------------------------------------------- operations

  function ReservationOf(key: OpKey, row: Row): Reservation {
    Reservation(key.operation, row.profile, row.role, row.account, row.index, row.path, row.state)
  }

  function Retry(key: OpKey, row: Row, profile: string, role: string, account: Option<nat>, target: Option<nat>)
    : Result<Reservation, Error>
  {
    if row.profile == profile && row.role == role && (account.None? || row.account == account.value)
       && (target.None? || row.index == target.value)
    then Ok(ReservationOf(key, row))
    else Err(Conflict)
  }

  /** The account a request lands on; Solana advances over every account the wallet ever used. */
  ghost function ChooseAccount(t: Tables, wallet: string, profile: string, account: Option<nat>): Result<nat, Error> {
    if account.Some? then Ok(account.value)
    else if profile == PROFILE_SOLANA then
      var used := SolanaAccounts(t, wallet);
      if used == {} then Ok(0)
      else if MaxOrZero(used) < HARDENED_OFFSET - 1 then Ok(MaxOrZero(used) + 1)
      else Err(LimitExceeded)
    else Ok(0)
  }

  function NewRow(place: Place, index: nat, path: string): Row {
    Row(place.profile, place.role, place.account, index, path, Prepared, KeySpecForProfile(place.profile), None, None)
  }

  /** The committed effect of a successful reservation. */
  function Insert(p: Primitives, t: Tables, key: OpKey, place: Place, index: nat, path: string, targeted: bool): Tables
    requires targeted || CounterStart(NamespaceAt(t, place)) <= index
  {
    var ns := NamespaceAt(t, place);
    var skipped := if targeted then t.tombstones else BuryRange(t.tombstones, place, CounterStart(ns), index);
    Tables(
      t.namespaces[place := AdvanceCounter(ns, index, targeted)],
      t.rows[key := NewRow(place, index, path)],
      skipped,
      Append(p.hash, t.events, key.wallet, key.operation, None, Prepared))
  }

  /** From the index choice to the commit. An invalid target is the one refusal that commits. */
  function Settle(p: Primitives, t: Tables, key: OpKey, place: Place, target: Option<nat>, auditOk: bool,
                  choice: Result<nat, Error>): (Tables, Result<Reservation, Error>)
    requires KnownProfile(place.profile)
    requires choice.Ok? ==> target.Some? || CounterStart(NamespaceAt(t, place)) <= choice.value
  {
    match choice
    case Err(e) =>
      if e == InvalidChildIndex && target.Some? then
        (t.(namespaces := t.namespaces[place := NamespaceAt(t, place)],
            tombstones := Bury(t.tombstones, IndexKey(place, target.value), InvalidChild)), Err(e))
      else (t, Err(e))
    case Ok(index) =>
      var path := ResolveCanonicalPath(place.profile, place.account, index).value;
      if PathOwned(t, key.wallet, place.profile, path) then (t, Err(Conflict))
      else if !auditOk then (t, Err(AuditRefused))
      else (Insert(p, t, key, place, index, path, target.Some?), Ok(ReservationOf(key, NewRow(place, index, path))))
  }

  /** A reservation in one namespace: cap, index choice, then the commit. */
  function Reserve(p: Primitives, t: Tables, key: OpKey, place: Place, target: Option<nat>, auditOk: bool)
    : (Tables, Result<Reservation, Error>)
  {
    var ns := NamespaceAt(t, place);
    if !KnownProfile(place.profile) then (t, Err(Invalid))
    else if |LiveRows(t, place)| >= ns.maximumChildren then (t, Err(LimitExceeded))
    else Settle(p, t, key, place, target, auditOk, ChooseIndex(p, t, place, ns, target))
  }

  predicate RequestInRange(profile: string, account: Option<nat>, target: Option<nat>) {
    && (account.Some? ==> account.value < HARDENED_OFFSET)
    && (target.Some? ==> target.value < HARDENED_OFFSET && profile == PROFILE_EVM)
  }

  /** `prepare_allocation_at`. */
  ghost function PrepareAllocation(p: Primitives, t: Tables, key: OpKey, profile: string, role: string,
                                   account: Option<nat>, target: Option<nat>, auditOk: bool)
    : (Tables, Result<Reservation, Error>)
  {
    if !RequestInRange(profile, account, target) then (t, Err(Invalid))
    else if key in t.rows then (t, Retry(key, t.rows[key], profile, role, account, target))
    else match ChooseAccount(t, key.wallet, profile, account)
      case Err(e) => (t, Err(e))
      case Ok(number) => Reserve(p, t, key, Place(key.wallet, profile, role, number), target, auditOk)
  }

  /** Rewrite one row and log the state change. */
  function Advance(p: Primitives, t: Tables, key: OpKey, row': Row): Tables
    requires key in t.rows
  {
    t.(rows := t.rows[key := row'],
       events := Append(p.hash, t.events, key.wallet, key.operation, Some(t.rows[key].state), row'.state))
  }

  function CommitIndex(p: Primitives, t: Tables, key: OpKey, auditOk: bool): (Tables, Result<Reservation, Error>) {
    if key !in t.rows then (t, Err(Invalid))
    else
      var row := t.rows[key];
      match row.state
      case Prepared =>
        if auditOk then (Advance(p, t, key, row.(state := IndexCommitted)), Ok(ReservationOf(key, row.(state := IndexCommitted))))
        else (t, Err(AuditRefused))
      case IndexCommitted => (t, Ok(ReservationOf(key, row)))
      case AccountCommitted => (t, Ok(ReservationOf(key, row)))
      case Activated => (t, Ok(ReservationOf(key, row)))
      case Retired => (t, Err(Invalid))
      case Tombstoned => (t, Err(Invalid))
  }

  function CommitAccount(p: Primitives, t: Tables, key: OpKey, spki: string, fingerprint: string, auditOk: bool)
    : (Tables, Result<Reservation, Error>)
  {
    if p.digest(spki) != Some(fingerprint) then (t, Err(Invalid))
    else if key !in t.rows then (t, Err(Invalid))
    else
      var row := t.rows[key];
      match row.state
      case AccountCommitted => (t, Ok(ReservationOf(key, row)))
      case Activated => (t, Ok(ReservationOf(key, row)))
      case IndexCommitted =>
        var row' := row.(state := AccountCommitted, spki := Some(spki), fingerprint := Some(fingerprint));
        if auditOk then (Advance(p, t, key, row'), Ok(ReservationOf(key, row'))) else (t, Err(AuditRefused))
      case _ => (t, Err(Invalid))
  }

  function PublicOf(key: OpKey, row: Row): Result<PublicAccount, Error> {
    if row.state == Activated && row.spki.Some? && row.fingerprint.Some? then
      Ok(PublicAccount(key.wallet, key.operation, row.profile, row.role, row.path, row.account, row.index,
                       row.keySpec, row.spki.value, row.fingerprint.value, Activated))
    else Err(Invalid)
  }

  function Activate(p: Primitives, t: Tables, key: OpKey, auditOk: bool): (Tables, Result<PublicAccount, Error>) {
    if key !in t.rows then (t, Err(Invalid))
    else
      var row := t.rows[key];
      var row' := row.(state := Activated);
      if row.state == Activated then (t, PublicOf(key, row))
      else if row.state != AccountCommitted then (t, Err(Invalid))
      else if !auditOk then (t, Err(AuditRefused))
      else match PublicOf(key, row')
        case Ok(account) => (Advance(p, t, key, row'), Ok(account))
        case Err(e) => (t, Err(e))
  }

  function Retire(p: Primitives, t: Tables, key: OpKey, auditOk: bool): (Tables, Result<(), Error>) {
    if key !in t.rows || t.rows[key].state != Activated then (t, Err(Invalid))
    else if !auditOk then (t, Err(AuditRefused))
    else (Advance(p, t, key, t.rows[key].(state := Retired)), Ok(()))
  }

  function Tombstone(p: Primitives, t: Tables, key: OpKey, auditOk: bool): (Tables, Result<(), Error>) {
    if key !in t.rows then (t, Err(Invalid))
    else
      var row := t.rows[key];
      if row.state == Tombstoned then (t, Ok(()))
      else if !auditOk then (t, Err(AuditRefused))
      else
        var reason := if row.state == Activated || row.state == Retired then FormerlyLive else Abandoned;
        var t' := Advance(p, t, key, row.(state := Tombstoned));
        (t'.(tombstones := Bury(t.tombstones, IndexKey(PlaceOf(key, row), row.index), reason)), Ok(()))
  }

  function RecordInvalidChild(t: Tables, key: IndexKey): Tables {
    t.(tombstones := Bury(t.tombstones, key, InvalidChild))
  }

  /** The rows `public_accounts` lists: activated ones and, by its query, retired ones. */
  predicate Listed(row: Row) { row.state == Activated || row.state == Retired }

  // ---------------------------------------------------------------- the shared account number

  function UsedNumbers(t: Tables, wallet: string): set<nat> {
    (set place | place in t.namespaces && place.wallet == wallet && place.profile == PROFILE_EVM && place.account == 0
        :: t.namespaces[place].nextIndex)
    + (set k | k in t.tombstones && k.place.wallet == wallet && k.place.profile == PROFILE_EVM && k.place.account == 0
        :: k.index + 1)
    + (set n | n in SolanaAccounts(t, wallet) :: n + 1)
  }

  /** The number before its range check. */
  ghost function NextNumber(t: Tables, wallet: string): nat {
    MaxOrZero(UsedNumbers(t, wallet))
  }

  /** `next_account_number`. */
  ghost function NextAccountNumber(t: Tables, wallet: string): Result<nat, Error> {
    var next := NextNumber(t, wallet);
    if next < HARDENED_OFFSET then Ok(next) else Err(LimitExceeded)
  }

  // ---------------------------------------------------------------- runs

  datatype Command =
    | PrepareCmd(key: OpKey, profile: string, role: string, account: Option<nat>, target: Option<nat>, auditOk: bool)
    | CommitIndexCmd(key: OpKey, auditOk: bool)
    | CommitAccountCmd(key: OpKey, spki: string, fingerprint: string, auditOk: bool)
    | ActivateCmd(key: OpKey, auditOk: bool)
    | RetireCmd(key: OpKey, auditOk: bool)
    | TombstoneCmd(key: OpKey, auditOk: bool)
    | RecordInvalidCmd(index: IndexKey)

  ghost function Step(p: Primitives, t: Tables, c: Command): Tables {
    match c
    case PrepareCmd(key, profile, role, account, target, ok) => PrepareAllocation(p, t, key, profile, role, account, target, ok).0
    case CommitIndexCmd(key, ok) => CommitIndex(p, t, key, ok).0
    case CommitAccountCmd(key, spki, fingerprint, ok) => CommitAccount(p, t, key, spki, fingerprint, ok).0
    case ActivateCmd(key, ok) => Activate(p, t, key, ok).0
    case RetireCmd(key, ok) => Retire(p, t, key, ok).0
    case TombstoneCmd(key, ok) => Tombstone(p, t, key, ok).0
    case RecordInvalidCmd(index) => RecordInvalidChild(t, index)
  }

  ghost function Run(p: Primitives, t: Tables, commands: seq<Command>): Tables
    decreases |commands|
  {
    if commands == [] then t else Run(p, Step(p, t, commands[0]), commands[1..])
  }
}
