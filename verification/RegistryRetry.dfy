/**
 Crash safety of the allocation pipeline: prepare, commit_index, commit_account, activate.

 Whatever committed before the crash, and whatever ran since, running the whole pipeline again
 gives the account the uninterrupted run would have given.
 */
module RegistryRetry {
  import opened Wrappers
  import opened EventChain
  import opened DerivationRegistry
  import opened RegistryInvariants
  import opened RegistryTheorems

  datatype Request = Request(key: OpKey, profile: string, role: string, account: Option<nat>, target: Option<nat>,
                             spki: string, fingerprint: string)

  function Commands(q: Request): seq<Command> {
    [PrepareCmd(q.key, q.profile, q.role, q.account, q.target, true), CommitIndexCmd(q.key, true),
     CommitAccountCmd(q.key, q.spki, q.fingerprint, true), ActivateCmd(q.key, true)]
  }

  ghost function Prepare(p: Primitives, t: Tables, q: Request): (Tables, Result<Reservation, Error>) {
    PrepareAllocation(p, t, q.key, q.profile, q.role, q.account, q.target, true)
  }

  /** The four calls in order, stopping at the first refusal. */
  ghost function Pipeline(p: Primitives, t: Tables, q: Request): (Tables, Result<PublicAccount, Error>) {
    var (t1, r1) := Prepare(p, t, q);
    if r1.Err? then (t1, Err(r1.error))
    else AfterPrepare(p, t1, q)
  }

  function AfterPrepare(p: Primitives, t1: Tables, q: Request): (Tables, Result<PublicAccount, Error>) {
    var (t2, r2) := CommitIndex(p, t1, q.key, true);
    if r2.Err? then (t2, Err(r2.error))
    else
      var (t3, r3) := CommitAccount(p, t2, q.key, q.spki, q.fingerprint, true);
      if r3.Err? then (t3, Err(r3.error)) else Activate(p, t3, q.key, true)
  }

  /** The account a row leads to: its own descriptor once it has one, else the request's. */
  function Expected(q: Request, row: Row): PublicAccount {
    PublicAccount(q.key.wallet, q.key.operation, row.profile, row.role, row.path, row.account, row.index, row.keySpec,
                  if row.spki.Some? then row.spki.value else q.spki,
                  if row.fingerprint.Some? then row.fingerprint.value else q.fingerprint, Activated)
  }

  predicate Matches(q: Request, row: Row) {
    && row.profile == q.profile && row.role == q.role
    && (q.account.Some? ==> row.account == q.account.value)
    && (q.target.Some? ==> row.index == q.target.value)
  }

  predicate Ended(row: Row) { row.state == Retired || row.state == Tombstoned }

  /** A committed request: rerunning it can only lead to one account. */
  ghost predicate Settled(p: Primitives, t: Tables, q: Request, account: PublicAccount) {
    && q.key in t.rows
    && Matches(q, t.rows[q.key])
    && RowSound(p, q.key.wallet, t.rows[q.key])
    && Expected(q, t.rows[q.key]) == account
  }

  lemma AfterPrepareOutcome(p: Primitives, t: Tables, q: Request, account: PublicAccount)
    requires Settled(p, t, q, account) && p.digest(q.spki) == Some(q.fingerprint)
    ensures AfterPrepare(p, t, q).1 == if Ended(t.rows[q.key]) then Err(Invalid) else Ok(account)
  {
  }

  /** Running a committed request again. */
  lemma RerunOutcome(p: Primitives, t: Tables, q: Request, account: PublicAccount)
    requires Settled(p, t, q, account) && p.digest(q.spki) == Some(q.fingerprint)
    requires RequestInRange(q.profile, q.account, q.target)
    ensures Pipeline(p, t, q).1 == if Ended(t.rows[q.key]) then Err(Invalid) else Ok(account)
  {
    assert Prepare(p, t, q) == (t, Ok(ReservationOf(q.key, t.rows[q.key])));
    AfterPrepareOutcome(p, t, q, account);
  }

  /** What one command does to one row it finds. */
  lemma RowStep(p: Primitives, t: Tables, c: Command, key: OpKey)
    requires RowsSound(p, t) && Honest(p, c) && key in t.rows
    ensures var t' := Step(p, t, c);
            && key in t'.rows && SameIdentity(t.rows[key], t'.rows[key])
            && ((t'.rows[key].spki == t.rows[key].spki && t'.rows[key].fingerprint == t.rows[key].fingerprint)
                || (c.CommitAccountCmd? && c.key == key && t.rows[key].state == IndexCommitted
                    && t'.rows[key].spki == Some(c.spki) && t'.rows[key].fingerprint == Some(c.fingerprint)))
  {
    match c
    case PrepareCmd(_, _, _, _, _, _) => PrepareWritesNoRow(p, t, c, key);
    case CommitAccountCmd(_, _, _, _) => CommitAccountWrites(p, t, c, key);
    case _ => OthersWriteState(p, t, c, key);
  }

  lemma CommitAccountWrites(p: Primitives, t: Tables, c: Command, key: OpKey)
    requires c.CommitAccountCmd? && key in t.rows
    ensures var t' := Step(p, t, c);
            && key in t'.rows
            && (t'.rows[key] == t.rows[key]
                || (c.key == key && t.rows[key].state == IndexCommitted
                    && t'.rows[key] == t.rows[key].(state := AccountCommitted, spki := Some(c.spki), fingerprint := Some(c.fingerprint))))
  {
  }

  lemma OthersWriteState(p: Primitives, t: Tables, c: Command, key: OpKey)
    requires !c.CommitAccountCmd? && !c.PrepareCmd? && key in t.rows
    ensures var t' := Step(p, t, c);
            key in t'.rows && t'.rows[key] == t.rows[key].(state := t'.rows[key].state)
  {
    match c
    case CommitIndexCmd(k, ok) =>
    case ActivateCmd(k, ok) =>
    case RetireCmd(k, ok) =>
    case TombstoneCmd(k, ok) =>
    case RecordInvalidCmd(k) =>
  }

  lemma PrepareWritesNoRow(p: Primitives, t: Tables, c: Command, key: OpKey)
    requires c.PrepareCmd? && key in t.rows
    ensures key in Step(p, t, c).rows && Step(p, t, c).rows[key] == t.rows[key]
  {
  }

  /** A command of this operation that commits an account commits the requested descriptor. */
  predicate SameDescriptor(q: Request, c: Command) {
    c.CommitAccountCmd? && c.key == q.key ==> c.spki == q.spki && c.fingerprint == q.fingerprint
  }

  lemma SettledKept(p: Primitives, t: Tables, c: Command, q: Request, account: PublicAccount)
    requires Invariant(p, t) && Honest(p, c) && SameDescriptor(q, c) && Settled(p, t, q, account)
    ensures Settled(p, Step(p, t, c), q, account)
  {
    StepKeepsInvariant(p, t, c);
    RowStep(p, t, c, q.key);
    assert RowSound(p, q.key.wallet, Step(p, t, c).rows[q.key]);
  }

  lemma {:induction false} SettledForever(p: Primitives, t: Tables, commands: seq<Command>, q: Request, account: PublicAccount)
    requires Invariant(p, t) && AllHonest(p, commands) && Settled(p, t, q, account)
    requires forall c :: c in commands ==> SameDescriptor(q, c)
    ensures Settled(p, Run(p, t, commands), q, account)
    decreases |commands|
  {
    if commands != [] {
      SettledKept(p, t, commands[0], q, account);
      StepKeepsInvariant(p, t, commands[0]);
      SettledForever(p, Step(p, t, commands[0]), commands[1..], q, account);
    }
  }

  /** The first step settles the account that the whole pipeline gives. */
  lemma PrepareSettles(p: Primitives, t: Tables, q: Request)
    requires Invariant(p, t) && Pipeline(p, t, q).1.Ok?
    ensures Settled(p, Prepare(p, t, q).0, q, Pipeline(p, t, q).1.value)
    ensures p.digest(q.spki) == Some(q.fingerprint) && RequestInRange(q.profile, q.account, q.target)
  {
    var t1 := Prepare(p, t, q).0;
    assert t1 == Step(p, t, Commands(q)[0]);
    StepKeepsInvariant(p, t, Commands(q)[0]);
    PreparedRow(p, t, q);
    var row := t1.rows[q.key];
    assert RowSound(p, q.key.wallet, row);
    PipelineChecksDescriptor(p, t1, q);
    AfterPrepareOutcome(p, t1, q, Expected(q, row));
  }

  lemma PreparedRow(p: Primitives, t: Tables, q: Request)
    requires Prepare(p, t, q).1.Ok?
    ensures RequestInRange(q.profile, q.account, q.target)
    ensures q.key in Prepare(p, t, q).0.rows && Matches(q, Prepare(p, t, q).0.rows[q.key])
  {
    if q.key !in t.rows {
      var place := FreshPrepare(p, t, q.key, q.profile, q.role, q.account, q.target, true);
      var e := ReserveEffect(p, t, q.key, place, q.target, true);
    }
  }

  lemma PipelineChecksDescriptor(p: Primitives, t1: Tables, q: Request)
    requires AfterPrepare(p, t1, q).1.Ok?
    ensures p.digest(q.spki) == Some(q.fingerprint)
  {
  }

  /**
   Crash recovery. The pipeline would have succeeded; a crash comes after `n` committed steps; any
   commands run since, this operation's own retries included. Then a rerun of the whole pipeline
   gives the same public account, unless, and only unless, the account has been ended.
   */
  lemma RerunAfterCrash(p: Primitives, t: Tables, q: Request, n: nat, since: seq<Command>)
    requires Reachable(p, t) && Pipeline(p, t, q).1.Ok?
    requires 1 <= n <= 4
    requires AllHonest(p, since) && forall c :: c in since ==> SameDescriptor(q, c)
    ensures var crashed := Run(p, Run(p, t, Commands(q)[..n]), since);
            && q.key in crashed.rows
            && Pipeline(p, crashed, q).1 == if Ended(crashed.rows[q.key]) then Err(Invalid) else Pipeline(p, t, q).1
  {
    ReachableInvariant(p, t);
    var account := Pipeline(p, t, q).1.value;
    PrepareSettles(p, t, q);
    var t1 := Prepare(p, t, q).0;
    var own := Commands(q)[..n];
    assert own[0] == Commands(q)[0] && t1 == Step(p, t, own[0]);
    StepKeepsInvariant(p, t, own[0]);
    OwnCommands(p, q, own[1..]);
    SettledForever(p, t1, own[1..], q, account);
    RunKeepsInvariant(p, t1, own[1..]);
    var t2 := Run(p, t1, own[1..]);
    assert t2 == Run(p, t, own);
    SettledForever(p, t2, since, q, account);
    RerunOutcome(p, Run(p, t2, since), q, account);
  }

  lemma OwnCommands(p: Primitives, q: Request, own: seq<Command>)
    requires forall c :: c in own ==> c in Commands(q)
    ensures AllHonest(p, own) && forall c :: c in own ==> SameDescriptor(q, c)
  {
  }
}
