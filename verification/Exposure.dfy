/**
 Exposure of the remote ceremony surface: the administrator sets a desired mode, the broker reports
 what it observes, and the surface is Active only while both agree.
 */
module Exposure {
  import opened Wrappers

  datatype Lifecycle = Active | AuthenticationOnly | Disabled | Tombstoned

  datatype Mode = RemoteEnabled | LocalhostOnly

  datatype Remote = Remote(origin: string, lifecycle: Lifecycle, revision: nat)

  /** The surface status; the local surface is always present and Active. */
  datatype Status = Status(
    remote: Option<Remote>, installation: Option<string>, adminKey: Option<string>,
    desired: Mode, desiredRevision: nat, effective: Mode, effectiveRevision: nat, tlsReady: bool, routingReady: bool)

  const DEFAULT: Status := Status(None, None, None, RemoteEnabled, 0, LocalhostOnly, 0, false, false)

  datatype Error = Conflict | Unavailable | Unauthenticated | RearmRequired | StorageFailed

  datatype Report = Report(revision: nat, tlsReady: bool, routingReady: bool, closed: bool)

  function Commit(current: Status, next: Status, commitOk: bool): (Status, Result<Status, Error>) {
    if commitOk then (next, Ok(next)) else (current, Err(StorageFailed))
  }

  /** `install_remote_surface`. */
  function Install(s: Status, origin: string, installation: string, adminKey: string, commitOk: bool): (Status, Result<Status, Error>) {
    if s.remote.Some? then
      if s.remote.value.origin != origin || s.installation != Some(installation) || s.adminKey != Some(adminKey) then (s, Err(Conflict))
      else (s, Ok(s))
    else if s.installation.Some? || s.adminKey.Some? then (s, Err(Conflict))
    else Commit(s, s.(remote := Some(Remote(origin, Disabled, 0)), installation := Some(installation), adminKey := Some(adminKey)), commitOk)
  }

  function Disable(r: Remote): Remote { r.(lifecycle := Disabled, revision := r.revision + 1) }

  /** `set_exposure_mode`; `blocked` says that some wallet has no local credential. */
  function SetMode(s: Status, mode: Mode, blocked: bool, commitOk: bool): (Status, Result<Status, Error>) {
    if s.desired == mode then (s, Ok(s))
    else if mode == LocalhostOnly && blocked then (s, Err(RearmRequired))
    else if mode == RemoteEnabled && (s.remote.None? || s.remote.value.lifecycle == Tombstoned) then (s, Err(Unavailable))
    else
      var remote := if mode == LocalhostOnly && s.remote.Some? then Some(Disable(s.remote.value)) else s.remote;
      Commit(s, s.(remote := remote, desired := mode, desiredRevision := s.desiredRevision + 1, tlsReady := false, routingReady := false), commitOk)
  }

  /** The remote surface and effective mode after a report, while remote access is desired. */
  function Observe(s: Status, r: Report): Result<(Option<Remote>, Mode), Error> {
    if r.closed || !r.tlsReady || !r.routingReady then
      Ok((if s.remote.Some? && s.remote.value.lifecycle != Disabled then Some(Disable(s.remote.value)) else s.remote, LocalhostOnly))
    else if s.remote.None? then Err(Unavailable)
    else if s.remote.value.lifecycle == Tombstoned then Err(Unauthenticated)
    else if s.remote.value.lifecycle == Active then Ok((s.remote, RemoteEnabled))
    else Ok((Some(s.remote.value.(lifecycle := Active, revision := s.remote.value.revision + 1)), RemoteEnabled))
  }

  /** And while it is not: closure must be acknowledged. */
  function Acknowledge(s: Status, r: Report): Result<(Option<Remote>, Mode), Error> {
    if !r.closed then Err(Unavailable)
    else if s.remote.None? then Ok((None, LocalhostOnly))
    else
      var remote := s.remote.value;
      Ok((Some(if s.effective != LocalhostOnly then Disable(remote) else remote.(lifecycle := Disabled)), LocalhostOnly))
  }

  /** `report_effective`. */
  function ReportEffective(s: Status, r: Report, commitOk: bool): (Status, Result<Status, Error>) {
    if r.revision != s.desiredRevision then (s, Err(Conflict))
    else match (if s.desired == RemoteEnabled then Observe(s, r) else Acknowledge(s, r))
      case Err(e) => (s, Err(e))
      case Ok(observed) =>
        var next := s.(remote := observed.0, effective := observed.1, effectiveRevision := s.desiredRevision,
                       tlsReady := r.tlsReady, routingReady := r.routingReady);
        if next == s then (s, Ok(s)) else Commit(s, next, commitOk)
  }

  /** The fence a new process raises before it serves: observations do not survive a restart. */
  function Start(s: Status, commitOk: bool): (Status, Result<Status, Error>) {
    if s.effective == RemoteEnabled || s.tlsReady || s.routingReady then
      ReportEffective(s, Report(s.desiredRevision, false, false, true), commitOk)
    else (s, Ok(s))
  }

  // ---------------------------------------------------------------- runs

  datatype Command =
    | InstallCmd(origin: string, installation: string, adminKey: string, commitOk: bool)
    | ModeCmd(mode: Mode, blocked: bool, commitOk: bool)
    | ReportCmd(report: Report, commitOk: bool)
    | StartCmd(commitOk: bool)

  function Execute(s: Status, c: Command): (Status, Result<Status, Error>) {
    match c
    case InstallCmd(origin, installation, adminKey, ok) => Install(s, origin, installation, adminKey, ok)
    case ModeCmd(mode, blocked, ok) => SetMode(s, mode, blocked, ok)
    case ReportCmd(r, ok) => ReportEffective(s, r, ok)
    case StartCmd(ok) => Start(s, ok)
  }

  function Run(s: Status, commands: seq<Command>): Status
    decreases |commands|
  {
    if commands == [] then s else Run(Execute(s, commands[0]).0, commands[1..])
  }

  predicate RemoteActive(s: Status) { s.remote.Some? && s.remote.value.lifecycle == Active }

  /** An Active remote surface is one that is wanted, observed at the same revision, and ready. */
  predicate Agreed(s: Status) {
    && (s.remote.Some? ==> s.remote.value.lifecycle in {Active, Disabled})
    && (RemoteActive(s) ==>
          s.desired == RemoteEnabled && s.effective == RemoteEnabled && s.effectiveRevision == s.desiredRevision
          && s.tlsReady && s.routingReady)
  }

  function LifecycleRevision(s: Status): nat { if s.remote.Some? then s.remote.value.revision else 0 }

  lemma {:induction false} RunAgreed(s: Status, commands: seq<Command>)
    requires Agreed(s)
    ensures Agreed(Run(s, commands))
    decreases |commands|
  {
    if commands != [] {
      RunAgreed(Execute(s, commands[0]).0, commands[1..]);
    }
  }

  /** From the default status: the remote surface is Active only by agreement. */
  lemma ActiveMeansAgreed(commands: seq<Command>)
    ensures var s := Run(DEFAULT, commands);
            RemoteActive(s) ==>
              s.desired == RemoteEnabled && s.effective == RemoteEnabled && s.effectiveRevision == s.desiredRevision
              && s.tlsReady && s.routingReady
  {
    RunAgreed(DEFAULT, commands);
  }

  /** A lifecycle change of an installed remote strictly raises its revision; revisions never fall. */
  lemma LifecycleChangeRaisesRevision(commands: seq<Command>, c: Command)
    ensures var s := Run(DEFAULT, commands);
            var s' := Execute(s, c).0;
            && s.desiredRevision <= s'.desiredRevision
            && (s.remote.Some? ==>
                  && s'.remote.Some? && s'.remote.value.origin == s.remote.value.origin
                  && s'.installation == s.installation && s'.adminKey == s.adminKey
                  && s.remote.value.revision <= s'.remote.value.revision
                  && (s'.remote.value.lifecycle != s.remote.value.lifecycle ==> s.remote.value.revision < s'.remote.value.revision))
  {
    RunAgreed(DEFAULT, commands);
    RunIdentified(DEFAULT, commands);
  }

  predicate Identified(s: Status) { s.remote.Some? <==> s.installation.Some? && s.adminKey.Some? }

  lemma {:induction false} RunIdentified(s: Status, commands: seq<Command>)
    requires Identified(s)
    ensures Identified(Run(s, commands))
    decreases |commands|
  {
    if commands != [] {
      RunIdentified(Execute(s, commands[0]).0, commands[1..]);
    }
  }

  /** A report for another revision is refused and changes nothing, as does every refusal. */
  lemma StaleReportChangesNothing(s: Status, c: Command)
    ensures c.ReportCmd? && c.report.revision != s.desiredRevision ==> Execute(s, c) == (s, Err(Conflict))
    ensures Execute(s, c).1.Err? ==> Execute(s, c).0 == s
  {
  }

  /** After a successful start the remote surface is not Active and nothing is claimed ready. */
  lemma StartFencesRemote(commands: seq<Command>, commitOk: bool)
    ensures var (s, r) := Start(Run(DEFAULT, commands), commitOk);
            r.Ok? ==> !RemoteActive(s) && s.effective == LocalhostOnly && !s.tlsReady && !s.routingReady
  {
    RunAgreed(DEFAULT, commands);
  }

  /** Whatever the history, one matching report decides: ready means Active, anything else not. */
  lemma ReportDecides(commands: seq<Command>, r: Report)
    ensures var s := Run(DEFAULT, commands);
            var (s', answer) := ReportEffective(s, r, true);
            answer.Ok? ==>
              && (RemoteActive(s') <==> s.desired == RemoteEnabled && r.tlsReady && r.routingReady && !r.closed)
              && s'.effectiveRevision == s'.desiredRevision
  {
  }

  /** Revisions count steps, so a 64-bit revision cannot overflow in fewer than 2^64 of them. */
  lemma {:induction false} RevisionsCountSteps(s: Status, commands: seq<Command>)
    ensures LifecycleRevision(Run(s, commands)) <= LifecycleRevision(s) + |commands|
    ensures Run(s, commands).desiredRevision <= s.desiredRevision + |commands|
    decreases |commands|
  {
    if commands != [] {
      RevisionsCountSteps(Execute(s, commands[0]).0, commands[1..]);
    }
  }

  // ---------------------------------------------------------------- as the program runs it

  class SurfaceAdministration {
    var persisted: Option<Status>

    constructor ()
      ensures persisted.None?
    {
      persisted := None;
    }

    function Current(): Status
      reads this
    {
      if persisted.Some? then persisted.value else DEFAULT
    }

    /** Compare-and-swap of the singleton row. */
    method CommitStatus(expected: Option<Status>, next: Status, commitOk: bool) returns (r: Result<Status, Error>)
      modifies this
      ensures r == if !commitOk then Err(StorageFailed) else if old(persisted) == expected then Ok(next) else Err(Conflict)
      ensures persisted == if r.Ok? then Some(next) else old(persisted)
    {
      if !commitOk {
        return Err(StorageFailed);
      }
      if persisted != expected {
        return Err(Conflict);
      }
      persisted := Some(next);
      return Ok(next);
    }

    method RecordReport(r: Report, commitOk: bool) returns (answer: Result<Status, Error>)
      modifies this
      ensures (Current(), answer) == ReportEffective(old(Current()), r, commitOk)
    {
      var expected := persisted;
      var current := Current();
      if r.revision != current.desiredRevision {
        return Err(Conflict);
      }
      var next := current;
      match current.desired
      {
        case RemoteEnabled =>
          if r.closed || !r.tlsReady || !r.routingReady {
            if next.remote.Some? && next.remote.value.lifecycle != Disabled {
              next := next.(remote := Some(Disable(next.remote.value)));
            }
            next := next.(effective := LocalhostOnly);
          } else {
            if next.remote.None? {
              return Err(Unavailable);
            }
            var remote := next.remote.value;
            if remote.lifecycle == Tombstoned {
              return Err(Unauthenticated);
            }
            if remote.lifecycle != Active {
              next := next.(remote := Some(remote.(lifecycle := Active, revision := remote.revision + 1)));
            }
            next := next.(effective := RemoteEnabled);
          }
        case LocalhostOnly =>
          if !r.closed {
            return Err(Unavailable);
          }
          if next.remote.Some? {
            var remote := next.remote.value.(lifecycle := Disabled);
            if current.effective != LocalhostOnly {
              remote := remote.(revision := remote.revision + 1);
            }
            next := next.(remote := Some(remote));
          }
          next := next.(effective := LocalhostOnly);
      }
      next := next.(effectiveRevision := next.desiredRevision, tlsReady := r.tlsReady, routingReady := r.routingReady);
      if next != current {
        answer := CommitStatus(expected, next, commitOk);
        return;
      }
      return Ok(next);
    }

    method SetExposureMode(mode: Mode, blocked: bool, commitOk: bool) returns (answer: Result<Status, Error>)
      modifies this
      ensures (Current(), answer) == SetMode(old(Current()), mode, blocked, commitOk)
    {
      var expected := persisted;
      var current := Current();
      if current.desired == mode {
        return Ok(current);
      }
      var next := current;
      if mode == LocalhostOnly {
        if blocked {
          return Err(RearmRequired);
        }
        if next.remote.Some? {
          next := next.(remote := Some(Disable(next.remote.value)));
        }
      } else if next.remote.None? || next.remote.value.lifecycle == Tombstoned {
        return Err(Unavailable);
      }
      next := next.(desired := mode, desiredRevision := current.desiredRevision + 1, tlsReady := false, routingReady := false);
      answer := CommitStatus(expected, next, commitOk);
    }

    method InstallRemoteSurface(origin: string, installation: string, adminKey: string, commitOk: bool)
        returns (answer: Result<Status, Error>)
      modifies this
      ensures (Current(), answer) == Install(old(Current()), origin, installation, adminKey, commitOk)
    {
      var expected := persisted;
      var current := Current();
      if current.remote.Some? {
        if current.remote.value.origin != origin || current.installation != Some(installation) || current.adminKey != Some(adminKey) {
          return Err(Conflict);
        }
        return Ok(current);
      }
      if current.installation.Some? || current.adminKey.Some? {
        return Err(Conflict);
      }
      var next := current.(remote := Some(Remote(origin, Disabled, 0)));
      next := next.(installation := Some(installation), adminKey := Some(adminKey));
      answer := CommitStatus(expected, next, commitOk);
    }
  }
}
