/**
 When each administration of the remote surface is accepted, what it leaves, and that withdrawing
 remote access holds until it is granted again.
 */
module ExposureAnswers {
  import opened Wrappers
  import opened Exposure

  /** Everything but the two fields an installation names and the surface itself. */
  predicate SameSurface(a: Status, b: Status) { b.installation == a.installation && b.adminKey == a.adminKey }

  // ---------------------------------------------------------------- the desired mode

  /**
   Another mode is accepted if and only if the commit goes through, no wallet is left without a local
   credential when remote access is withdrawn, and a surface that is not retired is there when it is
   granted. It is then desired at the next revision, with readiness to be observed anew.
   */
  lemma ModeChangedExactly(s: Status, mode: Mode, blocked: bool, commitOk: bool)
    requires mode != s.desired
    ensures var (s', r) := SetMode(s, mode, blocked, commitOk);
            && (r.Ok? <==> && commitOk && (mode == LocalhostOnly ==> !blocked)
                           && (mode == RemoteEnabled ==> s.remote.Some? && s.remote.value.lifecycle != Tombstoned))
            && (if r.Ok? then
                  && r.value == s' && s'.desired == mode && s'.desiredRevision == s.desiredRevision + 1
                  && !s'.tlsReady && !s'.routingReady
                  && SameSurface(s, s') && s'.effective == s.effective && s'.effectiveRevision == s.effectiveRevision
                  && (mode == RemoteEnabled || s.remote.None? ==> s'.remote == s.remote)
                  && (mode == LocalhostOnly && s.remote.Some? ==>
                        s'.remote == Some(Remote(s.remote.value.origin, Disabled, s.remote.value.revision + 1)))
                else
                  && s' == s
                  && r.error == if mode == LocalhostOnly && blocked then RearmRequired
                                else if mode == RemoteEnabled && (s.remote.None? || s.remote.value.lifecycle == Tombstoned) then Unavailable
                                else StorageFailed)
  {
  }

  lemma ModeKept(s: Status, blocked: bool, commitOk: bool)
    ensures SetMode(s, s.desired, blocked, commitOk) == (s, Ok(s))
  {
  }

  // ---------------------------------------------------------------- the broker's reports

  predicate Ready(r: Report) { r.tlsReady && r.routingReady && !r.closed }

  /**
   A report is accepted if and only if it is of the desired revision, says ready only of a surface that
   is there and not retired, acknowledges closure while remote access is withdrawn, and is committed
   when it says anything new. The surface then follows it, at a higher revision when it changes.
   */
  lemma ReportExactly(s: Status, r: Report, commitOk: bool)
    ensures var (s', answer) := ReportEffective(s, r, commitOk);
            && (answer.Ok? <==> && r.revision == s.desiredRevision
                                && (s.desired == RemoteEnabled && Ready(r) ==> s.remote.Some? && s.remote.value.lifecycle != Tombstoned)
                                && (s.desired == LocalhostOnly ==> r.closed)
                                && (commitOk || s == Observed(s, r)))
            && s' == (if answer.Ok? then Observed(s, r) else s)
            && (answer.Ok? ==> answer.value == s')
  {
  }

  /** The status a report asks for. */
  function Observed(s: Status, r: Report): Status {
    var active := s.desired == RemoteEnabled && Ready(r);
    var raises := if s.desired == RemoteEnabled then (if active then s.remote.Some? && s.remote.value.lifecycle != Active
                                                       else s.remote.Some? && s.remote.value.lifecycle != Disabled)
                  else s.effective != LocalhostOnly;
    s.(remote := if s.remote.None? then None
                 else Some(Remote(s.remote.value.origin, if active then Active else Disabled,
                                  s.remote.value.revision + if raises then 1 else 0)),
       effective := if active then RemoteEnabled else LocalhostOnly, effectiveRevision := s.desiredRevision,
       tlsReady := r.tlsReady, routingReady := r.routingReady)
  }

  // ---------------------------------------------------------------- installing and starting

  /** A surface is installed once, Disabled at revision 0; the same installation again is answered again. */
  lemma InstallExactly(s: Status, origin: string, installation: string, adminKey: string, commitOk: bool)
    ensures var (s', r) := Install(s, origin, installation, adminKey, commitOk);
            && (r.Ok? <==> if s.remote.Some? then
                             s.remote.value.origin == origin && s.installation == Some(installation) && s.adminKey == Some(adminKey)
                           else s.installation.None? && s.adminKey.None? && commitOk)
            && s' == (if r.Ok? && s.remote.None? then
                        s.(remote := Some(Remote(origin, Disabled, 0)), installation := Some(installation), adminKey := Some(adminKey))
                      else s)
            && (r.Ok? ==> r.value == s')
  {
  }

  /**
   In every reachable state a start succeeds unless it has something to withdraw and cannot store it; the surface is then
   not Active and nothing is claimed ready.
   */
  lemma StartExactly(history: seq<Command>, commitOk: bool)
    ensures var s := Run(DEFAULT, history);
            var (s', r) := Start(s, commitOk);
            && (r.Ok? <==> commitOk || (s.effective == LocalhostOnly && !s.tlsReady && !s.routingReady))
            && (if r.Ok? then !RemoteActive(s') && s'.effective == LocalhostOnly && !s'.tlsReady && !s'.routingReady else s' == s)
            && s'.desired == s.desired && s'.desiredRevision == s.desiredRevision
  {
    RunAgreed(DEFAULT, history);
    var s := Run(DEFAULT, history);
    ReportExactly(s, Report(s.desiredRevision, false, false, true), commitOk);
  }

  // ---------------------------------------------------------------- withdrawal holds

  /** Remote access is granted somewhere in the run. */
  predicate Granted(s: Status, commands: seq<Command>)
    decreases |commands|
  {
    commands != []
    && ((commands[0].ModeCmd? && commands[0].mode == RemoteEnabled && Execute(s, commands[0]).1.Ok?)
        || Granted(Execute(s, commands[0]).0, commands[1..]))
  }

  lemma StepStaysLocal(s: Status, c: Command)
    requires Agreed(s) && s.desired == LocalhostOnly
    requires !(c.ModeCmd? && c.mode == RemoteEnabled && Execute(s, c).1.Ok?)
    ensures Agreed(Execute(s, c).0) && Execute(s, c).0.desired == LocalhostOnly
  {
  }

  lemma {:induction false} RunStaysLocal(s: Status, commands: seq<Command>)
    requires Agreed(s) && s.desired == LocalhostOnly && !Granted(s, commands)
    ensures var t := Run(s, commands); t.desired == LocalhostOnly && !RemoteActive(t)
    decreases |commands|
  {
    if commands != [] {
      StepStaysLocal(s, commands[0]);
      RunStaysLocal(Execute(s, commands[0]).0, commands[1..]);
    }
  }

  /** After any history, once remote access is withdrawn the surface is never Active until it is granted again. */
  lemma WithdrawalHolds(history: seq<Command>, blocked: bool, commitOk: bool, commands: seq<Command>)
    requires SetMode(Run(DEFAULT, history), LocalhostOnly, blocked, commitOk).1.Ok?
    requires !Granted(SetMode(Run(DEFAULT, history), LocalhostOnly, blocked, commitOk).0, commands)
    ensures var t := Run(SetMode(Run(DEFAULT, history), LocalhostOnly, blocked, commitOk).0, commands);
            t.desired == LocalhostOnly && !RemoteActive(t)
  {
    RunAgreed(DEFAULT, history);
    var s := Run(DEFAULT, history);
    if s.desired != LocalhostOnly {
      ModeChangedExactly(s, LocalhostOnly, blocked, commitOk);
    }
    RunStaysLocal(SetMode(s, LocalhostOnly, blocked, commitOk).0, commands);
  }

  /** Once it is granted, a ready report at the revision it was granted at makes the surface Active. */
  lemma GrantThenReady(s: Status, blocked: bool, r: Report)
    requires s.desired == LocalhostOnly && SetMode(s, RemoteEnabled, blocked, true).1.Ok?
    requires r.revision == s.desiredRevision + 1 && Ready(r)
    ensures var s1 := SetMode(s, RemoteEnabled, blocked, true).0;
            ReportEffective(s1, r, true).1.Ok? && RemoteActive(ReportEffective(s1, r, true).0)
  {
    ModeChangedExactly(s, RemoteEnabled, blocked, true);
    ReportExactly(SetMode(s, RemoteEnabled, blocked, true).0, r, true);
  }
}
