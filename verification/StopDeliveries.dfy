/** That what has to be sent is sent: announcements of stops and releases, moves, requests and answers; and that every
    driver's latch is the replay of the signals it heard. */
module StopDeliveries {
  import opened Options
  import opened Arbitration
  import opened LeaseRuns
  import opened TeleopRuns
  import opened SafetyLatch
  import opened StopRegions
  import opened StopProtocol
  import opened StopInvariants
  import opened StopTheorems
  import opened StopReleases
  import opened StopLeases

  // ---------------------------------------------------------------- stamps

  predicate StampIsOld(p: Phase, last: int) {
    (p.Awaiting? ==> p.stamp <= last) && (p.Releasing? ==> p.stamp <= last)
  }

  /** No stamp in use is newer than the last one given out. */
  predicate StampsAreOld(m: Manager, net: Net) {
    && (forall n | n in net.notices :: n.stamp <= m.books.lastStamp)
    && (forall r | r in net.requests :: r <= m.books.lastStamp)
    && (forall op | op in m.running :: StampIsOld(m.running[op].phase, m.books.lastStamp))
  }

  lemma StepKeepsStampsOld(c: Config, m: Manager, net: Net, e: ManagerEvent)
    requires ManagerEnabled(m, net, e) && StampsAreOld(m, net)
    ensures StampsAreOld(ManagerStep(c, m, net, e), ManagerSends(c, m, net, e))
  {
    hide Do, TeleopControl, Refreshed, TaskExpired, Remembered, LeaseRefusal, EstopSet, Validation;
  }

  lemma {:induction false} StampsOfARun(sys: System, states: seq<State>, events: seq<Event>, k: nat)
    requires Run(sys, states, events) && k < |states|
    ensures StampsAreOld(states[k].mgr, states[k].net)
  {
    hide ManagerStep, DriverStep, ManagerSends;
    if k > 0 {
      StampsOfARun(sys, states, events, k - 1);
      if events[k - 1].AtManager? {
        StepKeepsStampsOld(sys.config, states[k - 1].mgr, states[k - 1].net, events[k - 1].m);
      }
    }
  }

  // ---------------------------------------------------------------- announcements

  /** Between the two states, operation `op` leaves a phase in which its stop or fault has yet to be announced. */
  predicate LeavesAnnouncing(m: Manager, m': Manager, op: nat) {
    && op in m.running && (m.running[op].phase == Announcing || m.running[op].phase == FaultAnnouncing)
    && !(op in m'.running && m'.running[op].phase == m.running[op].phase)
  }

  predicate CallbackLeavesAnnouncing(m: Manager, m': Manager) {
    m.callback == AnnouncingEstop && m'.callback != AnnouncingEstop
  }

  lemma NothingLeaves(m: Manager, op: nat)
    ensures !LeavesAnnouncing(m, m, op) && !CallbackLeavesAnnouncing(m, m)
  {}

  lemma AnnouncingStep(c: Config, m: Manager, net: Net, e: ManagerEvent, op: nat)
    requires ManagerEnabled(m, net, e) && ManagerInv(m, net)
    requires var m' := ManagerStep(c, m, net, e); LeavesAnnouncing(m, m', op) || CallbackLeavesAnnouncing(m, m')
    ensures Notice(true, NextStamp(m.books, m.now)) in ManagerSends(c, m, net, e).notices
    ensures NextStamp(m.books, m.now) > m.books.lastStamp
  {
    hide Do, TeleopControl, Refreshed, TaskExpired, Remembered, LeaseRefusal, EstopSet, Validation;
  }

  /** No operation and no callback gets past its announcement without one being published, whose stamp is newer
      than every notice and every release request before. */
  lemma EveryStopIsAnnounced(sys: System, states: seq<State>, events: seq<Event>, k: nat, op: nat) returns (s: int)
    requires Run(sys, states, events) && k < |events|
    requires LeavesAnnouncing(states[k].mgr, states[k + 1].mgr, op)
          || CallbackLeavesAnnouncing(states[k].mgr, states[k + 1].mgr)
    ensures Notice(true, s) in states[k + 1].net.notices && s > states[k].mgr.books.lastStamp
    ensures forall n | n in states[k].net.notices :: n.stamp < s
    ensures forall r | r in states[k].net.requests :: r < s
  {
    StampsOfARun(sys, states, events, k);
    RunKeepsInv(sys, states, events, k);
    s := NextStamp(states[k].mgr.books, states[k].mgr.now);
    hide ManagerStep, DriverStep, ManagerSends, ManagerEnabled, LeavesAnnouncing, CallbackLeavesAnnouncing;
    if events[k].AtManager? {
      AnnouncingStep(sys.config, states[k].mgr, states[k].net, events[k].m, op);
    } else {
      NothingLeaves(states[k].mgr, op);
    }
  }

  /** A driver that hears that announcement is latched, and no release that was requested or announced before it
      unlatches it again. */
  lemma AnnouncementOutlastsEarlierReleases(
      sys: System, states: seq<State>, events: seq<Event>, k: nat, op: nat, who: Driver, n: nat, r: nat, s: int,
      stamp: int)
    requires Run(sys, states, events) && k < n < r < |events|
    requires LeavesAnnouncing(states[k].mgr, states[k + 1].mgr, op)
          || CallbackLeavesAnnouncing(states[k].mgr, states[k + 1].mgr)
    requires s > states[k].mgr.books.lastStamp && Hears(events[n], who, Notice(true, s))
    requires HearsRelease(states[r], events[r], who, stamp)
    requires stamp in states[k].net.requests || Notice(false, stamp) in states[k].net.notices
    ensures HasDriver(states[n + 1].drv, who) && LatchOf(states[n + 1].drv, who).latched
    ensures HasDriver(states[r].drv, who) && HasDriver(states[r + 1].drv, who)
    ensures LatchOf(states[r].drv, who).latched ==> LatchOf(states[r + 1].drv, who).latched
  {
    StampsOfARun(sys, states, events, k);
    FenceGrowsFrom(sys, states, events, who, n, r, s, stamp);
  }

  lemma FenceGrowsFrom(
      sys: System, states: seq<State>, events: seq<Event>, who: Driver, n: nat, r: nat, s: int, stamp: int)
    requires Run(sys, states, events) && n < r < |events| && stamp <= s
    requires Hears(events[n], who, Notice(true, s)) && HearsRelease(states[r], events[r], who, stamp)
    ensures HasDriver(states[n + 1].drv, who) && LatchOf(states[n + 1].drv, who).latched
    ensures HasDriver(states[r].drv, who) && HasDriver(states[r + 1].drv, who)
    ensures LatchOf(states[r].drv, who).latched ==> LatchOf(states[r + 1].drv, who).latched
  {
    OldReleaseCannotUnlatch(sys, states, events, who, n, r, s, stamp);
    var q := NoticeHasAPublisher(sys, states, events, n, Notice(true, s));
    ActiveNoticeIsAStop(sys, states, events, q, s);
    FenceAfterNotice(sys, states, events, who, n, s);
  }

  lemma NewOperationBegins(c: Config, m: Manager, net: Net, e: ManagerEvent, op: nat)
    requires ManagerEnabled(m, net, e) && ManagerInv(m, net)
    requires op !in m.running && op in ManagerStep(c, m, net, e).running
    ensures var operation := ManagerStep(c, m, net, e).running[op];
            operation.phase == if operation.origin == ReleaseCallback then Requesting else Announcing
  {
    hide Do, TeleopControl, Refreshed, TaskExpired, Remembered, LeaseRefusal, EstopSet, Validation, FaultHolds,
      ReleaseIsAlone;
  }

  lemma OnlyLatchingLeadsToFaultAnnouncing(c: Config, m: Manager, net: Net, e: ManagerEvent, op: nat)
    requires ManagerEnabled(m, net, e) && ManagerInv(m, net)
    requires op in m.running && op in ManagerStep(c, m, net, e).running && m.running[op].phase != FaultAnnouncing
    ensures ManagerStep(c, m, net, e).running[op].phase == FaultAnnouncing <==> e.LatchFault? && e.op == op
  {
    hide Do, TeleopControl, Refreshed, TaskExpired, Remembered, LeaseRefusal, EstopSet, Validation, FaultHolds,
      ReleaseIsAlone;
  }

  /** A stop begins with its announcement, and a release with its request; a fault is latched before it is announced. */
  lemma OperationsBeginWithTheirAnnouncement(sys: System, states: seq<State>, events: seq<Event>, k: nat, op: nat)
    requires Run(sys, states, events) && k < |events| && op in states[k + 1].mgr.running
    ensures op !in states[k].mgr.running ==>
              states[k + 1].mgr.running[op].phase ==
                if states[k + 1].mgr.running[op].origin == ReleaseCallback then Requesting else Announcing
    ensures op in states[k].mgr.running && states[k].mgr.running[op].phase != FaultAnnouncing ==>
              (states[k + 1].mgr.running[op].phase == FaultAnnouncing <==>
                 events[k].AtManager? && events[k].m.LatchFault? && events[k].m.op == op)
  {
    hide ManagerStep, DriverStep, ManagerSends;
    RunKeepsInv(sys, states, events, k);
    if events[k].AtManager? {
      var m, net, e := states[k].mgr, states[k].net, events[k].m;
      if op !in m.running {
        NewOperationBegins(sys.config, m, net, e, op);
      } else if m.running[op].phase != FaultAnnouncing {
        OnlyLatchingLeadsToFaultAnnouncing(sys.config, m, net, e, op);
      }
    }
  }

  /** A release that leaves no token, no fault and no e-stop behind is announced to the drivers with its stamp. */
  lemma QuietReleaseIsAnnounced(sys: System, states: seq<State>, events: seq<Event>, k: nat)
    requires Run(sys, states, events) && k < |events| && events[k].AtManager? && events[k].m.Release?
    requires var b := states[k + 1].mgr.books; b.active == {} && b.fault.None? && !b.arb.estop
    ensures var op := events[k].m.op;
            && op in states[k].mgr.running && states[k].mgr.running[op].phase.Releasing?
            && Notice(false, states[k].mgr.running[op].phase.stamp) in states[k + 1].net.notices
  {
    hide Refreshed, TaskExpired, Remembered, EstopSet, DriverStep;
  }

  /** A release is asked for with a stamp of its own, newer than all before. */
  lemma ReleaseIsAsked(sys: System, states: seq<State>, events: seq<Event>, k: nat)
    requires Run(sys, states, events) && k < |events| && events[k].AtManager? && events[k].m.RequestRelease?
    ensures var (op, m, m') := (events[k].m.op, states[k].mgr, states[k + 1].mgr);
            && op in m'.running
            && (events[k].m.ready ==>
                  && m'.running[op].phase.Awaiting? && m'.running[op].phase.stamp in states[k + 1].net.requests
                  && m'.running[op].phase.stamp > m.books.lastStamp
                  && m'.running[op].phase.stamp !in states[k].net.requests)
            && (!events[k].m.ready ==> m'.running[op].phase == Faulting(ReleaseUnavailable))
  {
    StampsOfARun(sys, states, events, k);
    hide DriverStep;
  }

  /** The request to lift the e-stop starts a release exactly when the e-stop is in force, nothing failed and nothing is
      being stopped. */
  lemma LiftingBeginsExactlyWhen(sys: System, states: seq<State>, events: seq<Event>, k: nat)
    requires sys.config.Valid() && Run(sys, states, events) && k < |events|
    requires events[k].AtManager? && events[k].m.EstopOff?
    ensures var b, b' := states[k].mgr.books, states[k + 1].mgr.books;
            if EstopInForce(CallsBefore(states, events, k), |CallsBefore(states, events, k)|)
               && b.fault.None? && b.active == {}
            then b'.active == {b.nextOp} && b'.nextOp == b.nextOp + 1
                 && b.nextOp in states[k + 1].mgr.running && states[k + 1].mgr.running[b.nextOp].phase == Requesting
            else b'.active == b.active && states[k + 1].mgr.running == states[k].mgr.running
  {
    var calls := CallsBefore(states, events, k);
    ArbitratorOfARun(sys, states, events, k);
    EstopIsTheLastCall(sys.config, calls, |calls|);
    assert calls[..|calls|] == calls;
    hide TaskExpired, TeleopExpired, Remembered, DriverStep, CallsBefore, After, EstopInForce;
  }

  // ---------------------------------------------------------------- moves

  /** The event is a command that the arbitrator accepts while nothing is being stopped. */
  predicate ForwardsNow(sys: System, s: State, e: Event) {
    && e.AtManager? && e.m.ReceiveCommand? && s.mgr.books.active == {}
    && Do(sys.config, s.mgr.books.arb, CommandCall(e.m.source, e.m.at, e.m.requester, e.m.lease)).1 == Accepted
  }

  /** An accepted command is published, with the manager's clock, and its servo becomes known; no other event
      publishes a move. */
  lemma MovesAreThoseForwarded(sys: System, states: seq<State>, events: seq<Event>, k: nat)
    requires Run(sys, states, events) && k < |events|
    ensures ForwardsNow(sys, states[k], events[k]) ==>
              && states[k + 1].net.moves
                 == states[k].net.moves + {Move(states[k].mgr.now, events[k].m.servo, events[k].m.position)}
              && states[k + 1].mgr.books.known == states[k].mgr.books.known + {events[k].m.servo}
    ensures !ForwardsNow(sys, states[k], events[k]) ==>
              && states[k + 1].net.moves == states[k].net.moves
              && states[k + 1].mgr.books.known
                 == states[k].mgr.books.known
                    + (if events[k].AtManager? && events[k].m.ReceiveServoState? then {events[k].m.servo} else {})
  {
    if events[k].AtManager? && events[k].m.ReceiveCommand? && states[k].mgr.books.active != {} {
      RefusedCommandIsNotAccepted(sys.config, states[k].mgr.books.arb, events[k].m.source, events[k].m.at);
    }
    hide Do, TeleopControl, Refreshed, TaskExpired, Remembered, LeaseRefusal, EstopSet, Validation, DriverStep;
  }

  lemma RefusedCommandIsNotAccepted(c: Config, a: Arb, source: Source, now: real)
    ensures Do(c, a, CommandRefusedCall(source, now)).1 != Accepted
  {
    hide Refreshed, Command;
  }

  /** Whether a command is forwarded, in terms of the leases and the e-stop in force. */
  lemma CommandIsForwardedExactlyWhen(sys: System, states: seq<State>, events: seq<Event>, k: nat)
    requires sys.config.Valid() && Run(sys, states, events) && k < |events|
    requires events[k].AtManager? && events[k].m.ReceiveCommand?
    ensures states[k].mgr.books.active != {} ==> !ForwardsNow(sys, states[k], events[k])
    ensures states[k].mgr.books.active == {} ==>
              var (c, e, j) := (sys.config, events[k].m, |CallsBefore(states, events, k)|);
              var calls := CallsBefore(states, events, k + 1);
              && j < |calls| && calls[j].CommandCall?
              && (e.source == Motion ==>
                    (ForwardsNow(sys, states[k], events[k]) <==>
                       && !EstopInForce(calls, j) && !TaskLeaseInForce(c, calls, j)
                       && !exists i :: TeleopInForce(c, calls, i, j)))
              && (e.source == Teleop ==>
                    (ForwardsNow(sys, states[k], events[k]) <==>
                       exists i :: TeleopInForce(c, calls, i, j)
                         && e.requester == calls[i].requester != "" && e.lease == calls[i].minted))
              && (e.source == Task ==>
                    (ForwardsNow(sys, states[k], events[k]) <==>
                       exists i :: 0 <= i < j && Lease(c, calls, i, j) && InTime(c, calls, i, j)
                         && e.lease == calls[i].minted != "" && e.requester == calls[i].id.task))
  {
    if states[k].mgr.books.active == {} {
      var c, e, before := sys.config, events[k].m, CallsBefore(states, events, k);
      var calls := CallsBefore(states, events, k + 1);
      ArbitratorOfARun(sys, states, events, k);
      assert calls == before + [CommandCall(e.source, e.at, e.requester, e.lease)] && calls[..|before|] == before;
      hide Do, Command, CallsBefore, CallsOf, ManagerStep, DriverStep, After;
      assert ForwardsNow(sys, states[k], events[k]) <==> Verdict(c, calls, |before|) == Accepted;
      match e.source
      case Motion => MotionAcceptance(c, calls, |before|);
      case Teleop => TeleopCommandAcceptance(c, calls, |before|);
      case Task => TaskCommandAcceptance(c, calls, |before|);
    }
  }

  /** The bus servos the manager knows are those that reported a state or that a command was forwarded to. */
  lemma {:induction false} KnownServosOfARun(sys: System, states: seq<State>, events: seq<Event>, k: nat, servo: int)
    requires Run(sys, states, events) && k < |states|
    ensures servo in states[k].mgr.books.known <==>
              exists q :: 0 <= q < k && MakesKnown(sys, states[q], events[q], servo)
  {
    hide ManagerStep, DriverStep, ForwardsNow;
    if k > 0 {
      KnownServosOfARun(sys, states, events, k - 1, servo);
      MovesAreThoseForwarded(sys, states, events, k - 1);
    }
  }

  predicate MakesKnown(sys: System, s: State, e: Event, servo: int) {
    e.AtManager? && ((e.m.ReceiveServoState? && e.m.servo == servo) || (ForwardsNow(sys, s, e) && e.m.servo == servo))
  }

  // ---------------------------------------------------------------- the drivers

  /** The signal that an event gives to a driver's latch, if any. */
  function SignalOf(s: State, e: Event, who: Driver): Option<Signal> {
    if !e.AtDrivers? then None
    else match e.d
      case RouterNotice(n, now) => if who.Router? then Some(Authority(n.active, n.stamp, now)) else None
      case RouterStop(now) => if who.Router? then Some(LocalStop(now)) else None
      case RouterDecide(now) =>
        if who.Router? && s.drv.job.Some? && s.drv.job.value.allApplied
        then Some(Authority(false, s.drv.job.value.stamp, now)) else None
      case PortNotice(port, n, now) => if who == Port(port) then Some(Authority(n.active, n.stamp, now)) else None
      case PortStop(port, now) => if who == Port(port) then Some(LocalStop(now)) else None
      case PortRelease(port, stamp, _, now) => if who == Port(port) then Some(Authority(false, stamp, now)) else None
      case _ => None
  }

  /** All signals a driver got during the first `k` events. */
  function SignalsBefore(states: seq<State>, events: seq<Event>, who: Driver, k: nat): seq<Signal>
    requires k <= |events| <= |states|
  {
    if k == 0 then []
    else
      var signal := SignalOf(states[k - 1], events[k - 1], who);
      SignalsBefore(states, events, who, k - 1) + (if signal.Some? then [signal.value] else [])
  }

  lemma LatchAfterStep(sys: System, s: State, e: Event, who: Driver)
    requires Enabled(sys, s, e) && HasDriver(s.drv, who)
    ensures HasDriver(Step(sys, s, e).drv, who)
    ensures var signal := SignalOf(s, e, who);
            LatchOf(Step(sys, s, e).drv, who)
              == if signal.Some? then Apply(LatchOf(s.drv, who), signal.value) else LatchOf(s.drv, who)
  {
    hide ManagerStep, ManagerSends, DriverSends;
  }

  /** In every run the latch of the router and of every port is the replay of the signals it got, so all of
      `SafetyLatch` applies to it. */
  lemma {:induction false} LatchOfARun(sys: System, states: seq<State>, events: seq<Event>, who: Driver, k: nat)
    requires Run(sys, states, events) && k < |states| && HasDriver(states[0].drv, who)
    ensures HasDriver(states[k].drv, who)
    ensures LatchOf(states[k].drv, who) == Replay(SignalsBefore(states, events, who, k))
  {
    if k > 0 {
      LatchOfARun(sys, states, events, who, k - 1);
      LatchAfterStep(sys, states[k - 1], events[k - 1], who);
      var before := SignalsBefore(states, events, who, k - 1);
      var signal := SignalOf(states[k - 1], events[k - 1], who);
      hide Step, SignalOf, Apply;
      if signal.Some? {
        assert (before + [signal.value])[..|before + [signal.value]| - 1] == before;
      } else {
        assert before + [] == before;
      }
    }
  }

  /** The router forwards a move exactly when every stop it got was released and the move is newer than all of them (or
      none of them had a positive time); nothing else is forwarded. */
  lemma ForwardedExactlyWhen(sys: System, states: seq<State>, events: seq<Event>, k: nat)
    requires Run(sys, states, events) && k < |events|
    ensures var h := SignalsBefore(states, events, Router, k);
            states[k + 1].net.forwarded ==
              states[k].net.forwarded
              + (if events[k].AtDrivers? && events[k].d.RouterMove? && MayPass(h, events[k].d.move.stamp)
                 then {(events[k].d.port, events[k].d.move)} else {})
  {
    LatchOfARun(sys, states, events, Router, k);
    var h := SignalsBefore(states, events, Router, k);
    if events[k].AtDrivers? && events[k].d.RouterMove? {
      AdmissionMeansNewerThanEveryStop(h, events[k].d.move.stamp);
    }
    hide ManagerStep, NoticeOf, MoveOf, SignalsBefore, Replay, StopStands;
  }

  /** Every stop in the history was released and the stamp is newer than all of them, or none had a positive time. */
  ghost predicate MayPass(h: seq<Signal>, stamp: int) {
    && (forall i | 0 <= i < |h| :: !StopStands(h, i))
    && ( || (forall i | 0 <= i < |h| && IsLatching(h[i]) :: LatchTime(h[i]) <= 0)
         || (forall i | 0 <= i < |h| && IsLatching(h[i]) :: LatchTime(h[i]) < stamp))
  }

  /** Every release call is answered: a port tells whether it let go, the router whether all ports with servos and
      itself did. */
  lemma ReleasesAreAnswered(sys: System, states: seq<State>, events: seq<Event>, k: nat)
    requires Run(sys, states, events) && k < |events| && events[k].AtDrivers?
    ensures var e := events[k].d;
            && (e.PortRelease? ==>
                  && e.port < |states[k + 1].drv.ports|
                  && (e.call, !states[k + 1].drv.ports[e.port].latched) in states[k + 1].net.portReplies)
            && (e.RouterDecide? ==>
                  && states[k].drv.job.Some?
                  && (states[k].drv.job.value.stamp,
                      states[k].drv.job.value.allApplied && !states[k + 1].drv.router.latched)
                     in states[k + 1].net.replies)
            && (e.RouterCallPort? && e.reachable ==>
                  && states[k].drv.job.Some? && states[k + 1].drv.job.Some?
                  && states[k + 1].drv.job.value.waiting.Some?
                  && (states[k].drv.job.value.port, states[k].drv.job.value.stamp,
                      states[k + 1].drv.job.value.waiting.value) in states[k + 1].net.portRequests)
  {
    hide ManagerStep, NoticeOf, MoveOf;
  }

  // ---------------------------------------------------------------- why a fault was latched

  /** The event judges an operation as failed for this reason. */
  /** The event judges an operation as failed for this reason. */
  /** A port failed to let go: it could not be reached, was not heard, or answered otherwise. */
  predicate FailsAPort(e: Event) {
    || (e.AtDrivers? && e.d.RouterCallPort? && !e.d.reachable)
    || (e.AtDrivers? && e.d.RouterHeard? && e.d.outcome != PortAnswered(true))
  }

  /** A router release counts as not applied exactly when, since it began, some port failed to let go. */
  lemma {:induction false} ReleaseIsAppliedUnlessAPortFails(
      sys: System, states: seq<State>, events: seq<Event>, b: nat, k: nat)
    requires Run(sys, states, events) && k < |states| && JobBegan(states, events, b, k)
    ensures !states[k].drv.job.value.allApplied <==> exists q :: b < q < k && FailsAPort(events[q])
    decreases k
  {
    hide ManagerStep, ManagerSends, DriverSends;
    if k > b + 1 {
      ReleaseIsAppliedUnlessAPortFails(sys, states, events, b, k - 1);
    }
  }

  predicate FailsFor(e: ManagerEvent, op: nat, reason: FaultReason) {
    || (e == StopDone(op, NotSent(true)) && reason == StopTimeout)
    || (e == StopDone(op, NotSent(false)) && reason == StopFailed)
    || (e == RequestRelease(op, false) && reason == ReleaseUnavailable)
    || (e == ReleaseAnswered(op, Refused) && reason == ReleaseFailed)
    || (e == ReleaseAnswered(op, Answer.TimedOut) && reason == ReleaseTimeout)
  }

  predicate FailedAt(events: seq<Event>, k: nat, op: nat, reason: FaultReason)
    requires k < |events|
  {
    events[k].AtManager? && FailsFor(events[k].m, op, reason)
  }

  lemma FaultingStep(c: Config, m: Manager, net: Net, e: ManagerEvent, op: nat, reason: FaultReason)
    requires ManagerEnabled(m, net, e) && ManagerInv(m, net) && In(ManagerStep(c, m, net, e), op, Faulting(reason))
    ensures In(m, op, Faulting(reason)) || FailsFor(e, op, reason)
  {
    hide Do, TeleopControl, Refreshed, TaskExpired, Remembered, LeaseRefusal, EstopSet, Validation;
  }

  lemma {:induction false} FaultingHasAFailure(
      sys: System, states: seq<State>, events: seq<Event>, k: nat, op: nat, reason: FaultReason) returns (q: nat)
    requires Run(sys, states, events) && k < |states| && In(states[k].mgr, op, Faulting(reason))
    ensures q < k && FailedAt(events, q, op, reason)
  {
    hide ManagerStep, DriverStep;
    RunKeepsInv(sys, states, events, k - 1);
    if events[k - 1].AtManager? {
      FaultingStep(sys.config, states[k - 1].mgr, states[k - 1].net, events[k - 1].m, op, reason);
    }
    if In(states[k - 1].mgr, op, Faulting(reason)) {
      q := FaultingHasAFailure(sys, states, events, k - 1, op, reason);
    } else {
      q := k - 1;
    }
  }

  /** The latched reason is that of a stop or release that failed so. */
  lemma {:induction false} FaultTellsWhatFailed(sys: System, states: seq<State>, events: seq<Event>, k: nat)
    returns (q: nat, op: nat)
    requires Run(sys, states, events) && k < |states| && states[k].mgr.books.fault.Some?
    ensures q < k && FailedAt(events, q, op, states[k].mgr.books.fault.value)
  {
    hide ManagerStep, DriverStep;
    if states[k - 1].mgr.books.fault == states[k].mgr.books.fault {
      q, op := FaultTellsWhatFailed(sys, states, events, k - 1);
    } else {
      ChangedFaultIsThatOfItsOperation(sys.config, states[k - 1].mgr, states[k - 1].net, events[k - 1].m);
      op := events[k - 1].m.op;
      q := FaultingHasAFailure(sys, states, events, k - 1, op, states[k].mgr.books.fault.value);
    }
  }

  lemma ChangedFaultIsThatOfItsOperation(c: Config, m: Manager, net: Net, e: ManagerEvent)
    requires ManagerEnabled(m, net, e)
    ensures var m' := ManagerStep(c, m, net, e);
            m'.books.fault != m.books.fault ==>
              && e.LatchFault? && m'.books.fault.Some? && In(m, e.op, Faulting(m'.books.fault.value))
  {
    hide Do, TeleopControl, Refreshed, TaskExpired, Remembered, LeaseRefusal, EstopSet, Validation;
  }
}
