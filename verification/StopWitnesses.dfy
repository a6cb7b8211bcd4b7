/** Runs of the stop protocol that show what it does not promise. */
module StopWitnesses {
  import opened Options
  import opened Arbitration
  import opened SafetyLatch
  import opened StopRegions
  import opened StopProtocol
  import opened StopInvariants
  import opened StopTheorems

  const WORKER := Identity("task", "trace", "session")

  const SILENT := Net({Notice(false, 1)}, {}, {}, {}, {}, {}, {})

  function Start0(): Manager {
    Manager(Stamped(EMPTY_BOOKS, 0), 0, FreeGroup, map[])
  }

  function Drivers0(sys: System): Drivers {
    Drivers(SafetyLatch.INITIAL, seq(|sys.hasIds|, _ => SafetyLatch.INITIAL), None, 0)
  }

  lemma StartsInitial(sys: System)
    ensures Initial(sys, State(Start0(), SILENT, Drivers0(sys)))
  {}

  // ---------------------------------------------------------------- a token dropped without any release

  function Granted(c: Config): Arb {
    TaskControl(c, Arbitration.INITIAL, Start, 0.0, WORKER, "", "lease").0
  }

  lemma GrantedIsHeld(c: Config)
    requires c.Valid()
    ensures Validation(c, Granted(c), 0.0, WORKER, "lease") == (Granted(c), Accepted)
    ensures Refreshed(c, Granted(c), 0.0) == Granted(c)
  {}

  /** The manager after the task start, the two stop requests, and the first operation's stop. */
  function Overlap(c: Config): seq<Manager> {
    var m1 := Start0().(books := Start0().books.(arb := Granted(c)));
    var m2 := m1.(books := Registered(m1.books), running := map[1 := Operation(StopService, Announcing)]);
    var m3 := m2.(books := Registered(m2.books), running := m2.running[2 := Operation(StopService, Announcing)]);
    var m4 := PhaseSet(m3, 1, Stopping).(books := Stamped(m3.books, 0));
    var m5 := PhaseSet(m4, 1, Finishing);
    var m6 := Returned(m5, 1).(books := Discarded(m5.books, 1));
    [Start0(), m1, m2, m3, m4, m5, m6]
  }

  function OverlapEvents(): seq<ManagerEvent> {
    [ReceiveTaskControl(Start, 0.0, WORKER, "", "lease"),
     StopRequest(0.0, WORKER, "lease"), StopRequest(0.0, WORKER, "lease"),
     Announce(1), StopDone(1, Sent), ManagerEvent.Finish(1, 0.0)]
  }

  predicate OverlapStepIs(c: Config, net: Net, k: nat)
    requires k < 6
  {
    var m, e := Overlap(c)[k], OverlapEvents()[k];
    && ManagerEnabled(m, net, e) && ManagerStep(c, m, net, e) == Overlap(c)[k + 1]
    && ManagerSends(c, m, net, e) == (if k == 3 then net.(notices := net.notices + {Notice(true, 2)}) else net)
  }

  lemma OverlapBegins(c: Config, net: Net)
    requires c.Valid()
    ensures OverlapStepIs(c, net, 0)
  {
    GrantedByRegion(c);
    hide Granted, TaskControlRegion;
  }

  lemma OverlapAsks(c: Config, net: Net, k: nat)
    requires c.Valid() && 1 <= k < 3
    ensures OverlapStepIs(c, net, k)
  {
    GrantedIsHeld(c);
    hide Granted, Validation;
  }

  lemma OverlapStops(c: Config, net: Net, k: nat)
    requires 3 <= k < 5
    ensures OverlapStepIs(c, net, k)
  {
    hide Granted;
  }

  lemma OverlapDrops(c: Config, net: Net)
    requires c.Valid()
    ensures OverlapStepIs(c, net, 5)
  {
    GrantedIsHeld(c);
    hide Granted, Refreshed;
  }

  lemma OverlapSteps(c: Config, net: Net, k: nat)
    requires c.Valid() && k < 6
    ensures OverlapStepIs(c, net, k)
  {
    hide OverlapStepIs;
    if k == 0 {
      OverlapBegins(c, net);
    } else if k < 3 {
      OverlapAsks(c, net, k);
    } else if k < 5 {
      OverlapStops(c, net, k);
    } else {
      OverlapDrops(c, net);
    }
  }

  lemma GrantedByRegion(c: Config)
    ensures TaskControlRegion(c, Start0().books, Start, 0.0, WORKER, "", "lease").0
         == Start0().books.(arb := Granted(c))
  {}

  function OverlapState(sys: System, k: nat): State
    requires k <= 6
  {
    State(Overlap(sys.config)[k], if k < 4 then SILENT else SILENT.(notices := SILENT.notices + {Notice(true, 2)}),
          Drivers0(sys))
  }

  lemma OverlapStep(sys: System, k: nat)
    requires sys.config.Valid() && k < 6
    ensures var s, e := OverlapState(sys, k), AtManager(OverlapEvents()[k]);
            Enabled(sys, s, e) && Step(sys, s, e) == OverlapState(sys, k + 1)
  {
    OverlapSteps(sys.config, OverlapState(sys, k).net, k);
    hide ManagerStep, ManagerEnabled, ManagerSends, Overlap, OverlapEvents;
  }

  /** Two overlapping stop operations: the first one's token goes while no driver was ever asked to release. */
  lemma TokenGoesWithoutARelease(sys: System) returns (states: seq<State>, events: seq<Event>)
    requires sys.config.Valid()
    ensures Run(sys, states, events) && |events| == 6 && events[5].AtManager?
    ensures 1 in states[5].mgr.books.active && 1 !in states[6].mgr.books.active
    ensures DropsQuietly(sys.config, states[5].mgr, events[5].m, 1)
    ensures states[6].mgr.books.fault.None? && !states[6].mgr.books.arb.estop
    ensures states[6].net.requests == {} && states[6].net.replies == {}
  {
    states := seq(7, k requires 0 <= k < 7 => OverlapState(sys, k));
    events := seq(6, k requires 0 <= k < 6 => AtManager(OverlapEvents()[k]));
    StartsInitial(sys);
    OverlapFacts(sys.config);
    assert OverlapState(sys, 0) == State(Start0(), SILENT, Drivers0(sys));
    hide Enabled, Step, Overlap, OverlapEvents, Initial, DropsQuietly;
    forall k | 0 <= k < 6
      ensures Enabled(sys, states[k], events[k]) && states[k + 1] == Step(sys, states[k], events[k])
    {
      OverlapStep(sys, k);
    }
  }

  lemma OverlapFacts(c: Config)
    requires c.Valid()
    ensures |Overlap(c)| == 7 && |OverlapEvents()| == 6 && Overlap(c)[0] == Start0()
    ensures 1 in Overlap(c)[5].books.active && 1 !in Overlap(c)[6].books.active
    ensures DropsQuietly(c, Overlap(c)[5], OverlapEvents()[5], 1)
    ensures Overlap(c)[6].books.fault.None? && !Overlap(c)[6].books.arb.estop
  {
    assert 2 in Looked(c, Overlap(c)[5].books, 0.0).active - {1};
    assert !Granted(c).estop;
  }

  // ---------------------------------------------------------------- a failed release that leaves a trace

  /** The manager after an e-stop without known servos, its announcement, and the request to lift it. */
  function Lifting(c: Config): seq<Manager> {
    var m1 := Start0().(books := EstopRegion(c, Start0().books, 0.0), callback := AnnouncingEstop);
    var m2 := m1.(books := Stamped(m1.books, 0), callback := FreeGroup);
    var m3 := m2.(books := EstopReleaseRegion(c, m2.books, 0.0), callback := InOperation(1),
                  running := map[1 := Operation(ReleaseCallback, Requesting)]);
    var m4 := PhaseSet(m3, 1, Awaiting(3)).(books := Stamped(m3.books, 0));
    [Start0(), m1, m2, m3, m4]
  }

  function LiftingEvents(): seq<ManagerEvent> {
    [EstopOn(0.0), EstopAnnounce, EstopOff(0.0), RequestRelease(1, true)]
  }

  lemma LiftingSteps(c: Config, net: Net, k: nat)
    requires k < 4
    ensures ManagerEnabled(Lifting(c)[k], net, LiftingEvents()[k])
    ensures ManagerStep(c, Lifting(c)[k], net, LiftingEvents()[k]) == Lifting(c)[k + 1]
    ensures ManagerSends(c, Lifting(c)[k], net, LiftingEvents()[k])
         == (if k == 1 then net.(notices := net.notices + {Notice(true, 2)})
             else if k == 3 then net.(requests := net.requests + {3}) else net)
  {
    hide Remembered, TaskExpired, TeleopExpired, ModeAt;
  }

  function OnePort(latch: Latch, job: Option<Job>, calls: nat, router: Latch): Drivers {
    Drivers(router, [latch], job, calls)
  }

  /** The drivers from the router's own stop, at a clock ahead of the manager's, to the router's decision. */
  function Asked(): seq<Drivers> {
    var fresh0, ahead, heard := SafetyLatch.INITIAL, Latch(true, 100, 0), Latch(false, 0, 3);
    [OnePort(fresh0, None, 0, fresh0),
     OnePort(fresh0, None, 0, ahead),
     OnePort(fresh0, Some(Job(3, 0, None, true)), 0, ahead),
     OnePort(fresh0, Some(Job(3, 0, Some(0), true)), 1, ahead),
     OnePort(heard, Some(Job(3, 0, Some(0), true)), 1, ahead),
     OnePort(heard, Some(Job(3, 1, None, true)), 1, ahead),
     OnePort(heard, None, 1, Latch(true, 100, 3))]
  }

  function AskedEvents(): seq<DriverEvent> {
    [RouterStop(100), RouterBegin(3), RouterCallPort(true), PortRelease(0, 3, 0, 0), RouterHeard(PortAnswered(true)),
     RouterDecide(0)]
  }

  function AskedNets(): seq<Net> {
    var n0 := SILENT.(notices := SILENT.notices + {Notice(true, 2)}, requests := {3});
    var n3 := n0.(portRequests := {(0, 3, 0)});
    var n4 := n3.(portReplies := {(0, true)});
    [n0, n0, n0, n3, n4, n4, n4.(replies := {(3, false)})]
  }

  lemma AskedSteps(sys: System, k: nat)
    requires sys.hasIds == [true] && k < 6
    ensures DriverEnabled(sys, Asked()[k], AskedNets()[k], AskedEvents()[k])
    ensures DriverStep(sys, Asked()[k], AskedNets()[k], AskedEvents()[k]) == Asked()[k + 1]
    ensures DriverSends(sys, Asked()[k], AskedNets()[k], AskedEvents()[k]) == AskedNets()[k + 1]
  {}

  function FailureState(c: Config, k: nat): State
    requires k <= 10
  {
    var told := SILENT.(notices := SILENT.notices + {Notice(true, 2)});
    if k < 4 then State(Lifting(c)[k], if k < 2 then SILENT else told, Asked()[0])
    else State(Lifting(c)[4], AskedNets()[k - 4], Asked()[k - 4])
  }

  function FailureEvent(k: nat): Event
    requires k < 10
  {
    if k < 4 then AtManager(LiftingEvents()[k]) else AtDrivers(AskedEvents()[k - 4])
  }

  lemma FailureStep(c: Config, k: nat)
    requires k < 10
    ensures var s, e, sys := FailureState(c, k), FailureEvent(k), System(c, [true]);
            Enabled(sys, s, e) && Step(sys, s, e) == FailureState(c, k + 1)
  {
    hide ManagerStep, ManagerEnabled, ManagerSends, DriverStep, DriverEnabled, DriverSends;
    if k < 4 {
      LiftingSteps(c, FailureState(c, k).net, k);
      assert SILENT.requests + {3} == {3};
      hide Lifting, LiftingEvents, AskedEvents;
    } else {
      AskedSteps(System(c, [true]), k - 4);
      hide Lifting, LiftingEvents, AskedEvents, Asked, AskedNets;
    }
  }

  lemma FailureEnds(c: Config)
    ensures Initial(System(c, [true]), FailureState(c, 0))
    ensures FailureEvent(9) == AtDrivers(RouterDecide(0))
    ensures FailureState(c, 9).drv == Asked()[5] && FailureState(c, 10).drv == Asked()[6]
  {
    StartsInitial(System(c, [true]));
    assert Drivers0(System(c, [true])) == Asked()[0];
  }

  /** Every port lets go, yet the router's release fails, because the router stopped at a time ahead of the manager's
      clock; the release leaves its stamp behind as the router's last authority. */
  lemma FailedReleaseLeavesATrace(c: Config) returns (states: seq<State>, events: seq<Event>)
    ensures Run(System(c, [true]), states, events) && |events| == 10 && events[9] == AtDrivers(RouterDecide(0))
    ensures var job := states[9].drv.job;
            job.Some? && job.value.allApplied && !DecidedWell(states[9].drv, 0)
    ensures states[9].drv.router == Latch(true, 100, 0) && states[10].drv.router == Latch(true, 100, 3)
  {
    states := seq(11, k requires 0 <= k < 11 => FailureState(c, k));
    events := seq(10, k requires 0 <= k < 10 => FailureEvent(k));
    FailureEnds(c);
    hide FailureState, FailureEvent, Initial, Enabled, Step;
    forall k | 0 <= k < 10
      ensures Enabled(System(c, [true]), states[k], events[k])
      ensures states[k + 1] == Step(System(c, [true]), states[k], events[k])
    {
      FailureStep(c, k);
    }
  }

  // ---------------------------------------------------------------- stops that end in an exception

  lemma RaisedStep(c: Config, net: Net)
    ensures var m := Overlap(c)[4];
            && ManagerEnabled(m, net, StopDone(1, Raised))
            && ManagerStep(c, m, net, StopDone(1, Raised)) == Returned(m, 1)
            && ManagerSends(c, m, net, StopDone(1, Raised)) == net
  {
    hide Granted;
  }

  lemma RaisedFacts(c: Config)
    ensures var m := Returned(Overlap(c)[4], 1);
            Orphan(m, 1) && m.books.fault.None? && !m.books.arb.estop
  {
    assert !Granted(c).estop;
    hide Granted;
  }

  /** A stop service that raises: its token is orphaned, with no fault and no e-stop. */
  lemma RaisedStopLeavesAnOrphan(sys: System) returns (states: seq<State>, events: seq<Event>)
    requires sys.config.Valid()
    ensures Run(sys, states, events) && |events| == 5 && events[4] == AtManager(StopDone(1, Raised))
    ensures Orphan(states[5].mgr, 1) && states[5].mgr.books.fault.None? && !states[5].mgr.books.arb.estop
  {
    var last := State(Returned(Overlap(sys.config)[4], 1), OverlapState(sys, 4).net, Drivers0(sys));
    states := seq(6, k requires 0 <= k < 6 => if k < 5 then OverlapState(sys, k) else last);
    events := seq(5, k requires 0 <= k < 5 => AtManager(if k < 4 then OverlapEvents()[k] else StopDone(1, Raised)));
    StartsInitial(sys);
    RaisedFacts(sys.config);
    assert OverlapState(sys, 0) == State(Start0(), SILENT, Drivers0(sys));
    assert OverlapState(sys, 4) == State(Overlap(sys.config)[4], OverlapState(sys, 4).net, Drivers0(sys));
    RaisedStep(sys.config, OverlapState(sys, 4).net);
    hide ManagerStep, ManagerEnabled, ManagerSends, Overlap, OverlapEvents, OverlapState, Initial, Orphan;
    forall k | 0 <= k < 5
      ensures Enabled(sys, states[k], events[k]) && states[k + 1] == Step(sys, states[k], events[k])
    {
      if k < 4 {
        OverlapStep(sys, k);
      }
    }
  }

  /** The manager through an e-stop with one known servo, whose stop loop raises. */
  function Interrupted(c: Config): seq<Manager> {
    var m1 := Start0().(books := Start0().books.(known := {7}));
    var m2 := m1.(books := EstopRegion(c, m1.books, 0.0), callback := InOperation(1),
                  running := map[1 := Operation(EstopCallback, Announcing)]);
    var m3 := PhaseSet(m2, 1, Stopping).(books := Stamped(m2.books, 0));
    var m4 := PhaseSet(m3, 1, Finishing);
    var m5 := Returned(m4, 1).(books := FinishRegion(c, m4.books, 1, 0.0));
    [Start0(), m1, m2, m3, m4, m5]
  }

  function InterruptedEvents(): seq<ManagerEvent> {
    [ReceiveServoState(7), EstopOn(0.0), Announce(1), StopDone(1, Raised), ManagerEvent.Finish(1, 0.0)]
  }

  lemma InterruptedSteps(c: Config, net: Net, k: nat)
    requires k < 5
    ensures ManagerEnabled(Interrupted(c)[k], net, InterruptedEvents()[k])
    ensures ManagerStep(c, Interrupted(c)[k], net, InterruptedEvents()[k]) == Interrupted(c)[k + 1]
    ensures ManagerSends(c, Interrupted(c)[k], net, InterruptedEvents()[k])
         == (if k == 2 then net.(notices := net.notices + {Notice(true, 2)}) else net)
  {
    hide Remembered, TaskExpired, TeleopExpired, ModeAt;
  }

  function InterruptedState(sys: System, k: nat): State
    requires k <= 5
  {
    State(Interrupted(sys.config)[k],
          if k < 3 then SILENT else SILENT.(notices := SILENT.notices + {Notice(true, 2)}), Drivers0(sys))
  }

  lemma InterruptedStep(sys: System, k: nat)
    requires k < 5
    ensures var s, e := InterruptedState(sys, k), AtManager(InterruptedEvents()[k]);
            Enabled(sys, s, e) && Step(sys, s, e) == InterruptedState(sys, k + 1)
  {
    InterruptedSteps(sys.config, InterruptedState(sys, k).net, k);
    hide ManagerStep, ManagerEnabled, ManagerSends, Interrupted, InterruptedEvents;
  }

  lemma InterruptedEnds(sys: System)
    ensures InterruptedState(sys, 0) == State(Start0(), SILENT, Drivers0(sys))
    ensures var b := InterruptedState(sys, 5).mgr.books; b.active == {} && b.fault.None? && ReleaseMayBegin(b)
  {
    hide Remembered, TaskExpired, TeleopExpired, ModeAt;
  }

  /** An e-stop whose stop loop raises: its token is dropped, no fault is latched, and the e-stop may be lifted. */
  lemma RaisedEstopLeavesNothing(sys: System) returns (states: seq<State>, events: seq<Event>)
    ensures Run(sys, states, events) && |events| == 5 && events[3] == AtManager(StopDone(1, Raised))
    ensures var b := states[5].mgr.books; b.active == {} && b.fault.None? && ReleaseMayBegin(b)
  {
    states := seq(6, k requires 0 <= k < 6 => InterruptedState(sys, k));
    events := seq(5, k requires 0 <= k < 5 => AtManager(InterruptedEvents()[k]));
    StartsInitial(sys);
    InterruptedEnds(sys);
    assert InterruptedEvents()[3] == StopDone(1, Raised);
    hide Enabled, Step, InterruptedState, Initial, ReleaseMayBegin;
    forall k | 0 <= k < 5
      ensures Enabled(sys, states[k], events[k]) && states[k + 1] == Step(sys, states[k], events[k])
    {
      InterruptedStep(sys, k);
    }
  }
}
