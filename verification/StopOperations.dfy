/** The life of a stop operation: when one begins, which phases it goes through, and that what it asks of the drivers
    comes in the right order. */
module StopOperations {
  import opened Options
  import opened Arbitration
  import opened LeaseRuns
  import opened TeleopRuns
  import opened StopRegions
  import opened StopProtocol
  import opened StopInvariants
  import opened StopLeases
  import opened StopDeliveries

  // ---------------------------------------------------------------- beginnings and ends

  /** Once its stop is written, an operation drops its token exactly when something else is being stopped, a fault is
      latched or the e-stop is in force; otherwise it keeps the token and goes on to ask for a release. */
  lemma FinishDropsExactlyWhen(sys: System, states: seq<State>, events: seq<Event>, k: nat)
    requires sys.config.Valid() && Run(sys, states, events) && k < |events|
    requires events[k].AtManager? && events[k].m.Finish?
    ensures var (op, b, b', running') :=
              (events[k].m.op, states[k].mgr.books, states[k + 1].mgr.books, states[k + 1].mgr.running);
            if (exists t :: t in b.active && t != op) || b.fault.Some?
               || EstopInForce(CallsBefore(states, events, k), |CallsBefore(states, events, k)|)
            then b'.active == b.active - {op} && op !in running'
            else b'.active == b.active && op in running' && running'[op].phase == Requesting
  {
    var calls := CallsBefore(states, events, k);
    ArbitratorOfARun(sys, states, events, k);
    EstopIsTheLastCall(sys.config, calls, |calls|);
    assert calls[..|calls|] == calls;
    hide TaskExpired, TeleopExpired, Remembered, DriverStep, CallsBefore, After, EstopInForce;
    OthersRemain(states[k].mgr.books.active, events[k].m.op);
  }

  lemma OthersRemain(active: set<nat>, op: nat)
    ensures active - {op} != {} <==> exists t :: t in active && t != op
  {
    if t :| t in active && t != op {
      assert t in active - {op};
    }
  }

  /** A stop service call begins its stop exactly when it names the identity of the lease in force and carries that
      lease; otherwise it changes neither tokens nor operations. */
  lemma StopServiceBeginsExactlyWhen(sys: System, states: seq<State>, events: seq<Event>, k: nat)
    requires sys.config.Valid() && Run(sys, states, events) && k < |events|
    requires events[k].AtManager? && events[k].m.StopRequest?
    ensures var (c, e, j) := (sys.config, events[k].m, |CallsBefore(states, events, k)|);
            var (m, m', calls) := (states[k].mgr, states[k + 1].mgr, CallsBefore(states, events, k + 1));
            && j < |calls|
            && if exists i :: 0 <= i < j && Lease(c, calls, i, j) && InTime(c, calls, i, j)
                         && e.id == calls[i].id && e.lease == calls[i].minted != ""
               then
                 && m'.books.active == m.books.active + {m.books.nextOp}
                 && m'.running == m.running[m.books.nextOp := Operation(StopService, Announcing)]
               else m'.books.active == m.books.active && m'.running == m.running
  {
    var c, e, before := sys.config, events[k].m, CallsBefore(states, events, k);
    var call := ValidateCall(e.at, e.id, e.lease);
    var calls := CallsBefore(states, events, k + 1);
    ArbitratorOfARun(sys, states, events, k);
    assert calls == before + [call] && calls[..|before|] == before;
    var verdict := Do(c, states[k].mgr.books.arb, call).1;
    assert verdict == BeginStopRegion(c, states[k].mgr.books, e.at, e.id, e.lease).1;
    StopServiceStep(c, states[k].mgr, states[k].net, e);
    hide Do, CallsBefore, CallsOf, ManagerStep, DriverStep, After, BeginStopRegion;
    assert Verdict(c, calls, |before|) == verdict;
    LeaseUseAcceptance(c, calls, |before|);
  }

  lemma StopServiceStep(c: Config, m: Manager, net: Net, e: ManagerEvent)
    requires ManagerEnabled(m, net, e) && e.StopRequest?
    ensures var m' := ManagerStep(c, m, net, e);
            if BeginStopRegion(c, m.books, e.at, e.id, e.lease).1 == Accepted
            then && m'.books.active == m.books.active + {m.books.nextOp}
                 && m'.running == m.running[m.books.nextOp := Operation(StopService, Announcing)]
            else m'.books.active == m.books.active && m'.running == m.running
  {
    hide Validation;
  }

  /** An e-stop is in force at once, and is announced: by an operation of its own when there are servos to stop. */
  lemma EstopTakesEffect(sys: System, states: seq<State>, events: seq<Event>, k: nat)
    requires sys.config.Valid() && Run(sys, states, events) && k < |events|
    requires events[k].AtManager? && events[k].m.EstopOn?
    ensures var (m, m') := (states[k].mgr, states[k + 1].mgr);
            && m'.books.arb.estop
            && if m.books.known == {} then m'.callback == AnnouncingEstop && m'.running == m.running
               else
                 && m'.books.active == m.books.active + {m.books.nextOp}
                 && m'.running == m.running[m.books.nextOp := Operation(EstopCallback, Announcing)]
  {
    hide Refreshed, TaskExpired, TaskStopped, Remembered, DriverStep;
  }

  // ---------------------------------------------------------------- the order of its phases

  /** Which phase may follow which, and by which event. */
  predicate MayFollow(before: Phase, after: Phase, e: ManagerEvent, op: nat) {
    match before
    case Announcing => e == Announce(op) && after == Stopping
    case Stopping =>
      && e.StopDone? && e.op == op
      && after == (match e.outcome
                   case NotSent(timedOut) => Faulting(if timedOut then StopTimeout else StopFailed)
                   case _ => Finishing)
    case Finishing => e.Finish? && e.op == op && after == Requesting
    case Requesting => e.RequestRelease? && e.op == op && (after.Awaiting? || after == Faulting(ReleaseUnavailable))
    case Awaiting(stamp) =>
      && e.ReleaseAnswered? && e.op == op
      && after == (match e.answer
                   case Acknowledged => Releasing(stamp)
                   case Refused => Faulting(ReleaseFailed)
                   case TimedOut => Faulting(ReleaseTimeout))
    case Faulting(_) => e.LatchFault? && e.op == op && after == FaultAnnouncing
    case _ => false
  }

  lemma NextPhase(c: Config, m: Manager, net: Net, e: ManagerEvent, op: nat)
    requires ManagerEnabled(m, net, e) && ManagerInv(m, net)
    requires op in m.running && op in ManagerStep(c, m, net, e).running
    ensures var before, after := m.running[op], ManagerStep(c, m, net, e).running[op];
            && after.origin == before.origin
            && (after.phase == before.phase || MayFollow(before.phase, after.phase, e, op))
  {
    hide Do, TeleopControl, Refreshed, TaskExpired, Remembered, LeaseRefusal, EstopSet, Validation, FaultHolds,
      ReleaseIsAlone;
  }

  /** A stop service is on its way to a release. */
  predicate IsPastItsStop(m: Manager, op: nat) {
    && op in m.running && m.running[op].origin == StopService
    && match m.running[op].phase
       case Finishing => true
       case Requesting => true
       case Awaiting(_) => true
       case Releasing(_) => true
       case _ => false
  }

  predicate IsStopping(m: Manager, op: nat) {
    op in m.running && m.running[op] == Operation(StopService, Stopping)
  }

  lemma PhaseComesFrom(sys: System, states: seq<State>, events: seq<Event>, k: nat, op: nat)
    requires Run(sys, states, events) && k < |events|
    ensures IsStopping(states[k + 1].mgr, op) ==>
              IsStopping(states[k].mgr, op) || events[k] == AtManager(Announce(op))
    ensures IsPastItsStop(states[k + 1].mgr, op) ==>
              || IsPastItsStop(states[k].mgr, op)
              || (IsStopping(states[k].mgr, op) && events[k] == AtManager(StopDone(op, Sent)))
  {
    hide ManagerStep, DriverStep, ManagerSends, DriverSends;
    RunKeepsInv(sys, states, events, k);
    if events[k].AtManager? && op in states[k + 1].mgr.running {
      var m, net, e := states[k].mgr, states[k].net, events[k].m;
      if op in m.running {
        NextPhase(sys.config, m, net, e, op);
        RaisedStopEnds(sys.config, m, net, e, op);
      } else {
        NewOperationBegins(sys.config, m, net, e, op);
      }
    }
  }

  lemma RaisedStopEnds(c: Config, m: Manager, net: Net, e: ManagerEvent, op: nat)
    requires ManagerEnabled(m, net, e)
    ensures e == StopDone(op, Raised) && IsStopping(m, op) ==> op !in ManagerStep(c, m, net, e).running
  {}

  /** A stop service asks for a release only after it announced its stop and then wrote it to the drivers. */
  lemma {:induction false} StopIsWrittenBeforeItsRelease(
      sys: System, states: seq<State>, events: seq<Event>, k: nat, op: nat) returns (p: nat, q: nat)
    requires Run(sys, states, events) && k < |states| && IsPastItsStop(states[k].mgr, op)
    ensures p < q < k && events[p] == AtManager(Announce(op)) && events[q] == AtManager(StopDone(op, Sent))
  {
    hide IsPastItsStop, IsStopping, Step;
    NothingRunsAtFirst(sys, states[0], op);
    PhaseComesFrom(sys, states, events, k - 1, op);
    if IsPastItsStop(states[k - 1].mgr, op) {
      p, q := StopIsWrittenBeforeItsRelease(sys, states, events, k - 1, op);
    } else {
      p := AnnouncedBeforeStopping(sys, states, events, k - 1, op);
      q := k - 1;
    }
  }

  lemma NothingRunsAtFirst(sys: System, s: State, op: nat)
    requires Initial(sys, s)
    ensures !IsPastItsStop(s.mgr, op) && !IsStopping(s.mgr, op)
  {}

  lemma {:induction false} AnnouncedBeforeStopping(
      sys: System, states: seq<State>, events: seq<Event>, k: nat, op: nat) returns (p: nat)
    requires Run(sys, states, events) && k < |states| && IsStopping(states[k].mgr, op)
    ensures p < k && events[p] == AtManager(Announce(op))
  {
    hide IsPastItsStop, IsStopping, Step;
    NothingRunsAtFirst(sys, states[0], op);
    PhaseComesFrom(sys, states, events, k - 1, op);
    if IsStopping(states[k - 1].mgr, op) {
      p := AnnouncedBeforeStopping(sys, states, events, k - 1, op);
    } else {
      p := k - 1;
    }
  }
}
