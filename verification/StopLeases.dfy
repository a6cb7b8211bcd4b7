/** The arbitrator inside the stop protocol: every run of the manager is a run of arbitrator calls, so all that holds of
    leases over calls holds of the moves the manager publishes. */
module StopLeases {
  import opened Arbitration
  import opened LeaseRuns
  import opened StopProtocol
  import opened StopTheorems

  /** The arbitrator calls that a manager event makes. */
  function CallsOf(m: Manager, e: ManagerEvent): seq<Call> {
    match e
    case ReceiveCommand(source, at, requester, lease, _, _) =>
      [if m.books.active != {} then CommandRefusedCall(source, at) else CommandCall(source, at, requester, lease)]
    case ReceiveTaskControl(action, at, id, lease, minted) =>
      [if action == Start && m.books.active != {} then TaskRefusedCall(action, at, id)
       else TaskCall(action, at, id, lease, minted)]
    case ReceiveTeleopControl(teleop, at, requester, lease, minted) =>
      [TeleopCall(teleop, at, requester, lease, minted)]
    case Look(at) => [TickCall(at)]
    case EstopOn(at) => [EstopCall(true, at)]
    case EstopOff(at) => [TickCall(at)]
    case StopRequest(at, id, lease) => [ValidateCall(at, id, lease)]
    case Finish(_, at) => [TickCall(at)]
    case Release(op, at) =>
      [if op in m.running && m.running[op].origin == ReleaseCallback then EstopCall(false, at) else TickCall(at)]
    case LatchFault(op, at) => if op in m.books.active then [EstopCall(true, at)] else []
    case _ => []
  }

  /** What one call, or none, makes of the arbitrator. */
  function AfterCalls(c: Config, a: Arb, calls: seq<Call>): Arb
    requires |calls| <= 1
  {
    if calls == [] then a else Do(c, a, calls[0]).0
  }

  lemma RegionsCallTheArbitrator(c: Config, m: Manager, net: Net, e: ManagerEvent)
    requires ManagerEnabled(m, net, e)
    ensures ManagerStep(c, m, net, e).books.arb == AfterCalls(c, m.books.arb, CallsOf(m, e))
  {
    hide Refreshed, TaskExpired, Remembered, Command, TaskControl, TeleopControl, Validation, EstopSet;
  }

  /** The arbitrator calls of the first `k` events, in order. */
  function CallsBefore(states: seq<State>, events: seq<Event>, k: nat): seq<Call>
    requires k <= |events| <= |states|
  {
    if k == 0 then []
    else CallsBefore(states, events, k - 1)
         + (if events[k - 1].AtManager? then CallsOf(states[k - 1].mgr, events[k - 1].m) else [])
  }

  lemma AfterMoreCalls(c: Config, calls: seq<Call>, more: seq<Call>)
    requires |more| <= 1
    ensures After(c, calls + more) == AfterCalls(c, After(c, calls), more)
  {
    hide Do;
    if more == [] {
      assert calls + more == calls;
    } else {
      assert (calls + more)[..|calls + more| - 1] == calls;
    }
  }

  /** In every state of every run the arbitrator is what the calls made so far make of the initial one. */
  lemma {:induction false} ArbitratorOfARun(sys: System, states: seq<State>, events: seq<Event>, k: nat)
    requires Run(sys, states, events) && k < |states|
    ensures states[k].mgr.books.arb == After(sys.config, CallsBefore(states, events, k))
  {
    hide ManagerStep, DriverStep, CallsOf, Do, AfterCalls;
    if k > 0 {
      ArbitratorOfARun(sys, states, events, k - 1);
      var before := CallsBefore(states, events, k - 1);
      if events[k - 1].AtManager? {
        AtMostOneCall(states[k - 1].mgr, events[k - 1].m);
        RegionsCallTheArbitrator(sys.config, states[k - 1].mgr, states[k - 1].net, events[k - 1].m);
        AfterMoreCalls(sys.config, before, CallsOf(states[k - 1].mgr, events[k - 1].m));
      } else {
        assert before + [] == before;
      }
    }
  }

  lemma AtMostOneCall(m: Manager, e: ManagerEvent)
    ensures |CallsOf(m, e)| <= 1
  {}

  /** A move published for a task command carries the lease minted by the most recent fresh start among the calls of the
      run, names its task, nothing ended that lease, and no gap between its renewals exceeded the timeout. */
  lemma PublishedTaskMoveHoldsItsLease(sys: System, states: seq<State>, events: seq<Event>, k: nat, move: Move)
    returns (i: nat)
    requires sys.config.Valid() && Run(sys, states, events) && k < |events|
    requires PublishesMove(sys, states[k], events[k], move) && events[k].m.source == Task
    ensures var calls, j := CallsBefore(states, events, k + 1), |CallsBefore(states, events, k)|;
            && i < j < |calls| && Lease(sys.config, calls, i, j) && InTime(sys.config, calls, i, j)
            && events[k].m.lease == calls[i].minted != "" && events[k].m.requester == calls[i].id.task
  {
    var c, e, before := sys.config, events[k].m, CallsBefore(states, events, k);
    var call := CommandCall(Task, e.at, e.requester, e.lease);
    MovesNeedAQuietManager(c, states[k].mgr, e);
    ArbitratorOfARun(sys, states, events, k);
    PublishedMeansAccepted(c, states[k].mgr, e);
    var calls := CallsBefore(states, events, k + 1);
    assert calls == before + [call] && calls[..|before|] == before;
    hide Do, Command, CallsBefore, CallsOf, ManagerStep, DriverStep;
    assert Verdict(c, calls, |before|) == Accepted;
    TaskCommandAcceptance(c, calls, |before|);
    i :| 0 <= i < |before| && Lease(c, calls, i, |before|) && InTime(c, calls, i, |before|)
         && calls[|before|].lease == calls[i].minted != "" && calls[|before|].requester == calls[i].id.task;
  }

  lemma PublishedMeansAccepted(c: Config, m: Manager, e: ManagerEvent)
    requires MoveOf(c, m, e).Some? && m.books.active == {}
    ensures Do(c, m.books.arb, CommandCall(e.source, e.at, e.requester, e.lease)).1 == Accepted
  {
    hide Command;
  }

  /** While a task lease lasts, the manager publishes no move for teleop or motion. */
  lemma TaskLeaseKeepsOthersOut(sys: System, states: seq<State>, events: seq<Event>, k: nat, i: nat)
    requires sys.config.Valid() && Run(sys, states, events) && k < |events| && events[k].AtManager?
    requires events[k].m.ReceiveCommand? && events[k].m.source != Task
    ensures var calls, j := CallsBefore(states, events, k + 1), |CallsBefore(states, events, k)|;
            i < j < |calls| && Lease(sys.config, calls, i, j) && InTime(sys.config, calls, i, j) ==>
              MoveOf(sys.config, states[k].mgr, events[k].m).None?
  {
    var c, e, before := sys.config, events[k].m, CallsBefore(states, events, k);
    var after := CallsBefore(states, events, k + 1);
    if i < |before| < |after| && Lease(c, after, i, |before|) && InTime(c, after, i, |before|)
      && MoveOf(c, states[k].mgr, e).Some?
    {
      MovesNeedAQuietManager(c, states[k].mgr, e);
      ArbitratorOfARun(sys, states, events, k);
      PublishedMeansAccepted(c, states[k].mgr, e);
      assert after == before + [CommandCall(e.source, e.at, e.requester, e.lease)] && after[..|before|] == before;
      hide Do, Command, CallsBefore, CallsOf, ManagerStep, DriverStep;
      assert Verdict(c, after, |before|) == Accepted;
      TaskLeaseIsExclusive(c, after, i, |before|);
    }
  }
}
