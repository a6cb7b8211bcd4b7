/** What every reachable state of the stop protocol satisfies at the manager. */
module StopInvariants {
  import opened Arbitration
  import opened StopRegions
  import opened StopProtocol
  import LeaseRuns

  // ---------------------------------------------------------------- the regions that only ask the arbitrator

  /** Only the arbitrator's leases, clocks and reports differ, not the e-stop, the tokens or the fault. */
  predicate SameStops(a: Books, b: Books) {
    a.arb.estop == b.arb.estop && a.active == b.active && a.nextOp == b.nextOp && a.fault == b.fault
  }

  lemma AskingKeepsStops(c: Config, m: Manager, net: Net, e: ManagerEvent)
    requires ManagerEnabled(m, net, e)
    requires e.ReceiveCommand? || e.ReceiveTaskControl? || e.ReceiveTeleopControl?
    ensures SameStops(m.books, ManagerStep(c, m, net, e).books)
  {
    hide Do, TeleopControl;
    match e
    case ReceiveCommand(source, at, requester, lease, _, _) =>
      LeaseRuns.EstopEffectOnly(
        c, m.books.arb,
        if m.books.active != {} then CommandRefusedCall(source, at) else CommandCall(source, at, requester, lease));
    case ReceiveTaskControl(action, at, id, lease, minted) =>
      LeaseRuns.EstopEffectOnly(
        c, m.books.arb,
        if action == Start && m.books.active != {} then TaskRefusedCall(action, at, id)
        else TaskCall(action, at, id, lease, minted));
    case ReceiveTeleopControl(teleop, at, requester, lease, minted) =>
      LeaseRuns.EstopEffectOnly(c, m.books.arb, TeleopCall(teleop, at, requester, lease, minted));
      assert Do(c, m.books.arb, TeleopCall(teleop, at, requester, lease, minted))
          == TeleopControl(c, m.books.arb, teleop, at, requester, lease, minted) by
      {
        TeleopIsACall(c, m.books.arb, e);
      }
  }

  lemma TeleopIsACall(c: Config, a: Arb, e: ManagerEvent)
    requires e.ReceiveTeleopControl?
    ensures Do(c, a, TeleopCall(e.teleop, e.at, e.requester, e.lease, e.minted))
         == TeleopControl(c, a, e.teleop, e.at, e.requester, e.lease, e.minted)
  {}

  // ---------------------------------------------------------------- the invariant

  /** A token whose operation ended without giving it back. */
  predicate Orphan(m: Manager, op: nat) {
    op in m.books.active && (op !in m.running || m.running[op].phase == FaultAnnouncing)
  }

  predicate TokensAreHeld(m: Manager) {
    && (forall op | op in m.running :: op in m.books.active)
    && (forall op | op in m.books.active :: op < m.books.nextOp)
  }

  predicate CallbackOwnsItsOperation(m: Manager) {
    forall op | op in m.running && m.running[op].origin != StopService :: m.callback == InOperation(op)
  }

  /** While an e-stop release is in flight its own token is the only one, the e-stop is on and nothing has failed. */
  predicate ReleaseIsAlone(m: Manager) {
    forall op | op in m.running && m.running[op].origin == ReleaseCallback && m.running[op].phase != FaultAnnouncing ::
      && m.books.active == {op} && m.books.arb.estop && m.books.fault.None?
      && m.running[op].phase != Announcing && m.running[op].phase != Stopping && m.running[op].phase != Finishing
  }

  ghost predicate FaultHolds(m: Manager) {
    && (m.books.fault.Some? ==> m.books.arb.estop && exists op :: Orphan(m, op))
    && (forall op | op in m.running && m.running[op].phase == FaultAnnouncing :: m.books.fault.Some?)
  }

  predicate StampsAreAcknowledged(m: Manager, net: Net) {
    forall op | op in m.running && m.running[op].phase.Releasing? :: (m.running[op].phase.stamp, true) in net.replies
  }

  ghost predicate ManagerInv(m: Manager, net: Net) {
    && TokensAreHeld(m) && CallbackOwnsItsOperation(m) && ReleaseIsAlone(m) && FaultHolds(m)
    && StampsAreAcknowledged(m, net)
  }

  /** The fault survives any step that keeps orphans orphaned. */
  lemma FaultStaysHeld(m: Manager, m': Manager)
    requires FaultHolds(m)
    requires m'.books.fault == m.books.fault && (m.books.arb.estop && m.books.fault.Some? ==> m'.books.arb.estop)
    requires forall op | Orphan(m, op) :: Orphan(m', op)
    requires forall op | op in m'.running && m'.running[op].phase == FaultAnnouncing ::
               op in m.running && m.running[op].phase == FaultAnnouncing
    ensures FaultHolds(m')
  {
    if m.books.fault.Some? {
      var op :| Orphan(m, op);
      assert Orphan(m', op);
    }
  }

  lemma AskingKeepsInv(c: Config, m: Manager, net: Net, e: ManagerEvent)
    requires ManagerEnabled(m, net, e) && ManagerInv(m, net)
    requires || e.Tick? || e.ReceiveCommand? || e.ReceiveTaskControl? || e.ReceiveTeleopControl?
             || e.ReceiveServoState? || e.Look?
    ensures ManagerInv(ManagerStep(c, m, net, e), net)
  {
    hide Do, TeleopControl;
    if e.ReceiveCommand? || e.ReceiveTaskControl? || e.ReceiveTeleopControl? {
      AskingKeepsStops(c, m, net, e);
    }
    FaultStaysHeld(m, ManagerStep(c, m, net, e));
  }

  lemma BeginningKeepsInv(c: Config, m: Manager, net: Net, e: ManagerEvent)
    requires ManagerEnabled(m, net, e) && ManagerInv(m, net)
    requires e.EstopOn? || e.EstopAnnounce? || e.EstopOff? || e.StopRequest?
    ensures ManagerInv(ManagerStep(c, m, net, e), net)
  {
    hide Do, Refreshed, TaskExpired, Remembered, LeaseRefusal;
    FaultStaysHeld(m, ManagerStep(c, m, net, e));
  }

  lemma AdvancingKeepsInv(c: Config, m: Manager, net: Net, e: ManagerEvent)
    requires ManagerEnabled(m, net, e) && ManagerInv(m, net)
    requires e.Announce?
    ensures ManagerInv(ManagerStep(c, m, net, e), net)
  {
    hide Do, Refreshed;
    FaultStaysHeld(m, ManagerStep(c, m, net, e));
  }

  lemma StoppingKeepsInv(c: Config, m: Manager, net: Net, e: ManagerEvent)
    requires ManagerEnabled(m, net, e) && ManagerInv(m, net)
    requires e.StopDone?
    ensures ManagerInv(ManagerStep(c, m, net, e), net)
  {
    hide Do, Refreshed;
    FaultStaysHeld(m, ManagerStep(c, m, net, e));
  }

  lemma RequestingKeepsInv(c: Config, m: Manager, net: Net, e: ManagerEvent)
    requires ManagerEnabled(m, net, e) && ManagerInv(m, net)
    requires e.RequestRelease? || e.ReleaseAnswered?
    ensures ManagerInv(ManagerStep(c, m, net, e), net)
  {
    hide Do, Refreshed;
    FaultStaysHeld(m, ManagerStep(c, m, net, e));
  }

  lemma FinishingKeepsInv(c: Config, m: Manager, net: Net, e: ManagerEvent)
    requires ManagerEnabled(m, net, e) && ManagerInv(m, net) && e.Finish?
    ensures ManagerInv(ManagerStep(c, m, net, e), net)
  {
    hide Do, Refreshed;
    FaultStaysHeld(m, ManagerStep(c, m, net, e));
  }

  lemma EndingKeepsInv(c: Config, m: Manager, net: Net, e: ManagerEvent)
    requires ManagerEnabled(m, net, e) && ManagerInv(m, net) && (e.Release? || e.LatchFault? || e.AnnounceFault?)
    ensures ManagerInv(ManagerStep(c, m, net, e), net)
  {
    hide Do, Refreshed, TaskExpired, Remembered;
    var m' := ManagerStep(c, m, net, e);
    if e.LatchFault? {
      assert Orphan(m', e.op);
    } else {
      FaultStaysHeld(m, m');
    }
  }

  lemma ManagerKeepsInv(c: Config, m: Manager, net: Net, e: ManagerEvent)
    requires ManagerEnabled(m, net, e) && ManagerInv(m, net)
    ensures ManagerInv(ManagerStep(c, m, net, e), ManagerSends(c, m, net, e))
  {
    hide Do, ManagerStep;
    if e.EstopOn? || e.EstopAnnounce? || e.EstopOff? || e.StopRequest? {
      BeginningKeepsInv(c, m, net, e);
    } else if e.Announce? {
      AdvancingKeepsInv(c, m, net, e);
    } else if e.StopDone? {
      StoppingKeepsInv(c, m, net, e);
    } else if e.RequestRelease? || e.ReleaseAnswered? {
      RequestingKeepsInv(c, m, net, e);
    } else if e.Finish? {
      FinishingKeepsInv(c, m, net, e);
    } else if e.Release? || e.LatchFault? || e.AnnounceFault? {
      EndingKeepsInv(c, m, net, e);
    } else {
      AskingKeepsInv(c, m, net, e);
    }
  }

  lemma {:induction false} RunKeepsInv(sys: System, states: seq<State>, events: seq<Event>, k: nat)
    requires Run(sys, states, events) && k < |states|
    ensures ManagerInv(states[k].mgr, states[k].net)
  {
    hide ManagerStep, DriverStep;
    if k > 0 {
      RunKeepsInv(sys, states, events, k - 1);
      var e := events[k - 1];
      if e.AtManager? {
        ManagerKeepsInv(sys.config, states[k - 1].mgr, states[k - 1].net, e.m);
      }
    }
  }
}
