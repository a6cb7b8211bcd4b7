/** What a stop that was not written leads to: it latches a fault exactly when its driver calls came back
    unsuccessful. A stop that ends in an exception latches none; the stop service then loses its token for good, and
    the e-stop callback drops its token as if the stop had been written. */
module StopFailures {
  import opened Arbitration
  import opened StopProtocol
  import opened StopInvariants
  import opened StopTheorems

  // ---------------------------------------------------------------- one step

  /** The events by which an operation moves on or ends. */
  predicate EndsSomething(e: ManagerEvent) {
    e.StopDone? || e.Finish? || e.Release? || e.LatchFault? || e.AnnounceFault?
  }

  lemma EndingsMakeOrphans(c: Config, m: Manager, net: Net, e: ManagerEvent, op: nat)
    requires ManagerEnabled(m, net, e) && ManagerInv(m, net) && !Orphan(m, op) && EndsSomething(e)
    ensures Orphan(ManagerStep(c, m, net, e), op) <==>
              || (e.LatchFault? && e.op == op)
              || (e == StopDone(op, Raised) && m.running[op].origin == StopService)
  {
    hide Refreshed, TaskExpired, Remembered, CallbackOwnsItsOperation, ReleaseIsAlone, FaultHolds, EstopSet;
  }

  lemma OthersMakeNoOrphans(c: Config, m: Manager, net: Net, e: ManagerEvent, op: nat)
    requires ManagerEnabled(m, net, e) && ManagerInv(m, net) && !Orphan(m, op) && !EndsSomething(e)
    ensures !Orphan(ManagerStep(c, m, net, e), op)
  {
    if e.ReceiveCommand? || e.ReceiveTaskControl? || e.ReceiveTeleopControl? {
      AskingKeepsStops(c, m, net, e);
    }
    hide Do, TeleopControl, Refreshed, TaskExpired, Remembered, LeaseRefusal, CallbackOwnsItsOperation, ReleaseIsAlone,
      FaultHolds, EstopSet;
  }

  /** A token is orphaned exactly by latching a fault, or by an exception in a stop service. */
  lemma OrphanAppearsExactlyWhen(c: Config, m: Manager, net: Net, e: ManagerEvent, op: nat)
    requires ManagerEnabled(m, net, e) && ManagerInv(m, net) && !Orphan(m, op)
    ensures Orphan(ManagerStep(c, m, net, e), op) <==>
              || (e.LatchFault? && e.op == op)
              || (e == StopDone(op, Raised) && m.running[op].origin == StopService)
  {
    if EndsSomething(e) {
      EndingsMakeOrphans(c, m, net, e, op);
    } else {
      OthersMakeNoOrphans(c, m, net, e, op);
    }
    hide ManagerStep, Orphan;
  }

  /** A fault is latched by the latching region and by nothing else. */
  lemma FaultAppearsExactlyWhen(c: Config, m: Manager, net: Net, e: ManagerEvent)
    requires ManagerEnabled(m, net, e) && ManagerInv(m, net) && m.books.fault.None?
    ensures ManagerStep(c, m, net, e).books.fault.Some? <==> e.LatchFault?
  {
    if e.ReceiveCommand? || e.ReceiveTaskControl? || e.ReceiveTeleopControl? {
      AskingKeepsStops(c, m, net, e);
    }
    hide Do, TeleopControl, Refreshed, TaskExpired, Remembered, LeaseRefusal;
  }

  predicate IsFaulting(m: Manager, op: nat) {
    op in m.running && m.running[op].phase.Faulting?
  }

  /** The outcome of the stop decides at once whether a fault is to be latched. */
  lemma StopIsJudgedByItsOutcome(c: Config, m: Manager, net: Net, op: nat, outcome: StopOutcome)
    requires ManagerEnabled(m, net, StopDone(op, outcome))
    ensures var m' := ManagerStep(c, m, net, StopDone(op, outcome));
            && (IsFaulting(m', op) <==> outcome.NotSent?)
            && m'.books == m.books
            && (outcome == Raised && m.running[op].origin == StopService ==> op !in m'.running)
            && (outcome == Raised && m.running[op].origin != StopService ==> In(m', op, Finishing))
  {}

  /** An operation that is about to latch its fault does nothing else before. */
  lemma FaultingStays(c: Config, m: Manager, net: Net, e: ManagerEvent, op: nat)
    requires ManagerEnabled(m, net, e) && ManagerInv(m, net) && IsFaulting(m, op)
    ensures var m' := ManagerStep(c, m, net, e);
            if e.LatchFault? && e.op == op then Orphan(m', op) && m'.books.fault.Some? else IsFaulting(m', op)
  {
    if e.ReceiveCommand? || e.ReceiveTaskControl? || e.ReceiveTeleopControl? {
      AskingKeepsStops(c, m, net, e);
    }
    hide Do, TeleopControl, Refreshed, TaskExpired, Remembered, LeaseRefusal;
  }

  // ---------------------------------------------------------------- the e-stop's own operation

  /** While the e-stop callback stops the actuators, the e-stop is on. */
  predicate EstopCallbackHoldsEstop(m: Manager) {
    forall op | op in m.running && m.running[op].origin == EstopCallback :: m.books.arb.estop
  }

  lemma StepKeepsEstopHeld(c: Config, m: Manager, net: Net, e: ManagerEvent)
    requires ManagerEnabled(m, net, e) && ManagerInv(m, net) && EstopCallbackHoldsEstop(m)
    ensures EstopCallbackHoldsEstop(ManagerStep(c, m, net, e))
  {
    var m' := ManagerStep(c, m, net, e);
    if m.books.arb.estop {
      EstopGoesExactlyWhen(c, m, net, e);
    }
    if e.ReceiveCommand? || e.ReceiveTaskControl? || e.ReceiveTeleopControl? {
      AskingKeepsStops(c, m, net, e);
    }
    hide Do, TeleopControl, Refreshed, TaskExpired, Remembered, LeaseRefusal;
  }

  lemma {:induction false} EstopStaysHeld(sys: System, states: seq<State>, events: seq<Event>, k: nat)
    requires Run(sys, states, events) && k < |states|
    ensures EstopCallbackHoldsEstop(states[k].mgr)
  {
    hide ManagerStep, DriverStep, EstopCallbackHoldsEstop;
    if k == 0 {
      NothingRunsAtFirst(sys, states, events);
    } else {
      EstopStaysHeld(sys, states, events, k - 1);
      RunKeepsInv(sys, states, events, k - 1);
      if events[k - 1].AtManager? {
        StepKeepsEstopHeld(sys.config, states[k - 1].mgr, states[k - 1].net, events[k - 1].m);
      }
    }
  }

  lemma NothingRunsAtFirst(sys: System, states: seq<State>, events: seq<Event>)
    requires Run(sys, states, events)
    ensures EstopCallbackHoldsEstop(states[0].mgr)
  {}

  /** The e-stop callback's own operation never asks the drivers to release: its token is dropped under the e-stop. */
  lemma EstopTokenIsDropped(sys: System, states: seq<State>, events: seq<Event>, k: nat, op: nat)
    requires Run(sys, states, events) && k < |events| && events[k].AtManager?
    requires events[k].m.Finish? && events[k].m.op == op && states[k].mgr.running[op].origin == EstopCallback
    ensures DropsQuietly(sys.config, states[k].mgr, events[k].m, op)
    ensures op !in states[k + 1].mgr.running && op !in states[k + 1].mgr.books.active
    ensures states[k + 1].mgr.books.fault == states[k].mgr.books.fault && states[k + 1].mgr.books.arb.estop
  {
    EstopStaysHeld(sys, states, events, k);
    hide TaskExpired, Remembered;
  }

  // ---------------------------------------------------------------- over runs

  /** The operation latched its fault at some event from `k` on and before `j`. */
  predicate Latches(events: seq<Event>, k: nat, j: nat, op: nat)
    requires j <= |events|
  {
    exists l :: k <= l < j && IsLatching(events[l], op)
  }

  predicate IsLatching(e: Event, op: nat) {
    e.AtManager? && e.m.LatchFault? && e.m.op == op
  }

  /** A stop whose driver calls came back unsuccessful latches its fault next, and keeps token, fault and e-stop. */
  lemma {:induction false} UnsuccessfulStopLatches(
      sys: System, states: seq<State>, events: seq<Event>, k: nat, j: nat, op: nat)
    requires Run(sys, states, events) && k <= j < |states| && IsFaulting(states[k].mgr, op)
    ensures if Latches(events, k, j, op)
            then Orphan(states[j].mgr, op) && states[j].mgr.books.fault.Some? && states[j].mgr.books.arb.estop
            else IsFaulting(states[j].mgr, op)
    decreases j
  {
    hide ManagerStep, DriverStep, IsFaulting, Orphan;
    if k < j {
      UnsuccessfulStopLatches(sys, states, events, k, j - 1, op);
      RunKeepsInv(sys, states, events, j - 1);
      var e := events[j - 1];
      var m, net := states[j - 1].mgr, states[j - 1].net;
      if e.AtManager? {
        if Latches(events, k, j - 1, op) {
          OrphanStays(sys.config, m, net, e.m, op);
        } else {
          FaultingStays(sys.config, m, net, e.m, op);
        }
      }
      RunKeepsInv(sys, states, events, j);
      if IsLatching(e, op) {
        assert Latches(events, k, j, op);
      }
    }
  }

  /** An operation that is over latches nothing any more, and does not come back. */
  lemma {:induction false} EndedOperationLatchesNothing(
      sys: System, states: seq<State>, events: seq<Event>, k: nat, j: nat, op: nat)
    requires Run(sys, states, events) && k <= j < |states|
    requires op !in states[k].mgr.running && op < states[k].mgr.books.nextOp
    ensures !Latches(events, k, j, op) && op !in states[j].mgr.running && op < states[j].mgr.books.nextOp
    decreases j
  {
    hide ManagerStep, DriverStep;
    if k < j {
      EndedOperationLatchesNothing(sys, states, events, k, j - 1, op);
      RunKeepsInv(sys, states, events, j - 1);
      if events[j - 1].AtManager? {
        EndedOperationStaysEnded(sys.config, states[j - 1].mgr, states[j - 1].net, events[j - 1].m, op);
      }
    }
  }

  lemma EndedOperationStaysEnded(c: Config, m: Manager, net: Net, e: ManagerEvent, op: nat)
    requires ManagerEnabled(m, net, e) && ManagerInv(m, net) && op !in m.running && op < m.books.nextOp
    ensures op !in ManagerStep(c, m, net, e).running && op < ManagerStep(c, m, net, e).books.nextOp
    ensures !(e.LatchFault? && e.op == op)
  {
    if e.ReceiveCommand? || e.ReceiveTaskControl? || e.ReceiveTeleopControl? {
      AskingKeepsStops(c, m, net, e);
    }
    hide Do, TeleopControl, Refreshed, TaskExpired, Remembered, LeaseRefusal;
  }

  /** The e-stop's own operation is about to finish, or it is over and its token dropped. */
  predicate EstopIsFinishing(m: Manager, op: nat) {
    || (In(m, op, Finishing) && m.running[op].origin == EstopCallback)
    || (op !in m.running && op !in m.books.active && op < m.books.nextOp)
  }

  /** An exception in the stop loop of the e-stop callback: its operation goes on as if the stop had been written, and
      ends with its token dropped.  It never latches a fault. */
  lemma {:induction false} RaisedEstopIsDropped(
      sys: System, states: seq<State>, events: seq<Event>, k: nat, j: nat, op: nat)
    requires Run(sys, states, events) && k <= j < |states|
    requires In(states[k].mgr, op, Finishing) && states[k].mgr.running[op].origin == EstopCallback
    ensures !Latches(events, k, j, op) && EstopIsFinishing(states[j].mgr, op)
    decreases j
  {
    hide ManagerStep, DriverStep;
    if k < j {
      RaisedEstopIsDropped(sys, states, events, k, j - 1, op);
      FinishingGoesOn(sys, states, events, j - 1, op);
      hide EstopIsFinishing, Enabled;
    }
  }

  lemma FinishingGoesOn(sys: System, states: seq<State>, events: seq<Event>, k: nat, op: nat)
    requires Run(sys, states, events) && k < |events| && EstopIsFinishing(states[k].mgr, op)
    ensures EstopIsFinishing(states[k + 1].mgr, op) && !IsLatching(events[k], op)
  {
    hide ManagerStep, DriverStep;
    RunKeepsInv(sys, states, events, k);
    if events[k].AtManager? {
      var m, net, e := states[k].mgr, states[k].net, events[k].m;
      if op !in m.running {
        EndedOperationStaysEnded(sys.config, m, net, e, op);
        DroppedTokenStaysDropped(sys.config, m, net, e, op);
      } else if e.Finish? && e.op == op {
        EstopTokenIsDropped(sys, states, events, k, op);
        NumbersOnlyGrow(sys.config, m, net, e);
      } else {
        FinishingWaits(sys.config, m, net, e, op);
      }
    }
  }

  lemma DroppedTokenStaysDropped(c: Config, m: Manager, net: Net, e: ManagerEvent, op: nat)
    requires ManagerEnabled(m, net, e) && ManagerInv(m, net) && op !in m.books.active && op < m.books.nextOp
    ensures op !in ManagerStep(c, m, net, e).books.active
  {
    if e.ReceiveCommand? || e.ReceiveTaskControl? || e.ReceiveTeleopControl? {
      AskingKeepsStops(c, m, net, e);
    }
    hide Do, TeleopControl, Refreshed, TaskExpired, Remembered, LeaseRefusal;
  }

  lemma NumbersOnlyGrow(c: Config, m: Manager, net: Net, e: ManagerEvent)
    requires ManagerEnabled(m, net, e) && ManagerInv(m, net)
    ensures m.books.nextOp <= ManagerStep(c, m, net, e).books.nextOp
  {
    if e.ReceiveCommand? || e.ReceiveTaskControl? || e.ReceiveTeleopControl? {
      AskingKeepsStops(c, m, net, e);
    }
    hide Do, TeleopControl, Refreshed, TaskExpired, Remembered, LeaseRefusal;
  }

  lemma FinishingWaits(c: Config, m: Manager, net: Net, e: ManagerEvent, op: nat)
    requires ManagerEnabled(m, net, e) && ManagerInv(m, net) && In(m, op, Finishing) && !(e.Finish? && e.op == op)
    ensures var m' := ManagerStep(c, m, net, e);
            In(m', op, Finishing) && m'.running[op].origin == m.running[op].origin
    ensures !(e.LatchFault? && e.op == op)
  {
    if e.ReceiveCommand? || e.ReceiveTaskControl? || e.ReceiveTeleopControl? {
      AskingKeepsStops(c, m, net, e);
    }
    hide Do, TeleopControl, Refreshed, TaskExpired, Remembered, LeaseRefusal;
  }

  /** The operation has nothing left to decide: its coroutine is over, or only has to announce its fault. */
  predicate IsDecided(m: Manager, op: nat) {
    op in m.running ==> m.running[op].phase == FaultAnnouncing
  }

  /** A stop that was not written, once its operation is decided, latched a fault exactly when its driver calls came
      back unsuccessful and not by an exception; it still holds its token exactly when it was not the e-stop callback
      that raised; and where it latched, fault and e-stop are on. */
  lemma FailedStopLatchesExactlyWhen(sys: System, states: seq<State>, events: seq<Event>, k: nat, j: nat)
    requires Run(sys, states, events) && k < j < |states| && events[k].AtManager? && events[k].m.StopDone?
    requires events[k].m.outcome != Sent && IsDecided(states[j].mgr, events[k].m.op)
    ensures var (op, outcome, origin) :=
              (events[k].m.op, events[k].m.outcome, states[k].mgr.running[events[k].m.op].origin);
            var m := states[j].mgr;
            && (Latches(events, k + 1, j, op) <==> outcome.NotSent?)
            && (op in m.books.active <==> outcome.NotSent? || origin == StopService)
            && (op in m.books.active ==> Orphan(m, op))
            && (outcome.NotSent? ==> m.books.fault.Some? && m.books.arb.estop)
  {
    var e := events[k].m;
    var c, m, net := sys.config, states[k].mgr, states[k].net;
    StopIsJudgedByItsOutcome(c, m, net, e.op, e.outcome);
    RunKeepsInv(sys, states, events, k);
    if e.outcome.NotSent? {
      UnsuccessfulStopLatches(sys, states, events, k + 1, j, e.op);
    } else if m.running[e.op].origin == StopService {
      EndedOperationLatchesNothing(sys, states, events, k + 1, j, e.op);
      OrphanIsForever(sys, states, events, k + 1, j, e.op);
    } else {
      RaisedEstopIsDropped(sys, states, events, k + 1, j, e.op);
      assert EstopIsFinishing(states[j].mgr, e.op);
    }
  }
}
