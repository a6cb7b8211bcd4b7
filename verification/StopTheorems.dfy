/** What holds over every run of the stop protocol. */
module StopTheorems {
  import opened Options
  import opened Arbitration
  import opened SafetyLatch
  import opened StopRegions
  import opened StopProtocol
  import opened StopInvariants

  // ---------------------------------------------------------------- readings of a run

  datatype Driver = Router | Port(port: nat)

  predicate HasDriver(d: Drivers, who: Driver) {
    who.Router? || who.port < |d.ports|
  }

  function LatchOf(d: Drivers, who: Driver): Latch
    requires HasDriver(d, who)
  {
    if who.Router? then d.router else d.ports[who.port]
  }

  /** Event `e` hands `notice` to driver `who`. */
  predicate Hears(e: Event, who: Driver, notice: Notice) {
    e.AtDrivers? && match e.d
      case RouterNotice(heard, _) => who.Router? && heard == notice
      case PortNotice(port, heard, _) => who == Port(port) && heard == notice
      case _ => false
  }

  /** Event `e` hands driver `who` a release with this stamp, by topic or by service. */
  predicate HearsRelease(s: State, e: Event, who: Driver, stamp: int) {
    e.AtDrivers? && match e.d
      case RouterNotice(heard, _) => who.Router? && heard == Notice(false, stamp)
      case RouterDecide(_) => who.Router? && s.drv.job.Some? && s.drv.job.value.stamp == stamp
      case PortNotice(port, heard, _) => who == Port(port) && heard == Notice(false, stamp)
      case PortRelease(port, asked, _, _) => who == Port(port) && asked == stamp
      case _ => false
  }

  /** Event `e` offers `move` to driver `who`, and its latch lets it in. */
  predicate LetsIn(s: State, e: Event, who: Driver, move: Move) {
    e.AtDrivers? && HasDriver(s.drv, who) && Admits(LatchOf(s.drv, who), move.stamp) && match e.d
      case RouterMove(offered, _) => who.Router? && offered == move
      case PortMove(port, offered) => who == Port(port) && offered == move
      case _ => false
  }

  predicate PublishesNotice(sys: System, s: State, e: Event, notice: Notice) {
    e.AtManager? && ManagerEnabled(s.mgr, s.net, e.m) && NoticeOf(sys.config, s.mgr, s.net, e.m) == Some(notice)
  }

  predicate PublishesMove(sys: System, s: State, e: Event, move: Move) {
    e.AtManager? && MoveOf(sys.config, s.mgr, e.m) == Some(move)
  }

  // ---------------------------------------------------------------- what only grows

  lemma {:induction false} ClockGrows(sys: System, states: seq<State>, events: seq<Event>, i: nat, j: nat)
    requires Run(sys, states, events) && i <= j < |states|
    ensures states[i].mgr.now <= states[j].mgr.now
    ensures states[i].drv.calls <= states[j].drv.calls
    ensures states[i].mgr.books.lastStamp <= states[j].mgr.books.lastStamp
    decreases j
  {
    hide Do, TeleopControl, Refreshed, TaskExpired, Remembered;
    if i < j {
      ClockGrows(sys, states, events, i, j - 1);
    }
  }

  lemma {:induction false} StampsArePositive(sys: System, states: seq<State>, events: seq<Event>, k: nat)
    requires Run(sys, states, events) && k < |states|
    ensures states[k].mgr.books.lastStamp >= 1
    ensures |states[k].drv.ports| == |sys.hasIds|
  {
    hide ManagerStep, ManagerSends;
    ClockGrows(sys, states, events, 0, k);
    if k > 0 {
      StampsArePositive(sys, states, events, k - 1);
    }
  }

  lemma {:induction false} FenceGrows(
      sys: System, states: seq<State>, events: seq<Event>, who: Driver, i: nat, j: nat)
    requires Run(sys, states, events) && i <= j < |states| && HasDriver(states[i].drv, who)
    ensures HasDriver(states[j].drv, who)
    ensures LatchOf(states[i].drv, who).fence <= LatchOf(states[j].drv, who).fence
    decreases j
  {
    hide ManagerStep, ManagerSends;
    if i < j {
      FenceGrows(sys, states, events, who, i, j - 1);
    }
  }

  // ---------------------------------------------------------------- where messages come from

  lemma {:induction false} NoticeHasAPublisher(
      sys: System, states: seq<State>, events: seq<Event>, k: nat, notice: Notice) returns (q: nat)
    requires Run(sys, states, events) && k < |states| && notice in states[k].net.notices
    requires notice != Notice(false, StartupStamp(states[0].mgr.now))
    ensures q < k && PublishesNotice(sys, states[q], events[q], notice)
  {
    hide ManagerStep, DriverStep, NoticeOf;
    if notice in states[k - 1].net.notices {
      q := NoticeHasAPublisher(sys, states, events, k - 1, notice);
    } else {
      q := k - 1;
    }
  }

  lemma {:induction false} MoveHasAPublisher(
      sys: System, states: seq<State>, events: seq<Event>, k: nat, move: Move) returns (p: nat)
    requires Run(sys, states, events) && k < |states|
    requires move in states[k].net.moves || exists port :: (port, move) in states[k].net.forwarded
    ensures p < k && PublishesMove(sys, states[p], events[p], move)
  {
    hide ManagerStep, DriverStep, NoticeOf, MoveOf;
    if move in states[k - 1].net.moves || exists port :: (port, move) in states[k - 1].net.forwarded {
      p := MoveHasAPublisher(sys, states, events, k - 1, move);
    } else {
      p := k - 1;
    }
  }

  /** A move is published only while no stop operation is registered and no e-stop is on. */
  lemma MovesNeedAQuietManager(c: Config, m: Manager, e: ManagerEvent)
    requires MoveOf(c, m, e).Some?
    ensures m.books.active == {} && !m.books.arb.estop && MoveOf(c, m, e).value.stamp == m.now
  {
    hide Refreshed, TaskCommandRefusal, TeleopCommandRefusal, MotionCommandRefusal;
  }

  // ---------------------------------------------------------------- the fault latch

  lemma OrphanStays(c: Config, m: Manager, net: Net, e: ManagerEvent, op: nat)
    requires ManagerEnabled(m, net, e) && ManagerInv(m, net) && Orphan(m, op)
    ensures Orphan(ManagerStep(c, m, net, e), op)
    ensures m.books.fault.Some? ==> ManagerStep(c, m, net, e).books.fault.Some?
  {
    hide Do, TeleopControl, Refreshed, TaskExpired, Remembered, LeaseRefusal;
    if e.ReceiveCommand? || e.ReceiveTaskControl? || e.ReceiveTeleopControl? {
      AskingKeepsStops(c, m, net, e);
    }
  }

  lemma {:induction false} OrphanIsForever(
      sys: System, states: seq<State>, events: seq<Event>, k: nat, j: nat, op: nat)
    requires Run(sys, states, events) && k <= j < |states| && Orphan(states[k].mgr, op)
    ensures Orphan(states[j].mgr, op)
    ensures states[k].mgr.books.fault.Some? ==> states[j].mgr.books.fault.Some?
    decreases j
  {
    hide ManagerStep, DriverStep;
    if k < j {
      OrphanIsForever(sys, states, events, k, j - 1, op);
      RunKeepsInv(sys, states, events, j - 1);
      if events[j - 1].AtManager? {
        OrphanStays(sys.config, states[j - 1].mgr, states[j - 1].net, events[j - 1].m, op);
      }
    }
  }

  /** A token whose coroutine ended without giving it back blocks every command, every start and every e-stop release
      from then on, whether or not a fault was latched. */
  lemma OrphanBlocksForever(sys: System, states: seq<State>, events: seq<Event>, k: nat, j: nat, op: nat)
    requires Run(sys, states, events) && k <= j < |events| && Orphan(states[k].mgr, op)
    ensures Orphan(states[j].mgr, op)
    ensures forall move :: !PublishesMove(sys, states[j], events[j], move)
    ensures events[j].AtManager? && events[j].m.ReceiveTaskControl? && events[j].m.action == Start ==>
              var e := events[j].m;
              TaskControlRegion(sys.config, states[j].mgr.books, e.action, e.at, e.id, e.lease, e.minted).1 != Accepted
    ensures events[j].AtManager? && events[j].m.EstopOff? ==>
              && states[j + 1].mgr.running == states[j].mgr.running
              && states[j + 1].mgr.books.active == states[j].mgr.books.active
  {
    OrphanIsForever(sys, states, events, k, j, op);
    var m := states[j].mgr;
    forall move ensures !PublishesMove(sys, states[j], events[j], move) {
      if PublishesMove(sys, states[j], events[j], move) {
        MovesNeedAQuietManager(sys.config, m, events[j].m);
      }
    }
    hide Refreshed, DriverStep, TaskControl;
  }

  /** A latched stop fault is never left: the e-stop stays on and some token stays held. */
  lemma FaultIsAbsorbing(sys: System, states: seq<State>, events: seq<Event>, k: nat, j: nat, op: nat)
    requires Run(sys, states, events) && k <= j < |states|
    requires states[k].mgr.books.fault.Some? && Orphan(states[k].mgr, op)
    ensures var b := states[j].mgr.books; b.fault.Some? && b.arb.estop && op in b.active
    ensures Orphan(states[j].mgr, op)
  {
    hide ManagerStep, DriverStep;
    RunKeepsInv(sys, states, events, j);
    OrphanIsForever(sys, states, events, k, j, op);
  }

  /** After a stop fault one and the same token is held forever, no command is forwarded and no task starts. */
  lemma NothingMovesAfterAFault(sys: System, states: seq<State>, events: seq<Event>, k: nat) returns (op: nat)
    requires Run(sys, states, events) && k < |states| && states[k].mgr.books.fault.Some?
    ensures forall j | k <= j < |states| :: op in states[j].mgr.books.active
    ensures forall j | k <= j < |states| :: states[j].mgr.books.arb.estop && states[j].mgr.books.fault.Some?
    ensures forall j, move | k <= j < |events| :: !PublishesMove(sys, states[j], events[j], move)
    ensures forall j | k <= j < |events| && events[j].AtManager? && events[j].m.ReceiveTaskControl? ::
              var e := events[j].m;
              TaskControlRegion(sys.config, states[j].mgr.books, e.action, e.at, e.id, e.lease, e.minted).1 != Accepted
  {
    hide ManagerStep, DriverStep;
    RunKeepsInv(sys, states, events, k);
    op :| Orphan(states[k].mgr, op);
    forall j | k <= j < |states|
      ensures op in states[j].mgr.books.active && states[j].mgr.books.arb.estop && states[j].mgr.books.fault.Some?
    {
      FaultIsAbsorbing(sys, states, events, k, j, op);
    }
    forall j, move | k <= j < |events| ensures !PublishesMove(sys, states[j], events[j], move) {
      if PublishesMove(sys, states[j], events[j], move) {
        MovesNeedAQuietManager(sys.config, states[j].mgr, events[j].m);
      }
    }
    forall j | k <= j < |events| && events[j].AtManager? && events[j].m.ReceiveTaskControl?
      ensures var e := events[j].m;
              TaskControlRegion(sys.config, states[j].mgr.books, e.action, e.at, e.id, e.lease, e.minted).1 != Accepted
    {
      EstopRefusesTaskControl(sys.config, states[j].mgr.books, events[j].m);
    }
  }

  lemma EstopRefusesTaskControl(c: Config, b: Books, e: ManagerEvent)
    requires e.ReceiveTaskControl? && b.arb.estop
    ensures TaskControlRegion(c, b, e.action, e.at, e.id, e.lease, e.minted).1 != Accepted
  {
    hide Refreshed;
  }

  // ---------------------------------------------------------------- how a token and the e-stop go

  /** The operation gives its token back without asking the drivers, because something else stops them anyway. */
  predicate DropsQuietly(c: Config, m: Manager, e: ManagerEvent, op: nat) {
    e.Finish? && e.op == op && SomethingElseStops(Looked(c, m.books, e.at), op)
  }

  /** A token goes exactly at the end of an acknowledged release, or by a quiet drop. */
  lemma TokenGoesExactlyWhen(c: Config, m: Manager, net: Net, e: ManagerEvent, op: nat)
    requires ManagerEnabled(m, net, e) && ManagerInv(m, net) && op in m.books.active
    ensures op !in ManagerStep(c, m, net, e).books.active <==>
              (e.Release? && e.op == op) || DropsQuietly(c, m, e, op)
  {
    if e.ReceiveCommand? || e.ReceiveTaskControl? || e.ReceiveTeleopControl? {
      AskingKeepsStops(c, m, net, e);
    }
    hide Do, TeleopControl, Refreshed, TaskExpired, Remembered, LeaseRefusal;
  }

  /** The e-stop goes off exactly at the end of an acknowledged e-stop release. */
  lemma EstopGoesExactlyWhen(c: Config, m: Manager, net: Net, e: ManagerEvent)
    requires ManagerEnabled(m, net, e) && ManagerInv(m, net) && m.books.arb.estop
    ensures !ManagerStep(c, m, net, e).books.arb.estop <==> e.Release? && m.running[e.op].origin == ReleaseCallback
  {
    if e.ReceiveCommand? || e.ReceiveTaskControl? || e.ReceiveTeleopControl? {
      AskingKeepsStops(c, m, net, e);
    }
    hide Do, TeleopControl, TaskExpired, Remembered, LeaseRefusal;
  }

  // ---------------------------------------------------------------- the end-to-end fence

  lemma AnnouncingKeepsEstop(c: Config, m: Manager, net: Net, e: ManagerEvent)
    requires ManagerEnabled(m, net, e) && ManagerInv(m, net)
    requires m.callback == AnnouncingEstop ==> m.books.arb.estop
    ensures var m' := ManagerStep(c, m, net, e); m'.callback == AnnouncingEstop ==> m'.books.arb.estop
  {
    if e.ReceiveCommand? || e.ReceiveTaskControl? || e.ReceiveTeleopControl? {
      AskingKeepsStops(c, m, net, e);
    }
    hide Do, TeleopControl, Refreshed, TaskExpired, Remembered, LeaseRefusal;
  }

  lemma {:induction false} AnnouncedEstopIsOn(sys: System, states: seq<State>, events: seq<Event>, k: nat)
    requires Run(sys, states, events) && k < |states|
    ensures states[k].mgr.callback == AnnouncingEstop ==> states[k].mgr.books.arb.estop
  {
    hide ManagerStep, DriverStep;
    if k > 0 {
      AnnouncedEstopIsOn(sys, states, events, k - 1);
      RunKeepsInv(sys, states, events, k - 1);
      if events[k - 1].AtManager? {
        AnnouncingKeepsEstop(sys.config, states[k - 1].mgr, states[k - 1].net, events[k - 1].m);
      }
    }
  }

  /** The stop behind an active notice is in force when the notice is published. */
  predicate StopInForce(m: Manager, e: ManagerEvent) {
    match e
    case Announce(op) => op in m.books.active
    case EstopAnnounce => m.books.arb.estop
    case AnnounceFault(op) => op in m.books.active && m.books.fault.Some?
    case _ => false
  }

  /** Suppose a driver heard an active notice with stamp `s` at event `n` and lets a move in at event `a`, later.  Then
      the notice was published at some event `q`, the stop behind it being in force, and the move at some event `p`
      after `q`, no stop operation being registered and no e-stop on: that stop had been lifted in between. */
  lemma StopFence(sys: System, states: seq<State>, events: seq<Event>, who: Driver, n: nat, a: nat, s: int, move: Move)
    returns (q: nat, p: nat)
    requires Run(sys, states, events) && n < a < |events|
    requires Hears(events[n], who, Notice(true, s)) && LetsIn(states[a], events[a], who, move)
    ensures q < p < a && q < n
    ensures PublishesNotice(sys, states[q], events[q], Notice(true, s)) && StopInForce(states[q].mgr, events[q].m)
    ensures PublishesMove(sys, states[p], events[p], move)
    ensures var b := states[p].mgr.books; b.active == {} && !b.arb.estop && b.fault.None?
    ensures !events[q].m.AnnounceFault?
  {
    q := NoticeHasAPublisher(sys, states, events, n, Notice(true, s));
    p := MoveHasAPublisher(sys, states, events, a, move);
    ActiveNoticeIsAStop(sys, states, events, q, s);
    FenceAfterNotice(sys, states, events, who, n, s);
    FenceGrows(sys, states, events, who, n + 1, a);
    MovesNeedAQuietManager(sys.config, states[p].mgr, events[p].m);
    if p <= q {
      ClockGrows(sys, states, events, p, q);
      assert false;
    }
    RunKeepsInv(sys, states, events, p);
    if states[q].mgr.books.fault.Some? {
      var token := NothingMovesAfterAFault(sys, states, events, q);
      assert false;
    }
  }

  lemma FenceAfterNotice(sys: System, states: seq<State>, events: seq<Event>, who: Driver, n: nat, s: int)
    requires Run(sys, states, events) && n < |events| && Hears(events[n], who, Notice(true, s)) && s >= 1
    ensures HasDriver(states[n + 1].drv, who) && LatchOf(states[n + 1].drv, who).fence >= s
  {
    hide ManagerStep, ManagerSends;
  }

  /** An active notice is published by a stop in force; its stamp is positive and not behind the clock. */
  lemma ActiveNoticeIsAStop(sys: System, states: seq<State>, events: seq<Event>, q: nat, s: int)
    requires Run(sys, states, events) && q < |events|
    requires PublishesNotice(sys, states[q], events[q], Notice(true, s))
    ensures StopInForce(states[q].mgr, events[q].m) && s >= 1 && s >= states[q].mgr.now
  {
    hide ManagerStep, DriverStep;
    RunKeepsInv(sys, states, events, q);
    StampsArePositive(sys, states, events, q);
    AnnouncedEstopIsOn(sys, states, events, q);
  }
}
