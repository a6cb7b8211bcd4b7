/** The stop / e-stop / release protocol as a step system: the execution manager, the protocol router and the port
    drivers, over channels that deliver any sent message late, repeatedly, out of order or never.

    The manager's coroutines are split at every await and every locked region.  Handlers of the default callback group
    exclude each other across awaits (`callback`); service handlers interleave freely.  The router holds its command
    lock for the whole of a release (`job`), and calls the ports one at a time. */
module StopProtocol {
  import opened Options
  import opened Arbitration
  import opened SafetyLatch
  import opened StopRegions

  // ---------------------------------------------------------------- state

  datatype Origin = EstopCallback | ReleaseCallback | StopService

  datatype Phase =
    | Announcing                    // token registered, active authority not published yet
    | Stopping                      // reading protocols and writing stops, one await after another
    | Finishing                     // stop written, outcome not judged yet
    | Requesting                    // the drivers are to be asked for a release
    | Awaiting(stamp: int)          // release service called with this stamp
    | Releasing(stamp: int)         // release acknowledged, final region not entered yet
    | Faulting(reason: FaultReason) // stop or release failed, fault not latched yet
    | FaultAnnouncing               // fault latched, active authority not published yet

  datatype Operation = Operation(origin: Origin, phase: Phase)

  datatype Callback = FreeGroup | AnnouncingEstop | InOperation(op: nat)

  datatype Manager = Manager(
    books: Books,
    now: int,
    callback: Callback,
    running: map<nat, Operation>)

  datatype Notice = Notice(active: bool, stamp: int)

  datatype Move = Move(stamp: int, servo: int, position: int)

  /** Everything ever sent. */
  datatype Net = Net(
    notices: set<Notice>,
    moves: set<Move>,
    requests: set<int>,                  // release requests to the router, by stamp
    replies: set<(int, bool)>,           // the router's answers: stamp, success
    forwarded: set<(nat, Move)>,         // moves the router sent to a port
    portRequests: set<(nat, int, nat)>,  // release calls to a port: port, stamp, call
    portReplies: set<(nat, bool)>)       // a port's answers: call, success

  /** A release the router is carrying out: the next port to call, the call it waits for, all answers so far. */
  datatype Job = Job(stamp: int, port: nat, waiting: Option<nat>, allApplied: bool)

  datatype Drivers = Drivers(router: Latch, ports: seq<Latch>, job: Option<Job>, calls: nat)

  /** `hasIds[p]` says whether the bus map gives port `p` any servo; only such ports are asked to release. */
  datatype System = System(config: Config, hasIds: seq<bool>)

  datatype State = State(mgr: Manager, net: Net, drv: Drivers)

  // ---------------------------------------------------------------- events

  datatype StopOutcome = Sent | NotSent(timedOut: bool) | Raised

  datatype Answer = Acknowledged | Refused | TimedOut

  datatype ManagerEvent =
    | Tick(later: int)
    | ReceiveCommand(source: Source, at: real, requester: string, lease: string, servo: int, position: int)
    | ReceiveTaskControl(action: TaskAction, at: real, id: Identity, lease: string, minted: string)
    | ReceiveTeleopControl(teleop: TeleopAction, at: real, requester: string, lease: string, minted: string)
    | ReceiveServoState(servo: int)
    | Look(at: real)
    | EstopOn(at: real)
    | EstopAnnounce
    | EstopOff(at: real)
    | StopRequest(at: real, id: Identity, lease: string)
    | Announce(op: nat)
    | StopDone(op: nat, outcome: StopOutcome)
    | Finish(op: nat, at: real)
    | RequestRelease(op: nat, ready: bool)
    | ReleaseAnswered(op: nat, answer: Answer)
    | Release(op: nat, at: real)
    | LatchFault(op: nat, at: real)
    | AnnounceFault(op: nat)

  datatype PortOutcome = PortAnswered(ok: bool) | PortSilent

  datatype DriverEvent =
    | RouterNotice(notice: Notice, now: int)
    | RouterMove(move: Move, port: nat)
    | RouterStop(now: int)
    | RouterBegin(stamp: int)
    | RouterSkipPort
    | RouterCallPort(reachable: bool)
    | RouterHeard(outcome: PortOutcome)
    | RouterDecide(now: int)
    | PortNotice(port: nat, notice: Notice, now: int)
    | PortMove(port: nat, move: Move)
    | PortStop(port: nat, now: int)
    | PortRelease(port: nat, stamp: int, call: nat, now: int)

  datatype Event = AtManager(m: ManagerEvent) | AtDrivers(d: DriverEvent)

  // ---------------------------------------------------------------- the manager

  function PhaseSet(m: Manager, op: nat, phase: Phase): Manager
    requires op in m.running
  {
    m.(running := m.running[op := m.running[op].(phase := phase)])
  }

  /** The coroutine of `op` returns; a callback coroutine frees its group. */
  function Returned(m: Manager, op: nat): Manager
    requires op in m.running
  {
    m.(running := m.running - {op},
       callback := if m.running[op].origin == StopService then m.callback else FreeGroup)
  }

  predicate In(m: Manager, op: nat, phase: Phase) {
    op in m.running && m.running[op].phase == phase
  }

  predicate ManagerEnabled(m: Manager, net: Net, e: ManagerEvent) {
    match e
    case Tick(later) => later >= m.now
    case ReceiveCommand(_, _, _, _, _, _) => m.callback == FreeGroup
    case ReceiveTaskControl(_, _, _, _, _) => m.callback == FreeGroup
    case ReceiveTeleopControl(_, _, _, _, _) => m.callback == FreeGroup
    case ReceiveServoState(_) => m.callback == FreeGroup
    case Look(_) => true
    case EstopOn(_) => m.callback == FreeGroup
    case EstopAnnounce => m.callback == AnnouncingEstop
    case EstopOff(_) => m.callback == FreeGroup
    case StopRequest(_, _, _) => true
    case Announce(op) => In(m, op, Announcing)
    case StopDone(op, _) => In(m, op, Stopping)
    case Finish(op, _) => In(m, op, Finishing)
    case RequestRelease(op, _) => In(m, op, Requesting)
    case ReleaseAnswered(op, answer) =>
      && op in m.running && m.running[op].phase.Awaiting?
      && (answer == Acknowledged ==> (m.running[op].phase.stamp, true) in net.replies)
    case Release(op, _) => op in m.running && m.running[op].phase.Releasing?
    case LatchFault(op, _) => op in m.running && m.running[op].phase.Faulting?
    case AnnounceFault(op) => In(m, op, FaultAnnouncing)
  }

  function CommandOf(c: Config, m: Manager, e: ManagerEvent): (Books, Reason)
    requires e.ReceiveCommand?
  {
    CommandRegion(c, m.books, e.source, e.at, e.requester, e.lease, e.servo)
  }

  /** Whether the final region of a release publishes an authoritative false. */
  predicate PublishesRelease(c: Config, m: Manager, op: nat, at: real)
    requires op in m.running
  {
    || m.running[op].origin == ReleaseCallback
    || (var b := ReleasedRegion(c, m.books, op, at); b.active == {} && b.fault.None? && !b.arb.estop)
  }

  function ManagerStep(c: Config, m: Manager, net: Net, e: ManagerEvent): Manager
    requires ManagerEnabled(m, net, e)
  {
    match e
    case Tick(later) => m.(now := later)
    case ReceiveCommand(_, _, _, _, _, _) => m.(books := CommandOf(c, m, e).0)
    case ReceiveTaskControl(action, at, id, lease, minted) =>
      m.(books := TaskControlRegion(c, m.books, action, at, id, lease, minted).0)
    case ReceiveTeleopControl(teleop, at, requester, lease, minted) =>
      m.(books := TeleopControlRegion(c, m.books, teleop, at, requester, lease, minted).0)
    case ReceiveServoState(servo) => m.(books := m.books.(known := m.books.known + {servo}))
    case Look(at) => m.(books := Looked(c, m.books, at))
    case EstopOn(at) =>
      var b := EstopRegion(c, m.books, at);
      if m.books.known == {} then m.(books := b, callback := AnnouncingEstop)
      else m.(books := b, callback := InOperation(m.books.nextOp),
              running := m.running[m.books.nextOp := Operation(EstopCallback, Announcing)])
    case EstopAnnounce => m.(books := Stamped(m.books, m.now), callback := FreeGroup)
    case EstopOff(at) =>
      var b := EstopReleaseRegion(c, m.books, at);
      if !ReleaseMayBegin(Looked(c, m.books, at)) then m.(books := b)
      else m.(books := b, callback := InOperation(m.books.nextOp),
              running := m.running[m.books.nextOp := Operation(ReleaseCallback, Requesting)])
    case StopRequest(at, id, lease) =>
      var (b, verdict) := BeginStopRegion(c, m.books, at, id, lease);
      if verdict != Accepted then m.(books := b)
      else m.(books := b, running := m.running[m.books.nextOp := Operation(StopService, Announcing)])
    case Announce(op) => PhaseSet(m, op, Stopping).(books := Stamped(m.books, m.now))
    case StopDone(op, outcome) =>
      (match outcome
       case Sent => PhaseSet(m, op, Finishing)
       case NotSent(timedOut) => PhaseSet(m, op, Faulting(if timedOut then StopTimeout else StopFailed))
       case Raised =>
         if m.running[op].origin == StopService then Returned(m, op) else PhaseSet(m, op, Finishing))
    case Finish(op, at) =>
      var b := FinishRegion(c, m.books, op, at);
      if SomethingElseStops(Looked(c, m.books, at), op) then Returned(m, op).(books := b)
      else PhaseSet(m, op, Requesting).(books := b)
    case RequestRelease(op, ready) =>
      PhaseSet(m, op, if ready then Awaiting(NextStamp(m.books, m.now)) else Faulting(ReleaseUnavailable))
        .(books := Stamped(m.books, m.now))
    case ReleaseAnswered(op, answer) =>
      PhaseSet(m, op, match answer
                      case Acknowledged => Releasing(m.running[op].phase.stamp)
                      case Refused => Faulting(ReleaseFailed)
                      case TimedOut => Faulting(ReleaseTimeout))
    case Release(op, at) =>
      Returned(m, op).(books := if m.running[op].origin == ReleaseCallback
                                then EstopReleasedRegion(c, m.books, op, at)
                                else ReleasedRegion(c, m.books, op, at))
    case LatchFault(op, at) =>
      var b := FaultRegion(c, m.books, op, m.running[op].phase.reason, at);
      if op !in m.books.active then Returned(m, op) else PhaseSet(m, op, FaultAnnouncing).(books := b)
    case AnnounceFault(op) => Returned(m, op).(books := Stamped(m.books, m.now))
  }

  /** The notice an event publishes, if any. */
  function NoticeOf(c: Config, m: Manager, net: Net, e: ManagerEvent): Option<Notice>
    requires ManagerEnabled(m, net, e)
  {
    match e
    case EstopAnnounce => Some(Notice(true, NextStamp(m.books, m.now)))
    case Announce(op) => Some(Notice(true, NextStamp(m.books, m.now)))
    case AnnounceFault(op) => Some(Notice(true, NextStamp(m.books, m.now)))
    case Release(op, at) =>
      if PublishesRelease(c, m, op, at) then Some(Notice(false, m.running[op].phase.stamp)) else None
    case _ => None
  }

  /** The move a command event publishes, if any, stamped with the manager's clock. */
  function MoveOf(c: Config, m: Manager, e: ManagerEvent): Option<Move> {
    if e.ReceiveCommand? && CommandOf(c, m, e).1 == Accepted then Some(Move(m.now, e.servo, e.position)) else None
  }

  function ManagerSends(c: Config, m: Manager, net: Net, e: ManagerEvent): Net
    requires ManagerEnabled(m, net, e)
  {
    var notice := NoticeOf(c, m, net, e);
    var move := MoveOf(c, m, e);
    net.(notices := if notice.Some? then net.notices + {notice.value} else net.notices,
         moves := if move.Some? then net.moves + {move.value} else net.moves,
         requests := if e.RequestRelease? && e.ready then net.requests + {NextStamp(m.books, m.now)} else net.requests)
  }

  // ---------------------------------------------------------------- the drivers

  predicate DriverEnabled(sys: System, d: Drivers, net: Net, e: DriverEvent) {
    match e
    case RouterNotice(notice, _) => d.job.None? && notice in net.notices
    case RouterMove(move, port) => d.job.None? && move in net.moves && port < |d.ports|
    case RouterStop(_) => d.job.None?
    case RouterBegin(stamp) => d.job.None? && stamp in net.requests
    case RouterSkipPort =>
      && d.job.Some? && d.job.value.waiting.None? && d.job.value.port < |d.ports| == |sys.hasIds|
      && !sys.hasIds[d.job.value.port]
    case RouterCallPort(_) =>
      && d.job.Some? && d.job.value.waiting.None? && d.job.value.port < |d.ports| == |sys.hasIds|
      && sys.hasIds[d.job.value.port]
    case RouterHeard(outcome) =>
      && d.job.Some? && d.job.value.waiting.Some?
      && (outcome.PortAnswered? ==> (d.job.value.waiting.value, outcome.ok) in net.portReplies)
    case RouterDecide(_) => d.job.Some? && d.job.value.waiting.None? && d.job.value.port >= |d.ports|
    case PortNotice(port, notice, _) => port < |d.ports| && notice in net.notices
    case PortMove(port, move) => port < |d.ports| && (port, move) in net.forwarded
    case PortStop(port, _) => port < |d.ports|
    case PortRelease(port, stamp, call, _) => port < |d.ports| && (port, stamp, call) in net.portRequests
  }

  function NextPort(d: Drivers, ok: bool): Drivers
    requires d.job.Some?
  {
    d.(job := Some(d.job.value.(port := d.job.value.port + 1, waiting := None,
                                allApplied := d.job.value.allApplied && ok)))
  }

  /** The router latch after all ports were called. */
  function Decided(d: Drivers, now: int): Latch
    requires d.job.Some?
  {
    if d.job.value.allApplied then Observed(d.router, false, d.job.value.stamp, now) else d.router
  }

  /** Whether the router answers that the release was applied. */
  predicate DecidedWell(d: Drivers, now: int)
    requires d.job.Some?
  {
    d.job.value.allApplied && !Decided(d, now).latched
  }

  function PortSet(d: Drivers, port: nat, l: Latch): Drivers
    requires port < |d.ports|
  {
    d.(ports := d.ports[port := l])
  }

  function DriverStep(sys: System, d: Drivers, net: Net, e: DriverEvent): Drivers
    requires DriverEnabled(sys, d, net, e)
  {
    match e
    case RouterNotice(notice, now) => d.(router := Observed(d.router, notice.active, notice.stamp, now))
    case RouterMove(_, _) => d
    case RouterStop(now) => d.(router := Activated(d.router, now))
    case RouterBegin(stamp) => d.(job := Some(Job(stamp, 0, None, true)))
    case RouterSkipPort => NextPort(d, true)
    case RouterCallPort(reachable) =>
      if reachable then d.(job := Some(d.job.value.(waiting := Some(d.calls))), calls := d.calls + 1)
      else NextPort(d, false)
    case RouterHeard(outcome) => NextPort(d, outcome.PortAnswered? && outcome.ok)
    case RouterDecide(now) => d.(router := Decided(d, now), job := None)
    case PortNotice(port, notice, now) => PortSet(d, port, Observed(d.ports[port], notice.active, notice.stamp, now))
    case PortMove(_, _) => d
    case PortStop(port, now) => PortSet(d, port, Activated(d.ports[port], now))
    case PortRelease(port, stamp, _, now) => PortSet(d, port, Observed(d.ports[port], false, stamp, now))
  }

  function DriverSends(sys: System, d: Drivers, net: Net, e: DriverEvent): Net
    requires DriverEnabled(sys, d, net, e)
  {
    match e
    case RouterMove(move, port) =>
      if Admits(d.router, move.stamp) then net.(forwarded := net.forwarded + {(port, move)}) else net
    case RouterCallPort(reachable) =>
      if reachable
      then net.(portRequests := net.portRequests + {(d.job.value.port, d.job.value.stamp, d.calls)}) else net
    case RouterDecide(now) => net.(replies := net.replies + {(d.job.value.stamp, DecidedWell(d, now))})
    case PortRelease(port, stamp, call, now) =>
      net.(portReplies := net.portReplies + {(call, !Observed(d.ports[port], false, stamp, now).latched)})
    case _ => net
  }

  // ---------------------------------------------------------------- runs

  predicate Enabled(sys: System, s: State, e: Event) {
    match e
    case AtManager(m) => ManagerEnabled(s.mgr, s.net, m)
    case AtDrivers(d) => DriverEnabled(sys, s.drv, s.net, d)
  }

  function Step(sys: System, s: State, e: Event): State
    requires Enabled(sys, s, e)
  {
    match e
    case AtManager(m) =>
      State(ManagerStep(sys.config, s.mgr, s.net, m), ManagerSends(sys.config, s.mgr, s.net, m), s.drv)
    case AtDrivers(d) =>
      State(s.mgr, DriverSends(sys, s.drv, s.net, d), DriverStep(sys, s.drv, s.net, d))
  }

  /** The startup release the manager publishes from its constructor. */
  function StartupStamp(now: int): int {
    NextStamp(EMPTY_BOOKS, now)
  }

  predicate Initial(sys: System, s: State) {
    && s.mgr.now >= 0
    && s.mgr == Manager(Stamped(EMPTY_BOOKS, s.mgr.now), s.mgr.now, FreeGroup, map[])
    && s.net == Net({Notice(false, StartupStamp(s.mgr.now))}, {}, {}, {}, {}, {}, {})
    && s.drv.router == SafetyLatch.INITIAL && s.drv.job.None? && s.drv.calls == 0
    && |s.drv.ports| == |sys.hasIds| && forall p | 0 <= p < |s.drv.ports| :: s.drv.ports[p] == SafetyLatch.INITIAL
  }

  /** `states[k]` is the state before `events[k]`. */
  ghost predicate Run(sys: System, states: seq<State>, events: seq<Event>) {
    && |states| == |events| + 1
    && Initial(sys, states[0])
    && forall k | 0 <= k < |events| ::
         Enabled(sys, states[k], events[k]) && states[k + 1] == Step(sys, states[k], events[k])
  }
}
