/** The command arbitrator as a value: which of the task, teleop and motion entrances may drive the actuators.

    `Arb` holds the fields that decide an answer or feed the published task state; `Do` is one call.  Text arguments
    are already trimmed, and the lease factory's next identifier is the `minted` argument. */
module Arbitration {
  import opened Options

  datatype Identity = Identity(task: string, trace: string, session: string) {
    predicate Complete() {
      task != "" && trace != "" && session != ""
    }
  }

  datatype Source = Teleop | Motion | Task

  datatype TaskAction = Start | Keepalive | Finish | Cancel | OtherTaskAction

  datatype TeleopAction = Claim | Refresh | Release | OtherTeleopAction

  datatype LastAction = NoAction | Requested(action: TaskAction) | TimedOut | Stopped

  datatype Mode = Idle | TaskActive | TeleopActive | MotionActive | EstopMode

  datatype Reason =
    | Accepted
    | NoReason
    | Estop
    | TaskControlNotGranted | TaskRequesterRequired | TaskNotHolder | TaskLeaseRequired | TaskLeaseMismatch
    | TaskIsActive | TeleopNotGranted | TeleopRequesterRequired | TeleopNotHolder
    | TeleopLeaseRequired | TeleopLeaseMismatch | TeleopIsActive | TeleopHeldByOther | UnsupportedTeleopAction
    | UnsupportedTaskAction | TaskIdRequired | TraceIdRequired | SessionIdRequired
    | HeldByOtherTask | TraceMismatch | SessionMismatch | ControlReplay | LeaseExpired
    | StopPending | TaskStopPending

  /** Timeouts in seconds and the tombstone limit, as the constructor clamps them. */
  datatype Config = Config(teleopTimeout: real, motionTimeout: real, taskTimeout: real, tombstoneLimit: nat) {
    ghost predicate Valid() {
      teleopTimeout >= 0.0 && motionTimeout >= 0.0 && taskTimeout >= 0.0 && tombstoneLimit >= 1
    }
  }

  datatype Arb = Arb(
    mode: Mode, estop: bool,
    teleopHolder: string, teleopLease: string, teleopTime: Option<real>,
    identity: Identity, taskLease: string, taskTime: Option<real>,
    tombstones: seq<Identity>, tombstoneSet: set<Identity>,
    motionTime: Option<real>,
    lastAction: LastAction, lastIdentity: Identity, lastAccepted: bool, lastReason: Reason)

  const NOBODY := Identity("", "", "")

  const INITIAL := Arb(Idle, false, "", "", None, NOBODY, "", None, [], {}, None, NoAction, NOBODY, false, NoReason)

  predicate Within(last: Option<real>, now: real, timeout: real) {
    last.Some? && now - last.value <= timeout
  }

  predicate TaskHeld(c: Config, a: Arb, now: real) {
    Within(a.taskTime, now, c.taskTimeout)
  }

  predicate TeleopHeld(c: Config, a: Arb, now: real) {
    Within(a.teleopTime, now, c.teleopTimeout)
  }

  // ---------------------------------------------------------------- shared steps

  function Remembered(c: Config, a: Arb): (b: Arb)
    ensures b.estop == a.estop
  {
    if !a.identity.Complete() || a.identity in a.tombstoneSet then a
    else if |a.tombstones| >= c.tombstoneLimit && a.tombstones != [] then
      a.(tombstones := a.tombstones[1..] + [a.identity],
         tombstoneSet := a.tombstoneSet - {a.tombstones[0]} + {a.identity})
    else
      a.(tombstones := a.tombstones + [a.identity], tombstoneSet := a.tombstoneSet + {a.identity})
  }

  function TaskCleared(a: Arb): Arb {
    a.(taskLease := "", taskTime := None)
  }

  function TeleopCleared(a: Arb): Arb {
    a.(teleopTime := None, teleopHolder := "", teleopLease := "")
  }

  function TaskExpired(c: Config, a: Arb, now: real): Arb {
    if a.taskTime.None? || TaskHeld(c, a, now) then a
    else TaskCleared(Remembered(c, a)).(
      lastAction := TimedOut, lastIdentity := a.identity, lastAccepted := false, lastReason := LeaseExpired)
  }

  function TeleopExpired(c: Config, a: Arb, now: real): Arb {
    if a.teleopTime.None? || TeleopHeld(c, a, now) then a else TeleopCleared(a)
  }

  function ModeAt(c: Config, a: Arb, now: real): Mode {
    if a.estop then EstopMode
    else if TaskHeld(c, a, now) then TaskActive
    else if TeleopHeld(c, a, now) then TeleopActive
    else if Within(a.motionTime, now, c.motionTimeout) then MotionActive
    else Idle
  }

  function Refreshed(c: Config, a: Arb, now: real): (b: Arb)
    ensures b.estop == a.estop
  {
    var b := TeleopExpired(c, TaskExpired(c, a, now), now);
    b.(mode := ModeAt(c, b, now))
  }

  function IdentityMismatch(a: Arb, id: Identity): Reason {
    if id.task != a.identity.task then HeldByOtherTask
    else if id.trace != a.identity.trace then TraceMismatch
    else if id.session != a.identity.session then SessionMismatch
    else Accepted
  }

  /** Why an operation under a claimed identity and lease is refused by the lease now held. */
  function LeaseRefusal(a: Arb, id: Identity, lease: string): Reason {
    var mismatch := IdentityMismatch(a, id);
    if mismatch != Accepted then mismatch
    else if lease == "" then TaskLeaseRequired
    else if lease != a.taskLease then TaskLeaseMismatch
    else Accepted
  }

  // ---------------------------------------------------------------- commands

  function TaskCommandRefusal(c: Config, a: Arb, now: real, requester: string, lease: string): Reason {
    if !TaskHeld(c, a, now) then TaskControlNotGranted
    else if requester == "" then TaskRequesterRequired
    else if requester != a.identity.task then TaskNotHolder
    else if lease == "" then TaskLeaseRequired
    else if lease != a.taskLease then TaskLeaseMismatch
    else Accepted
  }

  function TeleopCommandRefusal(c: Config, a: Arb, now: real, requester: string, lease: string): Reason {
    if TaskHeld(c, a, now) then TaskIsActive
    else if !TeleopHeld(c, a, now) then TeleopNotGranted
    else if requester == "" then TeleopRequesterRequired
    else if requester != a.teleopHolder then TeleopNotHolder
    else if a.teleopLease != "" && lease == "" then TeleopLeaseRequired
    else if lease != a.teleopLease then TeleopLeaseMismatch
    else Accepted
  }

  function MotionCommandRefusal(c: Config, a: Arb, now: real): Reason {
    if TaskHeld(c, a, now) then TaskIsActive
    else if TeleopHeld(c, a, now) then TeleopIsActive
    else Accepted
  }

  function CommandVerdict(c: Config, a: Arb, source: Source, now: real, requester: string, lease: string): Reason {
    if a.estop then Estop
    else match source
      case Task => TaskCommandRefusal(c, a, now, requester, lease)
      case Teleop => TeleopCommandRefusal(c, a, now, requester, lease)
      case Motion => MotionCommandRefusal(c, a, now)
  }

  function Command(c: Config, a: Arb, source: Source, now: real, requester: string, lease: string): (Arb, Reason) {
    var b := Refreshed(c, a, now);
    var verdict := CommandVerdict(c, b, source, now, requester, lease);
    if verdict != Accepted then (b, verdict)
    else (Refreshed(c, if source == Motion then b.(motionTime := Some(now)) else b, now), Accepted)
  }

  // ---------------------------------------------------------------- task control

  function TaskNoted(a: Arb, action: TaskAction, id: Identity, verdict: Reason): Arb {
    a.(lastAction := Requested(action), lastIdentity := id, lastAccepted := verdict == Accepted, lastReason := verdict)
  }

  function TaskControlVerdict(c: Config, a: Arb, action: TaskAction, now: real, id: Identity, lease: string): Reason {
    if action == OtherTaskAction then UnsupportedTaskAction
    else if id.task == "" then TaskIdRequired
    else if id.trace == "" then TraceIdRequired
    else if id.session == "" then SessionIdRequired
    else if a.estop then Estop
    else if TaskHeld(c, a, now) then LeaseRefusal(a, id, lease)
    else if action != Start then TaskControlNotGranted
    else if id in a.tombstoneSet then ControlReplay
    else Accepted
  }

  function TaskGranted(a: Arb, id: Identity, minted: string): Arb {
    TeleopCleared(a).(identity := id, taskLease := minted, motionTime := None)
  }

  /** What an accepted task control changes: a lease is granted, renewed, or ended and remembered. */
  function TaskChanged(c: Config, a: Arb, action: TaskAction, now: real, id: Identity, minted: string): Arb {
    if action == Start || action == Keepalive then
      (if TaskHeld(c, a, now) then a else TaskGranted(a, id, minted)).(taskTime := Some(now))
    else TaskCleared(Remembered(c, a))
  }

  function TaskControl(c: Config, a: Arb, action: TaskAction, now: real, id: Identity, lease: string, minted: string)
    : (Arb, Reason)
  {
    var b := Refreshed(c, a, now);
    var verdict := TaskControlVerdict(c, b, action, now, id, lease);
    if verdict != Accepted then (TaskNoted(b, action, id, verdict), verdict)
    else
      (Refreshed(c, TaskNoted(TaskChanged(c, b, action, now, id, minted), action, id, Accepted), now), Accepted)
  }

  /** A start that the manager refused before it reached the lease machine. */
  function TaskControlRefused(c: Config, a: Arb, action: TaskAction, now: real, id: Identity, reason: Reason)
    : (Arb, Reason)
    requires reason != Accepted
  {
    (TaskNoted(Refreshed(c, a, now), action, id, reason), reason)
  }

  function Validation(c: Config, a: Arb, now: real, id: Identity, lease: string): (Arb, Reason) {
    var b := Refreshed(c, a, now);
    (b,
     if b.estop then Estop
     else if !TaskHeld(c, b, now) then TaskControlNotGranted
     else if id.task == "" then TaskIdRequired
     else if id.trace == "" then TraceIdRequired
     else if id.session == "" then SessionIdRequired
     else LeaseRefusal(b, id, lease))
  }

  // ---------------------------------------------------------------- teleop control and e-stop

  function TeleopControlVerdict(c: Config, a: Arb, action: TeleopAction, now: real, requester: string, lease: string)
    : Reason
  {
    match action
    case OtherTeleopAction => UnsupportedTeleopAction
    case Claim =>
      if a.estop then Estop
      else if TaskHeld(c, a, now) then TaskIsActive
      else if TeleopHeld(c, a, now) && requester != a.teleopHolder then TeleopHeldByOther
      else Accepted
    case _ =>
      if !TeleopHeld(c, a, now) then TeleopNotGranted
      else if requester != a.teleopHolder then TeleopNotHolder
      else if lease != "" && lease != a.teleopLease then TeleopLeaseMismatch
      else Accepted
  }

  /** What an accepted teleop control changes: the lease is claimed, refreshed or dropped. */
  function TeleopChanged(c: Config, a: Arb, action: TeleopAction, now: real, requester: string, minted: string): Arb {
    match action
    case Release => TeleopCleared(a)
    case Claim =>
      a.(teleopHolder := requester,
         teleopLease := if TeleopHeld(c, a, now) && a.teleopLease != "" then a.teleopLease else minted,
         teleopTime := Some(now))
    case _ => a.(teleopTime := Some(now))
  }

  function TeleopControl(
      c: Config, a: Arb, action: TeleopAction, now: real, requester: string, lease: string, minted: string)
    : (Arb, Reason)
  {
    var b := Refreshed(c, a, now);
    var verdict := TeleopControlVerdict(c, b, action, now, requester, lease);
    if verdict != Accepted then (b, verdict)
    else
      (Refreshed(c, TeleopChanged(c, b, action, now, requester, minted), now), Accepted)
  }

  /** A task lease in force is remembered and noted as stopped. */
  function TaskStopped(c: Config, a: Arb, now: real): Arb {
    if TaskHeld(c, a, now) then
      Remembered(c, a).(lastAction := Stopped, lastIdentity := a.identity, lastAccepted := false, lastReason := Estop)
    else a
  }

  function EstopSet(c: Config, a: Arb, active: bool, now: real): Arb {
    var b := TaskExpired(c, a, now);
    var d :=
      if !active then b.(estop := false)
      else TeleopCleared(TaskCleared(TaskStopped(c, b, now))).(estop := true, motionTime := None);
    Refreshed(c, d, now)
  }

  // ---------------------------------------------------------------- one call

  datatype Call =
    | CommandCall(source: Source, now: real, requester: string, lease: string)
    | CommandRefusedCall(source: Source, now: real)
    | TaskCall(action: TaskAction, now: real, id: Identity, lease: string, minted: string)
    | TaskRefusedCall(action: TaskAction, now: real, id: Identity)
    | ValidateCall(now: real, id: Identity, lease: string)
    | TeleopCall(teleop: TeleopAction, now: real, requester: string, lease: string, minted: string)
    | EstopCall(active: bool, now: real)
    | TickCall(now: real)

  function Do(c: Config, a: Arb, call: Call): (Arb, Reason) {
    match call
    case CommandCall(source, now, requester, lease) => Command(c, a, source, now, requester, lease)
    case CommandRefusedCall(_, now) => (Refreshed(c, a, now), StopPending)
    case TaskCall(action, now, id, lease, minted) => TaskControl(c, a, action, now, id, lease, minted)
    case TaskRefusedCall(action, now, id) => TaskControlRefused(c, a, action, now, id, TaskStopPending)
    case ValidateCall(now, id, lease) => Validation(c, a, now, id, lease)
    case TeleopCall(teleop, now, requester, lease, minted) => TeleopControl(c, a, teleop, now, requester, lease, minted)
    case EstopCall(active, now) => (EstopSet(c, a, active, now), Accepted)
    case TickCall(now) => (Refreshed(c, a, now), Accepted)
  }
}
