/** What the execution manager does inside each region it runs under its arbitrator lock.

    A coroutine of the manager is a chain of these regions with awaits between them; `StopProtocol` interleaves them. */
module StopRegions {
  import opened Options
  import opened Arbitration

  datatype FaultReason = StopTimeout | StopFailed | ReleaseUnavailable | ReleaseFailed | ReleaseTimeout

  /** The manager's own bookkeeping: the arbitrator, the bus servos it knows, and the stop-operation tokens. */
  datatype Books = Books(
    arb: Arb,
    known: set<int>,
    nextOp: nat,
    active: set<nat>,
    fault: Option<FaultReason>,
    lastStamp: int)

  const EMPTY_BOOKS := Books(INITIAL, {}, 1, {}, None, 0)

  /** An authority stamp: the clock, pushed past every stamp given out before. */
  function NextStamp(b: Books, now: int): int {
    if now > b.lastStamp then now else b.lastStamp + 1
  }

  function Stamped(b: Books, now: int): Books {
    b.(lastStamp := NextStamp(b, now))
  }

  function Registered(b: Books): Books {
    b.(active := b.active + {b.nextOp}, nextOp := b.nextOp + 1)
  }

  function Discarded(b: Books, op: nat): Books {
    b.(active := b.active - {op})
  }

  function Looked(c: Config, b: Books, at: real): Books {
    b.(arb := Refreshed(c, b.arb, at))
  }

  /** A command from one of the three entrances; the verdict says whether it is forwarded. */
  function CommandRegion(c: Config, b: Books, source: Source, at: real, requester: string, lease: string, servo: int)
    : (Books, Reason)
  {
    var (arb, verdict) :=
      Do(c, b.arb, if b.active != {} then CommandRefusedCall(source, at)
                   else CommandCall(source, at, requester, lease));
    (b.(arb := arb, known := if verdict == Accepted then b.known + {servo} else b.known), verdict)
  }

  function TaskControlRegion(
      c: Config, b: Books, action: TaskAction, at: real, id: Identity, lease: string, minted: string): (Books, Reason)
  {
    var (arb, verdict) :=
      Do(c, b.arb, if action == Start && b.active != {} then TaskRefusedCall(action, at, id)
                   else TaskCall(action, at, id, lease, minted));
    (b.(arb := arb), verdict)
  }

  function TeleopControlRegion(
      c: Config, b: Books, action: TeleopAction, at: real, requester: string, lease: string, minted: string)
    : (Books, Reason)
  {
    var (arb, verdict) := TeleopControl(c, b.arb, action, at, requester, lease, minted);
    (b.(arb := arb), verdict)
  }

  /** An e-stop; a token is taken when there are bus servos to stop. */
  function EstopRegion(c: Config, b: Books, at: real): Books {
    var stopped := b.(arb := EstopSet(c, b.arb, true, at));
    if b.known == {} then stopped else Registered(stopped)
  }

  predicate ReleaseMayBegin(b: Books) {
    b.arb.estop && b.fault.None? && b.active == {}
  }

  /** A request to lift the e-stop, honoured only when nothing else is being stopped and nothing failed. */
  function EstopReleaseRegion(c: Config, b: Books, at: real): Books {
    var looked := Looked(c, b, at);
    if ReleaseMayBegin(looked) then Registered(looked) else looked
  }

  /** A stop service call, allowed to the holder of the task lease. */
  function BeginStopRegion(c: Config, b: Books, at: real, id: Identity, lease: string): (Books, Reason) {
    var (arb, verdict) := Validation(c, b.arb, at, id, lease);
    var judged := b.(arb := arb);
    (if verdict == Accepted then Registered(judged) else judged, verdict)
  }

  predicate SomethingElseStops(b: Books, op: nat) {
    b.active - {op} != {} || b.fault.Some? || b.arb.estop
  }

  /** After the stop was written: drop the token quietly, or keep it and ask the drivers to release. */
  function FinishRegion(c: Config, b: Books, op: nat, at: real): Books {
    var looked := Looked(c, b, at);
    if SomethingElseStops(looked, op) then Discarded(looked, op) else looked
  }

  /** The drivers acknowledged the release that a stop operation asked for. */
  function ReleasedRegion(c: Config, b: Books, op: nat, at: real): Books {
    Looked(c, Discarded(b, op), at)
  }

  /** The drivers acknowledged the release that an e-stop release asked for. */
  function EstopReleasedRegion(c: Config, b: Books, op: nat, at: real): Books {
    Discarded(b.(arb := EstopSet(c, b.arb, false, at)), op)
  }

  function FaultRegion(c: Config, b: Books, op: nat, reason: FaultReason, at: real): Books {
    if op !in b.active then b else b.(fault := Some(reason), arb := EstopSet(c, b.arb, true, at))
  }
}
