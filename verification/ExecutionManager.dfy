/** The execution manager object: each locked region of its handlers, proved against `StopRegions`. */
module ExecutionManager {
  import opened Options
  import opened Arbitration
  import opened Arbitrator
  import opened StopRegions

  /** How stopping one actuator ends: what its protocol read and its stop write came to. */
  datatype StopAttempt =
    | NoService | ReadRaised | ReadTimedOut | ReadRefused
    | WriteRaised | WriteTimedOut | WriteAnswered(success: bool)

  predicate ReachesWrite(a: StopAttempt) {
    a.WriteRaised? || a.WriteTimedOut? || a.WriteAnswered?
  }

  /** Stop every actuator, whatever happened to the ones before it.  `held[k]` says whether the operation's token is
      still registered when actuator `k` is to be written; `asked` is the actuators whose stop was sent to the
      driver. */
  method StopDriverActuators(ids: seq<int>, attempts: seq<StopAttempt>, held: seq<bool>)
    returns (commandSent: bool, timedOut: bool, asked: set<nat>)
    requires |ids| == |attempts| == |held|
    ensures commandSent <==> ids != [] && forall k | 0 <= k < |ids| :: held[k] && attempts[k] == WriteAnswered(true)
    ensures forall k :: k in asked <==> 0 <= k < |ids| && held[k] && ReachesWrite(attempts[k])
    ensures timedOut <==>
              exists k :: 0 <= k < |ids| && (attempts[k].ReadTimedOut? || (held[k] && attempts[k].WriteTimedOut?))
  {
    asked, timedOut := {}, false;
    var stopped := 0;
    var k := 0;
    while k < |ids|
      invariant 0 <= stopped <= k <= |ids|
      invariant forall j :: j in asked <==> 0 <= j < k && held[j] && ReachesWrite(attempts[j])
      invariant stopped == k <==> forall j | 0 <= j < k :: held[j] && attempts[j] == WriteAnswered(true)
      invariant timedOut <==>
                  exists j :: 0 <= j < k && (attempts[j].ReadTimedOut? || (held[j] && attempts[j].WriteTimedOut?))
    {
      if attempts[k].ReadTimedOut? {
        timedOut := true;
      } else if ReachesWrite(attempts[k]) && held[k] {
        asked := asked + {k};
        timedOut := timedOut || attempts[k].WriteTimedOut?;
        if attempts[k] == WriteAnswered(true) {
          stopped := stopped + 1;
        }
      }
      k := k + 1;
    }
    commandSent := ids != [] && stopped == |ids|;
  }

  class ExecutionManagerNode {
    const arbitrator: CommandArbitrator
    var known: set<int>
    var nextOp: nat
    var active: set<nat>
    var fault: Option<FaultReason>
    var lastStamp: int

    function Value(): Books
      reads this, arbitrator
    {
      Books(arbitrator.Value(), known, nextOp, active, fault, lastStamp)
    }

    constructor (arbitrator: CommandArbitrator)
      requires arbitrator.Valid() && arbitrator.Value() == INITIAL
      ensures this.arbitrator == arbitrator && Value() == EMPTY_BOOKS
    {
      this.arbitrator := arbitrator;
      known, nextOp, active, fault, lastStamp := {}, 1, {}, None, 0;
    }

    method NextDriverSafetyStamp(now: int) returns (stamp: int)
      modifies this`lastStamp
      ensures stamp == NextStamp(old(Value()), now) && Value() == Stamped(old(Value()), now)
      ensures stamp >= now && stamp > old(lastStamp)
    {
      stamp := if now > lastStamp then now else lastStamp + 1;
      lastStamp := stamp;
    }

    method RegisterStopOperation() returns (op: nat)
      modifies this`nextOp, this`active
      ensures op == old(nextOp) && Value() == Registered(old(Value()))
    {
      op := nextOp;
      nextOp := nextOp + 1;
      active := active + {op};
    }

    /** The published move, if any, carries the manager's own clock and not the requester's stamp. */
    method HandleCommand(source: Source, at: real, now: int, requester: string, lease: string, servo: int)
      returns (published: Option<int>)
      requires arbitrator.Valid()
      modifies this, arbitrator
      ensures arbitrator.Valid()
      ensures Value() == CommandRegion(arbitrator.config, old(Value()), source, at, requester, lease, servo).0
      ensures published ==
                (if CommandRegion(arbitrator.config, old(Value()), source, at, requester, lease, servo).1 == Accepted
                 then Some(now) else None)
      ensures published.Some? ==> old(active) == {}
    {
      var verdict;
      if active != {} {
        verdict := arbitrator.RejectCommand(source, at);
      } else {
        verdict := arbitrator.ReceiveCommand(source, at, requester, lease);
      }
      if verdict == Accepted {
        known := known + {servo};
        return Some(now);
      }
      return None;
    }

    method HandleTaskControl(action: TaskAction, at: real, id: Identity, lease: string, minted: string)
      returns (verdict: Reason)
      requires arbitrator.Valid()
      modifies this, arbitrator
      ensures arbitrator.Valid()
      ensures (Value(), verdict) == TaskControlRegion(arbitrator.config, old(Value()), action, at, id, lease, minted)
    {
      hide Do, TaskControl;
      WhatACallDoes(arbitrator.config, arbitrator.Value(), TaskCall(action, at, id, lease, minted));
      if action == Start && active != {} {
        verdict := arbitrator.RejectTaskControl(action, at, id);
      } else {
        verdict := arbitrator.ReceiveTaskControl(action, at, id, lease, minted);
      }
    }

    method HandleTeleopControl(action: TeleopAction, at: real, requester: string, lease: string, minted: string)
      returns (verdict: Reason)
      requires arbitrator.Valid()
      modifies this, arbitrator
      ensures arbitrator.Valid()
      ensures (Value(), verdict) ==
                TeleopControlRegion(arbitrator.config, old(Value()), action, at, requester, lease, minted)
    {
      verdict := arbitrator.ReceiveTeleopControl(action, at, requester, lease, minted);
    }

    method BeginEstop(at: real) returns (op: Option<nat>)
      requires arbitrator.Valid()
      modifies this, arbitrator
      ensures arbitrator.Valid()
      ensures Value() == EstopRegion(arbitrator.config, old(Value()), at)
      ensures op == if old(known) == {} then None else Some(old(nextOp))
    {
      arbitrator.SetEstop(true, at);
      op := None;
      if known != {} {
        var registered := RegisterStopOperation();
        op := Some(registered);
      }
    }

    method BeginEstopRelease(at: real) returns (op: Option<nat>)
      requires arbitrator.Valid()
      modifies this, arbitrator
      ensures arbitrator.Valid()
      ensures Value() == EstopReleaseRegion(arbitrator.config, old(Value()), at)
      ensures op.Some? <==> ReleaseMayBegin(Looked(arbitrator.config, old(Value()), at))
      ensures op.Some? ==> op.value == old(nextOp) && active == {op.value}
    {
      arbitrator.Tick(at);
      op := None;
      if arbitrator.estop && fault.None? && active == {} {
        var registered := RegisterStopOperation();
        op := Some(registered);
      }
    }

    method BeginStopOperation(at: real, id: Identity, lease: string) returns (op: Option<nat>, verdict: Reason)
      requires arbitrator.Valid()
      modifies this, arbitrator
      ensures arbitrator.Valid()
      ensures (Value(), verdict) == BeginStopRegion(arbitrator.config, old(Value()), at, id, lease)
      ensures op == if verdict == Accepted then Some(old(nextOp)) else None
    {
      verdict := arbitrator.ValidateTaskOperation(at, id, lease);
      op := None;
      if verdict == Accepted {
        var registered := RegisterStopOperation();
        op := Some(registered);
      }
    }

    method FinishStopOperation(op: nat, at: real) returns (mustRelease: bool)
      requires arbitrator.Valid()
      modifies this, arbitrator
      ensures arbitrator.Valid()
      ensures Value() == FinishRegion(arbitrator.config, old(Value()), op, at)
      ensures mustRelease <==> !SomethingElseStops(Looked(arbitrator.config, old(Value()), at), op)
    {
      arbitrator.Tick(at);
      if active - {op} != {} || fault.Some? || arbitrator.estop {
        active := active - {op};
        return false;
      }
      return true;
    }

    method StopReleased(op: nat, at: real) returns (publish: bool)
      requires arbitrator.Valid()
      modifies this, arbitrator
      ensures arbitrator.Valid()
      ensures Value() == ReleasedRegion(arbitrator.config, old(Value()), op, at)
      ensures publish <==> active == {} && fault.None? && !arbitrator.estop
    {
      active := active - {op};
      arbitrator.Tick(at);
      publish := active == {} && fault.None? && !arbitrator.estop;
    }

    method EstopReleased(op: nat, at: real)
      requires arbitrator.Valid()
      modifies this, arbitrator
      ensures arbitrator.Valid()
      ensures Value() == EstopReleasedRegion(arbitrator.config, old(Value()), op, at)
    {
      arbitrator.SetEstop(false, at);
      active := active - {op};
    }

    method LatchStopFault(op: nat, reason: FaultReason, at: real) returns (latched: bool)
      requires arbitrator.Valid()
      modifies this, arbitrator
      ensures arbitrator.Valid()
      ensures Value() == FaultRegion(arbitrator.config, old(Value()), op, reason, at)
      ensures latched <==> op in old(active)
    {
      if op !in active {
        return false;
      }
      fault := Some(reason);
      arbitrator.SetEstop(true, at);
      return true;
    }
  }
}
