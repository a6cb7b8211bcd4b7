/** The mutable arbitrator object, method by method, proved against `Arbitration`.  Its ghost history of calls ties it
    to what `LeaseRuns` proves of every run. */
module Arbitrator {
  import opened Options
  import opened Arbitration
  import opened LeaseRuns

  lemma OneMoreCall(c: Config, calls: seq<Call>, call: Call)
    ensures After(c, calls + [call]) == Do(c, After(c, calls), call).0
    ensures Verdict(c, calls + [call], |calls|) == Do(c, After(c, calls), call).1
  {
    hide Do;
    assert (calls + [call])[..|calls|] == calls;
  }

  /** Each entry point is one kind of call. */
  lemma WhatACallDoes(c: Config, a: Arb, call: Call)
    ensures Do(c, a, call) ==
              match call
              case CommandCall(source, now, requester, lease) => Command(c, a, source, now, requester, lease)
              case TaskCall(action, now, id, lease, minted) => TaskControl(c, a, action, now, id, lease, minted)
              case ValidateCall(now, id, lease) => Validation(c, a, now, id, lease)
              case TeleopCall(teleop, now, requester, lease, minted) =>
                TeleopControl(c, a, teleop, now, requester, lease, minted)
              case EstopCall(active, now) => (EstopSet(c, a, active, now), Accepted)
              case TickCall(now) => (Refreshed(c, a, now), Accepted)
              case CommandRefusedCall(_, now) => (Refreshed(c, a, now), StopPending)
              case TaskRefusedCall(action, now, id) => TaskControlRefused(c, a, action, now, id, TaskStopPending)
  {}

  class CommandArbitrator {
    const config: Config
    var mode: Mode
    var estop: bool
    var teleopHolder: string
    var teleopLease: string
    var teleopTime: Option<real>
    var identity: Identity
    var taskLease: string
    var taskTime: Option<real>
    var tombstones: seq<Identity>
    var tombstoneSet: set<Identity>
    var motionTime: Option<real>
    var lastAction: LastAction
    var lastIdentity: Identity
    var lastAccepted: bool
    var lastReason: Reason
    ghost var calls: seq<Call>

    function Value(): Arb
      reads this
    {
      Arb(mode, estop, teleopHolder, teleopLease, teleopTime, identity, taskLease, taskTime,
          tombstones, tombstoneSet, motionTime, lastAction, lastIdentity, lastAccepted, lastReason)
    }

    /** The object is what its calls make of the initial arbitrator. */
    ghost predicate Valid()
      reads this
    {
      config.Valid() && Value() == After(config, calls)
    }

    constructor (teleopTimeout: real, motionTimeout: real, taskTimeout: real, tombstoneLimit: int)
      ensures Valid() && Value() == INITIAL && calls == []
      ensures config.teleopTimeout == (if teleopTimeout < 0.0 then 0.0 else teleopTimeout)
      ensures config.motionTimeout == (if motionTimeout < 0.0 then 0.0 else motionTimeout)
      ensures config.taskTimeout == (if taskTimeout < 0.0 then 0.0 else taskTimeout)
      ensures config.tombstoneLimit == (if tombstoneLimit < 1 then 1 else tombstoneLimit)
    {
      config := Config(if teleopTimeout < 0.0 then 0.0 else teleopTimeout,
                       if motionTimeout < 0.0 then 0.0 else motionTimeout,
                       if taskTimeout < 0.0 then 0.0 else taskTimeout,
                       if tombstoneLimit < 1 then 1 else tombstoneLimit);
      mode, estop := Idle, false;
      teleopHolder, teleopLease, teleopTime := "", "", None;
      identity, taskLease, taskTime := NOBODY, "", None;
      tombstones, tombstoneSet, motionTime := [], {}, None;
      lastAction, lastIdentity, lastAccepted, lastReason := NoAction, NOBODY, false, NoReason;
      calls := [];
    }

    method RememberTaskIdentity()
      modifies this
      ensures calls == old(calls)
      ensures Value() == Remembered(config, old(Value()))
    {
      if !identity.Complete() || identity in tombstoneSet {
        return;
      }
      if |tombstones| >= config.tombstoneLimit && tombstones != [] {
        var expired := tombstones[0];
        tombstones := tombstones[1..];
        tombstoneSet := tombstoneSet - {expired};
      }
      tombstones := tombstones + [identity];
      tombstoneSet := tombstoneSet + {identity};
    }

    method ClearTaskControl()
      modifies this
      ensures calls == old(calls)
      ensures Value() == TaskCleared(old(Value()))
    {
      taskLease, taskTime := "", None;
    }

    method ClearTeleopControl()
      modifies this
      ensures calls == old(calls)
      ensures Value() == TeleopCleared(old(Value()))
    {
      teleopTime, teleopHolder, teleopLease := None, "", "";
    }

    method ClearExpiredTaskControl(now: real)
      modifies this
      ensures calls == old(calls)
      ensures Value() == TaskExpired(config, old(Value()), now)
    {
      if taskTime.None? || now - taskTime.value <= config.taskTimeout {
        return;
      }
      RememberTaskIdentity();
      ClearTaskControl();
      lastAction, lastIdentity, lastAccepted, lastReason := TimedOut, identity, false, LeaseExpired;
    }

    method RefreshMode(now: real)
      modifies this
      ensures calls == old(calls)
      ensures Value() == Refreshed(config, old(Value()), now)
    {
      ClearExpiredTaskControl(now);
      if teleopTime.Some? && now - teleopTime.value > config.teleopTimeout {
        ClearTeleopControl();
      }
      if estop {
        mode := EstopMode;
      } else if TaskHeld(config, Value(), now) {
        mode := TaskActive;
      } else if TeleopHeld(config, Value(), now) {
        mode := TeleopActive;
      } else if Within(motionTime, now, config.motionTimeout) {
        mode := MotionActive;
      } else {
        mode := Idle;
      }
    }

    /** The periodic refresh; taking a snapshot does the same to the state. */
    method Tick(now: real)
      requires Valid()
      modifies this
      ensures Valid() && calls == old(calls) + [TickCall(now)]
      ensures Value() == Refreshed(config, old(Value()), now)
    {
      hide After, Do;
      calls := calls + [TickCall(now)];
      OneMoreCall(config, old(calls), calls[|calls| - 1]);
      WhatACallDoes(config, Value(), calls[|calls| - 1]);
      RefreshMode(now);
    }

    method ReceiveCommand(source: Source, now: real, requester: string, lease: string) returns (verdict: Reason)
      requires Valid()
      modifies this
      ensures Valid() && calls == old(calls) + [CommandCall(source, now, requester, lease)]
      ensures verdict == Verdict(config, calls, |old(calls)|)
      ensures (Value(), verdict) == Command(config, old(Value()), source, now, requester, lease)
    {
      hide After, Verdict, Do, Refreshed, TaskHeld, TeleopHeld, TaskCommandRefusal;
      calls := calls + [CommandCall(source, now, requester, lease)];
      OneMoreCall(config, old(calls), calls[|calls| - 1]);
      WhatACallDoes(config, Value(), calls[|calls| - 1]);
      RefreshMode(now);
      if estop {
        return Estop;
      }
      if source == Task {
        verdict := TaskCommandRefusal(config, Value(), now, requester, lease);
        if verdict != Accepted {
          return;
        }
      }
      if source == Teleop {
        if TaskHeld(config, Value(), now) {
          return TaskIsActive;
        }
        if !TeleopHeld(config, Value(), now) {
          return TeleopNotGranted;
        }
        if requester == "" {
          return TeleopRequesterRequired;
        }
        if requester != teleopHolder {
          return TeleopNotHolder;
        }
        if teleopLease != "" && lease == "" {
          return TeleopLeaseRequired;
        }
        if lease != teleopLease {
          return TeleopLeaseMismatch;
        }
      }
      if source == Motion {
        if TaskHeld(config, Value(), now) {
          return TaskIsActive;
        }
        if TeleopHeld(config, Value(), now) {
          return TeleopIsActive;
        }
        motionTime := Some(now);
      }
      RefreshMode(now);
      return Accepted;
    }

    method RejectCommand(source: Source, now: real) returns (verdict: Reason)
      requires Valid()
      modifies this
      ensures Valid() && calls == old(calls) + [CommandRefusedCall(source, now)]
      ensures verdict == Verdict(config, calls, |old(calls)|)
      ensures (Value(), verdict) == Do(config, old(Value()), CommandRefusedCall(source, now))
    {
      hide After, Verdict, Do, Refreshed;
      calls := calls + [CommandRefusedCall(source, now)];
      OneMoreCall(config, old(calls), calls[|calls| - 1]);
      WhatACallDoes(config, Value(), calls[|calls| - 1]);
      RefreshMode(now);
      return StopPending;
    }

    method NoteTaskControl(action: TaskAction, id: Identity, verdict: Reason)
      modifies this
      ensures calls == old(calls)
      ensures Value() == TaskNoted(old(Value()), action, id, verdict)
    {
      lastAction, lastIdentity := Requested(action), id;
      lastAccepted := verdict == Accepted;
      lastReason := verdict;
    }

    method JudgeTaskControl(action: TaskAction, now: real, id: Identity, lease: string) returns (verdict: Reason)
      ensures verdict == TaskControlVerdict(config, Value(), action, now, id, lease)
    {
      if action == OtherTaskAction {
        return UnsupportedTaskAction;
      }
      if id.task == "" {
        return TaskIdRequired;
      }
      if id.trace == "" {
        return TraceIdRequired;
      }
      if id.session == "" {
        return SessionIdRequired;
      }
      if estop {
        return Estop;
      }
      if TaskHeld(config, Value(), now) {
        return LeaseRefusal(Value(), id, lease);
      }
      if action != Start {
        return TaskControlNotGranted;
      }
      if id in tombstoneSet {
        return ControlReplay;
      }
      return Accepted;
    }

    method GrantOrRenew(now: real, id: Identity, minted: string)
      modifies this
      ensures calls == old(calls)
      ensures var a := old(Value());
              Value() == (if TaskHeld(config, a, now) then a else TaskGranted(a, id, minted)).(taskTime := Some(now))
    {
      if !TaskHeld(config, Value(), now) {
        identity, taskLease := id, minted;
        ClearTeleopControl();
        motionTime := None;
      }
      taskTime := Some(now);
    }

    method ReceiveTaskControl(action: TaskAction, now: real, id: Identity, lease: string, minted: string)
      returns (verdict: Reason)
      requires Valid()
      modifies this
      ensures Valid() && calls == old(calls) + [TaskCall(action, now, id, lease, minted)]
      ensures verdict == Verdict(config, calls, |old(calls)|)
      ensures (Value(), verdict) == TaskControl(config, old(Value()), action, now, id, lease, minted)
    {
      hide After, Verdict, Do;
      calls := calls + [TaskCall(action, now, id, lease, minted)];
      OneMoreCall(config, old(calls), calls[|calls| - 1]);
      WhatACallDoes(config, Value(), calls[|calls| - 1]);
      hide Refreshed, Remembered, TaskControlVerdict;
      RefreshMode(now);
      verdict := JudgeTaskControl(action, now, id, lease);
      if verdict != Accepted {
        NoteTaskControl(action, id, verdict);
        return;
      }
      if action == Start || action == Keepalive {
        GrantOrRenew(now, id, minted);
      } else {
        RememberTaskIdentity();
        ClearTaskControl();
      }
      NoteTaskControl(action, id, Accepted);
      RefreshMode(now);
    }

    method RejectTaskControl(action: TaskAction, now: real, id: Identity) returns (verdict: Reason)
      requires Valid()
      modifies this
      ensures Valid() && calls == old(calls) + [TaskRefusedCall(action, now, id)]
      ensures verdict == Verdict(config, calls, |old(calls)|)
      ensures (Value(), verdict) == Do(config, old(Value()), TaskRefusedCall(action, now, id))
    {
      hide After, Verdict, Do, Refreshed;
      calls := calls + [TaskRefusedCall(action, now, id)];
      OneMoreCall(config, old(calls), calls[|calls| - 1]);
      WhatACallDoes(config, Value(), calls[|calls| - 1]);
      RefreshMode(now);
      verdict := TaskStopPending;
      NoteTaskControl(action, id, verdict);
    }

    method ValidateTaskOperation(now: real, id: Identity, lease: string) returns (verdict: Reason)
      requires Valid()
      modifies this
      ensures Valid() && calls == old(calls) + [ValidateCall(now, id, lease)]
      ensures verdict == Verdict(config, calls, |old(calls)|)
      ensures (Value(), verdict) == Validation(config, old(Value()), now, id, lease)
    {
      hide After, Verdict, Do;
      calls := calls + [ValidateCall(now, id, lease)];
      OneMoreCall(config, old(calls), calls[|calls| - 1]);
      WhatACallDoes(config, Value(), calls[|calls| - 1]);
      RefreshMode(now);
      if estop {
        verdict := Estop;
      } else if !TaskHeld(config, Value(), now) {
        verdict := TaskControlNotGranted;
      } else if id.task == "" {
        verdict := TaskIdRequired;
      } else if id.trace == "" {
        verdict := TraceIdRequired;
      } else if id.session == "" {
        verdict := SessionIdRequired;
      } else {
        verdict := LeaseRefusal(Value(), id, lease);
      }
    }

    method TakeTeleop(now: real, requester: string, minted: string)
      modifies this
      ensures calls == old(calls)
      ensures var a := old(Value());
              Value() == a.(
                teleopHolder := requester,
                teleopLease := if TeleopHeld(config, a, now) && a.teleopLease != "" then a.teleopLease else minted,
                teleopTime := Some(now))
    {
      teleopHolder := requester;
      if !TeleopHeld(config, Value(), now) || teleopLease == "" {
        teleopLease := minted;
      }
      teleopTime := Some(now);
    }

    method JudgeTeleopControl(action: TeleopAction, now: real, requester: string, lease: string)
      returns (verdict: Reason)
      ensures verdict == TeleopControlVerdict(config, Value(), action, now, requester, lease)
    {
      if action == OtherTeleopAction {
        return UnsupportedTeleopAction;
      }
      if action == Claim {
        if estop {
          return Estop;
        }
        if TaskHeld(config, Value(), now) {
          return TaskIsActive;
        }
        if TeleopHeld(config, Value(), now) && requester != teleopHolder {
          return TeleopHeldByOther;
        }
        return Accepted;
      }
      if !TeleopHeld(config, Value(), now) {
        return TeleopNotGranted;
      }
      if requester != teleopHolder {
        return TeleopNotHolder;
      }
      if lease != "" && lease != teleopLease {
        return TeleopLeaseMismatch;
      }
      return Accepted;
    }

    method ReceiveTeleopControl(action: TeleopAction, now: real, requester: string, lease: string, minted: string)
      returns (verdict: Reason)
      requires Valid()
      modifies this
      ensures Valid() && calls == old(calls) + [TeleopCall(action, now, requester, lease, minted)]
      ensures verdict == Verdict(config, calls, |old(calls)|)
      ensures (Value(), verdict) == TeleopControl(config, old(Value()), action, now, requester, lease, minted)
    {
      hide After, Verdict, Do, Refreshed, TeleopHeld, TeleopControlVerdict;
      calls := calls + [TeleopCall(action, now, requester, lease, minted)];
      OneMoreCall(config, old(calls), calls[|calls| - 1]);
      WhatACallDoes(config, Value(), calls[|calls| - 1]);
      RefreshMode(now);
      verdict := JudgeTeleopControl(action, now, requester, lease);
      if verdict != Accepted {
        return;
      }
      if action == Claim {
        TakeTeleop(now, requester, minted);
      } else if action == Release {
        ClearTeleopControl();
      } else {
        teleopTime := Some(now);
      }
      RefreshMode(now);
    }

    method DropEveryLease(now: real)
      modifies this
      ensures calls == old(calls)
      ensures var a := old(Value());
              Value() == TeleopCleared(TaskCleared(TaskStopped(config, a, now))).(motionTime := None)
    {
      if TaskHeld(config, Value(), now) {
        RememberTaskIdentity();
        lastAction, lastIdentity, lastAccepted, lastReason := Stopped, identity, false, Estop;
      }
      ClearTaskControl();
      ClearTeleopControl();
      motionTime := None;
    }

    method SetEstop(active: bool, now: real)
      requires Valid()
      modifies this
      ensures Valid() && calls == old(calls) + [EstopCall(active, now)]
      ensures Value() == EstopSet(config, old(Value()), active, now)
    {
      hide After, Verdict, Do, Refreshed, Remembered, TaskExpired, TaskHeld;
      calls := calls + [EstopCall(active, now)];
      OneMoreCall(config, old(calls), calls[|calls| - 1]);
      WhatACallDoes(config, Value(), calls[|calls| - 1]);
      ClearExpiredTaskControl(now);
      if active {
        DropEveryLease(now);
      }
      estop := active;
      RefreshMode(now);
    }
  }
}
