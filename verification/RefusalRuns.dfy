/** Every refusal names its cause: the reasons of the arbitrator in terms of the leases and the e-stop in force. */
module RefusalRuns {
  import opened Arbitration
  import opened LeaseRuns
  import opened TeleopRuns

  lemma AnswersWhenHeld(c: Config, a: Arb, call: Call)
    requires c.Valid() && Sane(c, a) && TaskHeld(c, a, call.now)
    ensures var v := Do(c, a, call).1;
            && (call.CommandCall? && call.source == Task ==>
                  && (v == TaskRequesterRequired <==> call.requester == "")
                  && (v == TaskNotHolder <==> call.requester != "" && call.requester != a.identity.task)
                  && (v == TaskLeaseRequired <==> call.requester == a.identity.task && call.lease == "")
                  && (v == TaskLeaseMismatch <==>
                        call.requester == a.identity.task && call.lease != "" && call.lease != a.taskLease))
            && (call.CommandCall? && call.source != Task ==> v == TaskIsActive)
            && (call.TeleopCall? && call.teleop == Claim ==> v == TaskIsActive)
  {
    RefreshEffect(c, a, call.now);
    RefreshedStaysSane(c, a, call.now);
    hide Refreshed;
  }

  lemma LeaseUseAnswersWhenHeld(c: Config, a: Arb, call: Call)
    requires c.Valid() && Sane(c, a) && TaskHeld(c, a, call.now) && AsksTheLease(call) && call.id.Complete()
    ensures var v := Do(c, a, call).1;
            && (v == HeldByOtherTask <==> call.id.task != a.identity.task)
            && (v == TraceMismatch <==> call.id.task == a.identity.task && call.id.trace != a.identity.trace)
            && (v == SessionMismatch <==>
                  && call.id.task == a.identity.task && call.id.trace == a.identity.trace
                  && call.id.session != a.identity.session)
            && (v == TaskLeaseRequired <==> call.id == a.identity && call.lease == "")
            && (v == TaskLeaseMismatch <==> call.id == a.identity && call.lease != "" && call.lease != a.taskLease)
  {
    RefreshEffect(c, a, call.now);
    RefreshedStaysSane(c, a, call.now);
    hide Refreshed;
  }

  lemma InForceIsStored(c: Config, calls: seq<Call>, i: nat, j: nat)
    requires c.Valid() && i < j < |calls| && Lease(c, calls, i, j) && InTime(c, calls, i, j)
    ensures calls[i].TaskCall? && Sane(c, StateAt(c, calls, j))
    ensures var a := StateAt(c, calls, j);
            TaskHeld(c, a, calls[j].now) && a.identity == calls[i].id && a.taskLease == calls[i].minted
  {
    hide StateAt, Do;
    var r := LeaseIsStored(c, calls, i, j);
    StepFacts(c, calls, j);
    assert TaskLeaseInForce(c, calls, j);
    HeldMeansInForce(c, calls, j);
  }

  /** Against the lease minted at call `i`, a task command is refused for its requester or for its lease, whichever is
      wrong first; teleop and motion commands and claims are refused because a task is active. */
  lemma CommandRefusalNamesItsCause(c: Config, calls: seq<Call>, i: nat, j: nat)
    requires c.Valid() && i < j < |calls| && Lease(c, calls, i, j) && InTime(c, calls, i, j)
    ensures calls[i].TaskCall?
    ensures var v, call, task, lease := Verdict(c, calls, j), calls[j], calls[i].id.task, calls[i].minted;
            && (call.CommandCall? && call.source == Task ==>
                  && (v == TaskRequesterRequired <==> call.requester == "")
                  && (v == TaskNotHolder <==> call.requester != "" && call.requester != task)
                  && (v == TaskLeaseRequired <==> call.requester == task && call.lease == "")
                  && (v == TaskLeaseMismatch <==> call.requester == task && call.lease != "" && call.lease != lease))
            && (call.CommandCall? && call.source != Task ==> v == TaskIsActive)
            && (call.TeleopCall? && call.teleop == Claim ==> v == TaskIsActive)
  {
    InForceIsStored(c, calls, i, j);
    hide StateAt, Do, Sane;
    AnswersWhenHeld(c, StateAt(c, calls, j), calls[j]);
  }

  /** Against the lease minted at call `i`, a complete task control or validation is refused for the first of
      task, trace, session and lease that differs. */
  lemma LeaseRefusalNamesItsCause(c: Config, calls: seq<Call>, i: nat, j: nat)
    requires c.Valid() && i < j < |calls| && Lease(c, calls, i, j) && InTime(c, calls, i, j)
    requires AsksTheLease(calls[j]) && calls[j].id.Complete()
    ensures calls[i].TaskCall?
    ensures var v, id, lease := Verdict(c, calls, j), calls[j].id, calls[j].lease;
            && (v == HeldByOtherTask <==> id.task != calls[i].id.task)
            && (v == TraceMismatch <==> id.task == calls[i].id.task && id.trace != calls[i].id.trace)
            && (v == SessionMismatch <==>
                  id.task == calls[i].id.task && id.trace == calls[i].id.trace && id.session != calls[i].id.session)
            && (v == TaskLeaseRequired <==> id == calls[i].id && lease == "")
            && (v == TaskLeaseMismatch <==> id == calls[i].id && lease != "" && lease != calls[i].minted)
  {
    InForceIsStored(c, calls, i, j);
    hide StateAt, Do, Sane;
    LeaseUseAnswersWhenHeld(c, StateAt(c, calls, j), calls[j]);
  }

  lemma AnswersWhenFree(c: Config, a: Arb, call: Call)
    requires c.Valid() && Sane(c, a) && !TaskHeld(c, a, call.now) && !a.estop
    ensures var v := Do(c, a, call).1;
            && (call.CommandCall? && call.source == Task ==> v == TaskControlNotGranted)
            && (call.CommandCall? && call.source == Motion ==> (v == TeleopIsActive <==> v != Accepted))
            && (call.CommandCall? && call.source == Teleop ==> (v == TeleopNotGranted <==> !TeleopHeld(c, a, call.now)))
            && (call.ValidateCall? ==> v == TaskControlNotGranted)
            && (call.TaskCall? && call.action != OtherTaskAction && call.id.Complete() ==>
                  && (call.action != Start ==> v == TaskControlNotGranted)
                  && (call.action == Start ==> v == Accepted || v == ControlReplay))
  {
    RefreshEffect(c, a, call.now);
    TeleopAfterRefresh(c, a, call.now);
    hide Refreshed;
  }

  /** With no task lease and no e-stop in force, task commands, validations and controls are refused as not
      granted, except a start, which is refused only as a replay; motion is refused only for an active teleop. */
  lemma RefusalWithoutALease(c: Config, calls: seq<Call>, j: nat)
    requires c.Valid() && j < |calls| && !TaskLeaseInForce(c, calls, j) && !EstopInForce(calls, j)
    ensures var v, call := Verdict(c, calls, j), calls[j];
            && (call.CommandCall? && call.source == Task ==> v == TaskControlNotGranted)
            && (call.CommandCall? && call.source == Motion ==> (v == TeleopIsActive <==> v != Accepted))
            && (call.CommandCall? && call.source == Teleop ==>
                  (v == TeleopNotGranted <==> !exists i :: TeleopInForce(c, calls, i, j)))
            && (call.ValidateCall? ==> v == TaskControlNotGranted)
            && (call.TaskCall? && call.action != OtherTaskAction && call.id.Complete() ==>
                  && (call.action != Start ==> v == TaskControlNotGranted)
                  && (call.action == Start ==> v == Accepted || v == ControlReplay))
  {
    hide StateAt, Do, Sane, LeaseEffect, TombstoneEffect, TaskHeld, TeleopHeld;
    StepFacts(c, calls, j);
    HeldMeansInForce(c, calls, j);
    TeleopHeldIsInForce(c, calls, j);
    EstopIsTheLastCall(c, calls, j);
    AnswersWhenFree(c, StateAt(c, calls, j), calls[j]);
  }

  lemma AnswersUnderEstop(c: Config, a: Arb, call: Call)
    requires c.Valid() && Sane(c, a) && a.estop
    ensures var v := Do(c, a, call).1;
            && (call.CommandCall? || call.ValidateCall? ==> v == Estop)
            && (call.TeleopCall? && call.teleop == Claim ==> v == Estop)
            && (call.TaskCall? && call.action != OtherTaskAction && call.id.Complete() ==> v == Estop)
  {
    RefreshEffect(c, a, call.now);
    hide Refreshed, Sane;
  }

  /** Under an e-stop commands, validations, claims and complete task controls are refused because of it. */
  lemma RefusalUnderEstop(c: Config, calls: seq<Call>, j: nat)
    requires c.Valid() && j < |calls| && EstopInForce(calls, j)
    ensures var v, call := Verdict(c, calls, j), calls[j];
            && (call.CommandCall? || call.ValidateCall? ==> v == Estop)
            && (call.TeleopCall? && call.teleop == Claim ==> v == Estop)
            && (call.TaskCall? && call.action != OtherTaskAction && call.id.Complete() ==> v == Estop)
  {
    hide StateAt, Do, Sane, LeaseEffect, TombstoneEffect;
    StepFacts(c, calls, j);
    EstopIsTheLastCall(c, calls, j);
    AnswersUnderEstop(c, StateAt(c, calls, j), calls[j]);
  }

  /** An incomplete task control is refused for the first part of its identity that is missing. */
  lemma IncompleteControlIsRefused(c: Config, calls: seq<Call>, j: nat)
    requires j < |calls| && calls[j].TaskCall? && calls[j].action != OtherTaskAction
    ensures var v, id := Verdict(c, calls, j), calls[j].id;
            && (v == TaskIdRequired <==> id.task == "")
            && (v == TraceIdRequired <==> id.task != "" && id.trace == "")
            && (v == SessionIdRequired <==> id.task != "" && id.trace != "" && id.session == "")
  {
    hide Refreshed, StateAt;
  }

  lemma AnswersWhenTeleopHeld(c: Config, a: Arb, call: Call)
    requires c.Valid() && Sane(c, a) && TeleopHeld(c, a, call.now)
    ensures var v := Do(c, a, call).1;
            && (call.CommandCall? && call.source == Teleop ==>
                  && (v == TeleopRequesterRequired <==> call.requester == "")
                  && (v == TeleopNotHolder <==> call.requester != "" && call.requester != a.teleopHolder)
                  && (v == TeleopLeaseRequired <==>
                        call.requester == a.teleopHolder != "" && call.lease == "" && a.teleopLease != "")
                  && (v == TeleopLeaseMismatch <==>
                        && call.requester == a.teleopHolder != "" && call.lease != a.teleopLease
                        && (call.lease != "" || a.teleopLease == "")))
            && (call.TeleopCall? && call.teleop == Claim ==>
                  (v == TeleopHeldByOther <==> call.requester != a.teleopHolder))
            && (call.TeleopCall? && (call.teleop == Refresh || call.teleop == Release) ==>
                  && (v == TeleopNotHolder <==> call.requester != a.teleopHolder)
                  && (v == TeleopLeaseMismatch <==>
                        call.requester == a.teleopHolder && call.lease != "" && call.lease != a.teleopLease))
  {
    RefreshEffect(c, a, call.now);
    TeleopAfterRefresh(c, a, call.now);
    hide Refreshed;
  }

  /** Against the teleop lease claimed at call `i`, a teleop command or control is refused for its requester or for its
      lease, whichever is wrong first. */
  lemma TeleopRefusalNamesItsCause(c: Config, calls: seq<Call>, i: nat, j: nat)
    requires c.Valid() && j < |calls| && TeleopInForce(c, calls, i, j)
    ensures var v, call, claimant, lease := Verdict(c, calls, j), calls[j], calls[i].requester, calls[i].minted;
            && (call.CommandCall? && call.source == Teleop ==>
                  && (v == TeleopRequesterRequired <==> call.requester == "")
                  && (v == TeleopNotHolder <==> call.requester != "" && call.requester != claimant)
                  && (v == TeleopLeaseRequired <==> call.requester == claimant != "" && call.lease == "" && lease != "")
                  && (v == TeleopLeaseMismatch <==>
                        && call.requester == claimant != "" && call.lease != lease
                        && (call.lease != "" || lease == "")))
            && (call.TeleopCall? && call.teleop == Claim ==> (v == TeleopHeldByOther <==> call.requester != claimant))
            && (call.TeleopCall? && (call.teleop == Refresh || call.teleop == Release) ==>
                  && (v == TeleopNotHolder <==> call.requester != claimant)
                  && (v == TeleopLeaseMismatch <==>
                        call.requester == claimant && call.lease != "" && call.lease != lease))
  {
    hide StateAt, Do, Sane, LeaseEffect, TombstoneEffect;
    StepFacts(c, calls, j);
    TeleopHeldIsInForce(c, calls, j);
    AnswersWhenTeleopHeld(c, StateAt(c, calls, j), calls[j]);
  }

  /** With no teleop lease in force, a keepalive or release is refused as not granted. */
  lemma TeleopRefusalWithoutALease(c: Config, calls: seq<Call>, j: nat)
    requires c.Valid() && j < |calls| && calls[j].TeleopCall?
    requires calls[j].teleop == Refresh || calls[j].teleop == Release
    requires !exists i :: TeleopInForce(c, calls, i, j)
    ensures Verdict(c, calls, j) == TeleopNotGranted
  {
    TeleopHeldIsInForce(c, calls, j);
    TeleopAfterRefresh(c, StateAt(c, calls, j), calls[j].now);
    hide StateAt, Refreshed;
  }
}
