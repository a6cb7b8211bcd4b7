/** What holds of teleop and motion over whole runs of the arbitrator: who holds the teleop lease, and what that
    admits. */
module TeleopRuns {
  import opened Options
  import opened Arbitration
  import opened LeaseRuns

  // ---------------------------------------------------------------- what a call does to the teleop lease

  /** An accepted claim that does not find its own lease in force, so it takes a new one. */
  predicate ClaimsNow(c: Config, a: Arb, call: Call) {
    && call.TeleopCall? && call.teleop == Claim && Do(c, a, call).1 == Accepted
    && (!TeleopHeld(c, a, call.now) || a.teleopLease == "")
  }

  /** An accepted claim or keepalive. */
  predicate RefreshesNow(c: Config, a: Arb, call: Call) {
    call.TeleopCall? && (call.teleop == Claim || call.teleop == Refresh) && Do(c, a, call).1 == Accepted
  }

  /** An accepted release, a fresh task start, or an e-stop. */
  predicate DropsNow(c: Config, a: Arb, call: Call) {
    || (call.TeleopCall? && call.teleop == Release && Do(c, a, call).1 == Accepted)
    || MintsNow(c, a, call)
    || (call.EstopCall? && call.active)
  }

  predicate SameTeleop(a: Arb, b: Arb) {
    a.teleopHolder == b.teleopHolder && a.teleopLease == b.teleopLease
  }

  /** The teleop lease after a call, as a function of what the call did. */
  ghost predicate TeleopLeaseEffect(c: Config, a: Arb, call: Call) {
    var b := Do(c, a, call).0;
    if DropsNow(c, a, call) then b.teleopTime.None?
    else if ClaimsNow(c, a, call) then
      b.teleopTime == Some(call.now) && b.teleopHolder == call.requester && b.teleopLease == call.minted
    else if RefreshesNow(c, a, call) then
      TeleopHeld(c, a, call.now) && SameTeleop(a, b) && b.teleopTime == Some(call.now)
    else if TeleopHeld(c, a, call.now) then SameTeleop(a, b) && a.teleopTime == b.teleopTime
    else b.teleopTime.None?
  }

  lemma TeleopAfterRefresh(c: Config, a: Arb, now: real)
    ensures var b := Refreshed(c, a, now);
            && (TeleopHeld(c, a, now) ==> SameTeleop(a, b) && b.teleopTime == a.teleopTime)
            && (!TeleopHeld(c, a, now) ==> b.teleopTime.None?)
            && b.estop == a.estop
  {}

  lemma ControlLeaseEffect(c: Config, a: Arb, call: Call)
    requires c.Valid() && Sane(c, a) && call.TeleopCall?
    ensures TeleopLeaseEffect(c, a, call)
  {
    TeleopAfterRefresh(c, a, call.now);
    var b := Refreshed(c, a, call.now);
    var verdict := TeleopControlVerdict(c, b, call.teleop, call.now, call.requester, call.lease);
    if verdict == Accepted {
      var d := TeleopChanged(c, b, call.teleop, call.now, call.requester, call.minted);
      TeleopAfterRefresh(c, d, call.now);
    }
    hide Refreshed, Sane;
  }

  lemma TaskCallLeaseEffect(c: Config, a: Arb, call: Call)
    requires c.Valid() && Sane(c, a) && call.TaskCall?
    ensures TeleopLeaseEffect(c, a, call)
  {
    TeleopAfterRefresh(c, a, call.now);
    RefreshEffect(c, a, call.now);
    RefreshedStaysSane(c, a, call.now);
    var b := Refreshed(c, a, call.now);
    if TaskControlVerdict(c, b, call.action, call.now, call.id, call.lease) == Accepted {
      var d := TaskChanged(c, b, call.action, call.now, call.id, call.minted);
      TeleopAfterRefresh(c, TaskNoted(d, call.action, call.id, Accepted), call.now);
    }
    hide Refreshed;
  }

  lemma EstopLeaseEffect(c: Config, a: Arb, call: Call)
    requires c.Valid() && Sane(c, a) && call.EstopCall?
    ensures TeleopLeaseEffect(c, a, call)
  {
    var now := call.now;
    var b := TaskExpired(c, a, now);
    assert SameTeleop(a, b) && b.teleopTime == a.teleopTime;
    var e := TaskStopped(c, b, now);
    TeleopAfterRefresh(c, TeleopCleared(TaskCleared(e)).(estop := true, motionTime := None), now);
    TeleopAfterRefresh(c, b.(estop := false), now);
    hide Refreshed, TaskExpired, Remembered, Sane;
  }

  lemma CommandLeaseEffect(c: Config, a: Arb, call: Call)
    requires c.Valid() && Sane(c, a) && call.CommandCall?
    ensures TeleopLeaseEffect(c, a, call)
  {
    TeleopAfterRefresh(c, a, call.now);
    var b := Refreshed(c, a, call.now);
    TeleopAfterRefresh(c, if call.source == Motion then b.(motionTime := Some(call.now)) else b, call.now);
    hide Refreshed, CommandVerdict;
  }

  lemma CallLeaseEffect(c: Config, a: Arb, call: Call)
    requires c.Valid() && Sane(c, a)
    ensures TeleopLeaseEffect(c, a, call)
  {
    match call
    case TeleopCall(_, _, _, _, _) => ControlLeaseEffect(c, a, call);
    case TaskCall(_, _, _, _, _) => TaskCallLeaseEffect(c, a, call);
    case EstopCall(_, _) => EstopLeaseEffect(c, a, call);
    case CommandCall(_, _, _, _) => CommandLeaseEffect(c, a, call);
    case _ =>
      TeleopAfterRefresh(c, a, call.now);
      hide Refreshed;
  }

  // ---------------------------------------------------------------- the teleop lease over runs

  predicate Claims(c: Config, calls: seq<Call>, k: nat)
    requires k < |calls|
  {
    ClaimsNow(c, StateAt(c, calls, k), calls[k])
  }

  predicate Refreshes(c: Config, calls: seq<Call>, k: nat)
    requires k < |calls|
  {
    RefreshesNow(c, StateAt(c, calls, k), calls[k])
  }

  predicate Drops(c: Config, calls: seq<Call>, k: nat)
    requires k < |calls|
  {
    DropsNow(c, StateAt(c, calls, k), calls[k])
  }

  ghost predicate LastRefresh(c: Config, calls: seq<Call>, r: nat, k: nat)
    requires r < k <= |calls|
  {
    Refreshes(c, calls, r) && forall x | r < x < k :: !Refreshes(c, calls, x)
  }

  /** Call `k` comes no later than the timeout after the last claim or keepalive before it. */
  ghost predicate TeleopInTime(c: Config, calls: seq<Call>, i: nat, k: nat)
    requires i < k < |calls|
  {
    exists r :: i <= r < k && LastRefresh(c, calls, r, k) && calls[k].now - calls[r].now <= c.teleopTimeout
  }

  /** The lease claimed at call `i` is the most recent one, and nothing before call `j` released, ended or
      outlasted it. */
  ghost predicate TeleopLease(c: Config, calls: seq<Call>, i: nat, j: nat)
    requires i < j <= |calls|
  {
    && Claims(c, calls, i)
    && forall k | i < k < j :: !Claims(c, calls, k) && !Drops(c, calls, k) && TeleopInTime(c, calls, i, k)
  }

  /** The lease claimed at call `i` is in force when call `j` comes. */
  ghost predicate TeleopInForce(c: Config, calls: seq<Call>, i: int, j: nat)
    requires j < |calls|
  {
    0 <= i < j && calls[i].TeleopCall? && TeleopLease(c, calls, i, j) && TeleopInTime(c, calls, i, j)
  }

  lemma TeleopStep(c: Config, calls: seq<Call>, k: nat)
    requires c.Valid() && k < |calls|
    ensures StateAt(c, calls, k + 1) == Do(c, StateAt(c, calls, k), calls[k]).0
    ensures TeleopLeaseEffect(c, StateAt(c, calls, k), calls[k])
    ensures Claims(c, calls, k) ==> Refreshes(c, calls, k)
    ensures Refreshes(c, calls, k) ==> calls[k].TeleopCall? && !Drops(c, calls, k)
  {
    StepFacts(c, calls, k);
    CallLeaseEffect(c, StateAt(c, calls, k), calls[k]);
    hide Do, TeleopLeaseEffect, Sane, LeaseEffect, TombstoneEffect;
  }

  lemma ClaimStarts(c: Config, calls: seq<Call>, k: nat)
    requires c.Valid() && k < |calls| && Claims(c, calls, k)
    ensures calls[k].TeleopCall?
    ensures var b := StateAt(c, calls, k + 1);
            && b.teleopTime == Some(calls[k].now)
            && b.teleopHolder == calls[k].requester && b.teleopLease == calls[k].minted
  {
    hide Do;
    TeleopStep(c, calls, k);
  }

  /** What the arbitrator stores while the teleop lease claimed at call `i` lasts. */
  lemma {:induction false} TeleopLeaseIsStored(c: Config, calls: seq<Call>, i: nat, j: nat) returns (r: nat)
    requires c.Valid() && i < j <= |calls| && TeleopLease(c, calls, i, j)
    ensures i <= r < j && LastRefresh(c, calls, r, j) && calls[i].TeleopCall?
    ensures var a := StateAt(c, calls, j);
            && a.teleopTime == Some(calls[r].now)
            && a.teleopHolder == calls[i].requester && a.teleopLease == calls[i].minted
    decreases j
  {
    hide Do, StateAt, ClaimsNow, RefreshesNow, DropsNow;
    var k := j - 1;
    TeleopStep(c, calls, k);
    if k == i {
      ClaimStarts(c, calls, k);
      r := i;
    } else {
      r := TeleopLeaseIsStored(c, calls, i, k);
      if Refreshes(c, calls, k) {
        r := k;
      }
      assert TeleopInTime(c, calls, i, k);
    }
  }

  lemma NoTeleopAtFirst(c: Config, calls: seq<Call>)
    ensures StateAt(c, calls, 0).teleopTime.None?
  {}

  lemma {:induction false} StoredTeleopWasClaimed(c: Config, calls: seq<Call>, j: nat) returns (i: nat)
    requires c.Valid() && j <= |calls| && StateAt(c, calls, j).teleopTime.Some?
    ensures i < j && TeleopLease(c, calls, i, j)
  {
    hide Do, StateAt, ClaimsNow, RefreshesNow, DropsNow;
    NoTeleopAtFirst(c, calls);
    var k := j - 1;
    TeleopStep(c, calls, k);
    if Claims(c, calls, k) {
      i := k;
    } else {
      i := StoredTeleopWasClaimed(c, calls, k);
      var r := TeleopLeaseIsStored(c, calls, i, k);
      assert LastRefresh(c, calls, r, k);
    }
  }

  /** The teleop lease that the arbitrator holds is the one in force, with its claimant and its identifier. */
  lemma TeleopHeldIsInForce(c: Config, calls: seq<Call>, j: nat)
    requires c.Valid() && j < |calls|
    ensures TeleopHeld(c, StateAt(c, calls, j), calls[j].now) <==> exists i :: TeleopInForce(c, calls, i, j)
    ensures forall i | TeleopInForce(c, calls, i, j) ::
              && StateAt(c, calls, j).teleopHolder == calls[i].requester
              && StateAt(c, calls, j).teleopLease == calls[i].minted
  {
    hide Do, StateAt, ClaimsNow, RefreshesNow, DropsNow;
    var a := StateAt(c, calls, j);
    if TeleopHeld(c, a, calls[j].now) {
      var i := StoredTeleopWasClaimed(c, calls, j);
      var r := TeleopLeaseIsStored(c, calls, i, j);
      assert TeleopInTime(c, calls, i, j);
      assert TeleopInForce(c, calls, i, j);
    }
    forall i | TeleopInForce(c, calls, i, j)
      ensures TeleopHeld(c, a, calls[j].now)
      ensures a.teleopHolder == calls[i].requester && a.teleopLease == calls[i].minted
    {
      var r := TeleopLeaseIsStored(c, calls, i, j);
      var q :| i <= q < j && LastRefresh(c, calls, q, j) && calls[j].now - calls[q].now <= c.teleopTimeout;
      assert q == r;
    }
  }

  // ---------------------------------------------------------------- who is admitted

  /** The last e-stop call before call `j` set the e-stop. */
  predicate EstopInForce(calls: seq<Call>, j: nat)
    requires j <= |calls|
  {
    exists k :: 0 <= k < j && calls[k].EstopCall? && calls[k].active && forall x | k < x < j :: !calls[x].EstopCall?
  }

  lemma MotionAnswer(c: Config, a: Arb, call: Call)
    requires c.Valid() && Sane(c, a) && call.CommandCall? && call.source == Motion
    ensures Do(c, a, call).1 == Accepted <==>
              !a.estop && !TaskHeld(c, a, call.now) && !TeleopHeld(c, a, call.now)
  {
    RefreshEffect(c, a, call.now);
    TeleopAfterRefresh(c, a, call.now);
    hide Refreshed;
  }

  /** A motion command is accepted exactly when no e-stop, no task lease and no teleop lease is in force. */
  lemma MotionAcceptance(c: Config, calls: seq<Call>, j: nat)
    requires c.Valid() && j < |calls| && calls[j].CommandCall? && calls[j].source == Motion
    ensures Verdict(c, calls, j) == Accepted <==>
              && !EstopInForce(calls, j) && !TaskLeaseInForce(c, calls, j)
              && !exists i :: TeleopInForce(c, calls, i, j)
  {
    hide Do, StateAt, Sane, LeaseEffect, TombstoneEffect;
    StepFacts(c, calls, j);
    MotionAnswer(c, StateAt(c, calls, j), calls[j]);
    EstopIsTheLastCall(c, calls, j);
    HeldMeansInForce(c, calls, j);
    TeleopHeldIsInForce(c, calls, j);
  }

  lemma TeleopCommandAnswer(c: Config, a: Arb, call: Call)
    requires c.Valid() && Sane(c, a) && call.CommandCall? && call.source == Teleop
    ensures Do(c, a, call).1 == Accepted <==>
              TeleopHeld(c, a, call.now) && call.requester == a.teleopHolder != "" && call.lease == a.teleopLease
    ensures TeleopHeld(c, a, call.now) ==> !TaskHeld(c, a, call.now) && !a.estop
  {
    RefreshEffect(c, a, call.now);
    TeleopAfterRefresh(c, a, call.now);
    hide Refreshed;
  }

  /** A teleop command is accepted exactly when a teleop lease is in force, it names the claimant and it carries
      the lease given out at the claim; no task lease and no e-stop is in force then. */
  lemma TeleopCommandAcceptance(c: Config, calls: seq<Call>, j: nat)
    requires c.Valid() && j < |calls| && calls[j].CommandCall? && calls[j].source == Teleop
    ensures Verdict(c, calls, j) == Accepted <==>
              exists i :: TeleopInForce(c, calls, i, j)
                && calls[j].requester == calls[i].requester != "" && calls[j].lease == calls[i].minted
    ensures Verdict(c, calls, j) == Accepted ==> !TaskLeaseInForce(c, calls, j) && !EstopInForce(calls, j)
  {
    hide Do, StateAt, Sane, LeaseEffect, TombstoneEffect;
    StepFacts(c, calls, j);
    TeleopCommandAnswer(c, StateAt(c, calls, j), calls[j]);
    EstopIsTheLastCall(c, calls, j);
    HeldMeansInForce(c, calls, j);
    TeleopHeldIsInForce(c, calls, j);
  }

  lemma TeleopControlAnswer(c: Config, a: Arb, call: Call)
    requires c.Valid() && Sane(c, a) && call.TeleopCall?
    ensures call.teleop == Claim ==>
              (Do(c, a, call).1 == Accepted <==>
                 && !a.estop && !TaskHeld(c, a, call.now)
                 && (TeleopHeld(c, a, call.now) ==> call.requester == a.teleopHolder))
    ensures call.teleop == Refresh || call.teleop == Release ==>
              (Do(c, a, call).1 == Accepted <==>
                 && TeleopHeld(c, a, call.now) && call.requester == a.teleopHolder
                 && (call.lease == "" || call.lease == a.teleopLease))
    ensures call.teleop == OtherTeleopAction ==> Do(c, a, call).1 != Accepted
  {
    RefreshEffect(c, a, call.now);
    TeleopAfterRefresh(c, a, call.now);
    hide Refreshed;
  }

  /** A claim is accepted exactly when no e-stop, no task lease and no other claimant's lease is in force. */
  lemma ClaimAcceptance(c: Config, calls: seq<Call>, j: nat)
    requires c.Valid() && j < |calls| && calls[j].TeleopCall? && calls[j].teleop == Claim
    ensures Verdict(c, calls, j) == Accepted <==>
              && !EstopInForce(calls, j) && !TaskLeaseInForce(c, calls, j)
              && forall i | TeleopInForce(c, calls, i, j) :: calls[i].requester == calls[j].requester
  {
    hide Do, StateAt, Sane, LeaseEffect, TombstoneEffect;
    StepFacts(c, calls, j);
    TeleopControlAnswer(c, StateAt(c, calls, j), calls[j]);
    EstopIsTheLastCall(c, calls, j);
    HeldMeansInForce(c, calls, j);
    TeleopHeldIsInForce(c, calls, j);
  }

  /** A keepalive or release is accepted exactly from the claimant of the lease in force, with its lease or with
      none. */
  lemma HolderAcceptance(c: Config, calls: seq<Call>, j: nat)
    requires c.Valid() && j < |calls| && calls[j].TeleopCall?
    requires calls[j].teleop == Refresh || calls[j].teleop == Release
    ensures Verdict(c, calls, j) == Accepted <==>
              exists i :: TeleopInForce(c, calls, i, j)
                && calls[j].requester == calls[i].requester
                && (calls[j].lease == "" || calls[j].lease == calls[i].minted)
  {
    hide Do, StateAt, Sane, LeaseEffect, TombstoneEffect;
    StepFacts(c, calls, j);
    TeleopControlAnswer(c, StateAt(c, calls, j), calls[j]);
    TeleopHeldIsInForce(c, calls, j);
  }

  /** After an accepted release, no teleop command is accepted until another claim is. */
  lemma ReleasedNeedsAnotherClaim(c: Config, calls: seq<Call>, k: nat, j: nat)
    requires c.Valid() && k < j < |calls| && calls[j].CommandCall? && calls[j].source == Teleop
    requires calls[k].TeleopCall? && calls[k].teleop == Release
    ensures Verdict(c, calls, k) == Accepted && Verdict(c, calls, j) == Accepted ==>
              exists i :: k < i < j && calls[i].TeleopCall? && calls[i].teleop == Claim
                && Verdict(c, calls, i) == Accepted
  {
    hide Do, StateAt;
    if Verdict(c, calls, k) == Accepted && Verdict(c, calls, j) == Accepted {
      TeleopCommandAcceptance(c, calls, j);
      var i :| TeleopInForce(c, calls, i, j)
               && calls[j].requester == calls[i].requester != "" && calls[j].lease == calls[i].minted;
      assert Drops(c, calls, k);
      assert k < i;
    }
  }
}
