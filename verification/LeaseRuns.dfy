/** What holds of the arbitrator over whole runs: any sequence of calls, at any times. */
module LeaseRuns {
  import opened Options
  import opened ReplayMemory
  import opened Arbitration

  function After(c: Config, calls: seq<Call>): Arb {
    if calls == [] then INITIAL else Do(c, After(c, calls[..|calls| - 1]), calls[|calls| - 1]).0
  }

  function StateAt(c: Config, calls: seq<Call>, k: nat): Arb
    requires k <= |calls|
  {
    After(c, calls[..k])
  }

  function Verdict(c: Config, calls: seq<Call>, k: nat): Reason
    requires k < |calls|
  {
    Do(c, StateAt(c, calls, k), calls[k]).1
  }

  lemma StateAfterCall(c: Config, calls: seq<Call>, k: nat)
    requires k < |calls|
    ensures StateAt(c, calls, k + 1) == Do(c, StateAt(c, calls, k), calls[k]).0
  {
    assert calls[..k + 1][..k] == calls[..k];
  }

  // ---------------------------------------------------------------- what a call does to the lease

  /** An accepted start that found no lease in force, so it mints one. */
  predicate MintsNow(c: Config, a: Arb, call: Call) {
    call.TaskCall? && call.action == Start && Do(c, a, call).1 == Accepted && !TaskHeld(c, a, call.now)
  }

  /** An accepted start or keepalive. */
  predicate RenewsNow(c: Config, a: Arb, call: Call) {
    call.TaskCall? && (call.action == Start || call.action == Keepalive) && Do(c, a, call).1 == Accepted
  }

  /** An accepted finish or cancel, or an e-stop. */
  predicate EndsNow(c: Config, a: Arb, call: Call) {
    || (call.TaskCall? && (call.action == Finish || call.action == Cancel) && Do(c, a, call).1 == Accepted)
    || (call.EstopCall? && call.active)
  }

  /** The call ends the lease stored before it: by finish, cancel, e-stop or expiry. */
  predicate EndsStoredNow(c: Config, a: Arb, call: Call) {
    a.taskTime.Some? && (Do(c, a, call).0.taskTime.None? || MintsNow(c, a, call))
  }

  predicate Mints(c: Config, calls: seq<Call>, k: nat)
    requires k < |calls|
  {
    MintsNow(c, StateAt(c, calls, k), calls[k])
  }

  predicate Renews(c: Config, calls: seq<Call>, k: nat)
    requires k < |calls|
  {
    RenewsNow(c, StateAt(c, calls, k), calls[k])
  }

  predicate Ends(c: Config, calls: seq<Call>, k: nat)
    requires k < |calls|
  {
    EndsNow(c, StateAt(c, calls, k), calls[k])
  }

  predicate EndsStoredLease(c: Config, calls: seq<Call>, k: nat)
    requires k < |calls|
  {
    EndsStoredNow(c, StateAt(c, calls, k), calls[k])
  }

  /** Call `r` is the last renewal before call `k`. */
  ghost predicate LastRenewal(c: Config, calls: seq<Call>, r: nat, k: nat)
    requires r < k <= |calls|
  {
    Renews(c, calls, r) && forall x | r < x < k :: !Renews(c, calls, x)
  }

  /** Call `k` comes no later than the timeout after the last renewal before it. */
  ghost predicate InTime(c: Config, calls: seq<Call>, i: nat, k: nat)
    requires i < k < |calls|
  {
    exists r :: i <= r < k && LastRenewal(c, calls, r, k) && calls[k].now - calls[r].now <= c.taskTimeout
  }

  /** The lease minted at call `i` is the most recent one and nothing before call `j` ended it. */
  ghost predicate Lease(c: Config, calls: seq<Call>, i: nat, j: nat)
    requires i < j <= |calls|
  {
    && Mints(c, calls, i)
    && forall k | i < k < j :: !Mints(c, calls, k) && !Ends(c, calls, k) && InTime(c, calls, i, k)
  }

  // ---------------------------------------------------------------- the state invariant

  ghost predicate Sane(c: Config, a: Arb) {
    && (a.taskTime.None? ==> a.taskLease == "")
    && (a.taskTime.Some? ==> a.identity.Complete() && a.identity !in a.tombstoneSet && !a.estop && a.teleopTime.None?)
    && (a.teleopTime.None? ==> a.teleopHolder == "" && a.teleopLease == "")
    && (a.estop ==> a.taskTime.None? && a.teleopTime.None? && a.motionTime.None?)
    && Distinct(a.tombstones) && |a.tombstones| <= c.tombstoneLimit
    && (forall x | x in a.tombstoneSet :: x in a.tombstones)
    && (forall x | x in a.tombstones :: x in a.tombstoneSet)
  }

  lemma RememberedStaysSane(c: Config, a: Arb)
    requires c.Valid() && Sane(c, a) && a.taskTime.Some?
    ensures Sane(c, TaskCleared(Remembered(c, a)))
    ensures var t := Remembered(c, a).tombstones;
            t == (if |a.tombstones| < c.tombstoneLimit then a.tombstones else a.tombstones[1..]) + [a.identity]
  {
    PushKeepsLastN(a.tombstones, a.tombstoneSet, c.tombstoneLimit, a.tombstones, a.identity);
  }

  lemma RefreshedStaysSane(c: Config, a: Arb, now: real)
    requires c.Valid() && Sane(c, a)
    ensures Sane(c, Refreshed(c, a, now))
  {
    if a.taskTime.Some? && !TaskHeld(c, a, now) {
      RememberedStaysSane(c, a);
    }
  }

  lemma CommandStaysSane(c: Config, a: Arb, source: Source, now: real, requester: string, lease: string)
    requires c.Valid() && Sane(c, a)
    ensures Sane(c, Command(c, a, source, now, requester, lease).0)
  {
    RefreshedStaysSane(c, a, now);
    var b := Refreshed(c, a, now);
    if CommandVerdict(c, b, source, now, requester, lease) == Accepted {
      RefreshedStaysSane(c, if source == Motion then b.(motionTime := Some(now)) else b, now);
    }
  }

  lemma GrantStaysSane(c: Config, a: Arb, now: real, id: Identity, minted: string)
    requires c.Valid() && Sane(c, a) && !a.estop && a.taskTime.None? && id.Complete() && id !in a.tombstoneSet
    ensures Sane(c, TaskGranted(a, id, minted).(taskTime := Some(now)))
  {}

  lemma TaskControlStaysSane(
      c: Config, a: Arb, action: TaskAction, now: real, id: Identity, lease: string, minted: string)
    requires c.Valid() && Sane(c, a)
    ensures Sane(c, TaskControl(c, a, action, now, id, lease, minted).0)
  {
    RefreshedStaysSane(c, a, now);
    var b := Refreshed(c, a, now);
    if TaskControlVerdict(c, b, action, now, id, lease) == Accepted {
      var d := TaskChanged(c, b, action, now, id, minted);
      if action == Start || action == Keepalive {
        if !TaskHeld(c, b, now) {
          GrantStaysSane(c, b, now, id, minted);
        }
      } else {
        RememberedStaysSane(c, b);
      }
      assert Sane(c, d);
      RefreshedStaysSane(c, TaskNoted(d, action, id, Accepted), now);
    }
  }

  lemma TeleopControlStaysSane(
      c: Config, a: Arb, action: TeleopAction, now: real, requester: string, lease: string, minted: string)
    requires c.Valid() && Sane(c, a)
    ensures Sane(c, TeleopControl(c, a, action, now, requester, lease, minted).0)
  {
    RefreshedStaysSane(c, a, now);
    var b := Refreshed(c, a, now);
    if TeleopControlVerdict(c, b, action, now, requester, lease) == Accepted {
      var d := TeleopChanged(c, b, action, now, requester, minted);
      assert Sane(c, d);
      RefreshedStaysSane(c, d, now);
    }
  }

  lemma EstopStaysSane(c: Config, a: Arb, active: bool, now: real)
    requires c.Valid() && Sane(c, a)
    ensures Sane(c, EstopSet(c, a, active, now))
  {
    if a.taskTime.Some? {
      RememberedStaysSane(c, a);
    }
    var b := TaskExpired(c, a, now);
    assert Sane(c, b);
    if active {
      var e := TaskStopped(c, b, now);
      var d := TeleopCleared(TaskCleared(e)).(estop := true, motionTime := None);
      assert Sane(c, d);
      RefreshedStaysSane(c, d, now);
    } else {
      RefreshedStaysSane(c, b.(estop := false), now);
    }
  }

  lemma CallStaysSane(c: Config, a: Arb, call: Call)
    requires c.Valid() && Sane(c, a)
    ensures Sane(c, Do(c, a, call).0)
  {
    RefreshedStaysSane(c, a, call.now);
    match call
    case CommandCall(source, now, requester, lease) => CommandStaysSane(c, a, source, now, requester, lease);
    case TaskCall(action, now, id, lease, minted) => TaskControlStaysSane(c, a, action, now, id, lease, minted);
    case TeleopCall(teleop, now, requester, lease, minted) =>
      TeleopControlStaysSane(c, a, teleop, now, requester, lease, minted);
    case EstopCall(active, now) => EstopStaysSane(c, a, active, now);
    case _ =>
  }

  lemma {:induction false} RunStaysSane(c: Config, calls: seq<Call>)
    requires c.Valid()
    ensures Sane(c, After(c, calls))
  {
    if calls != [] {
      RunStaysSane(c, calls[..|calls| - 1]);
      CallStaysSane(c, After(c, calls[..|calls| - 1]), calls[|calls| - 1]);
    }
  }

  // ---------------------------------------------------------------- one call, seen by the lease

  predicate SameLease(a: Arb, b: Arb) {
    a.identity == b.identity && a.taskLease == b.taskLease && a.taskTime.Some? && b.taskTime.Some?
  }

  function Pushed(c: Config, a: Arb): seq<Identity> {
    (if |a.tombstones| < c.tombstoneLimit || a.tombstones == [] then a.tombstones else a.tombstones[1..]) + [a.identity]
  }

  /** The lease after a call, as a function of what the call did. */
  ghost predicate LeaseEffect(c: Config, a: Arb, call: Call) {
    var b := Do(c, a, call).0;
    if EndsNow(c, a, call) then b.taskTime.None?
    else if MintsNow(c, a, call) then
      b.taskTime == Some(call.now) && b.identity == call.id && b.taskLease == call.minted && b.teleopTime.None?
    else if RenewsNow(c, a, call) then TaskHeld(c, a, call.now) && SameLease(a, b) && b.taskTime == Some(call.now)
    else if TaskHeld(c, a, call.now) then SameLease(a, b) && a.taskTime == b.taskTime
    else b.taskTime.None?
  }

  /** Identities enter the tombstones exactly when their lease ends. */
  ghost predicate TombstoneEffect(c: Config, a: Arb, call: Call) {
    var b := Do(c, a, call).0;
    b.tombstones == if EndsStoredNow(c, a, call) then Pushed(c, a) else a.tombstones
  }

  lemma RefreshEffect(c: Config, a: Arb, now: real)
    requires c.Valid() && Sane(c, a)
    ensures var b := Refreshed(c, a, now);
            && (TaskHeld(c, a, now) ==> SameLease(a, b) && b.taskTime == a.taskTime && b.tombstones == a.tombstones)
            && (!TaskHeld(c, a, now) ==> b.taskTime.None?)
            && (a.taskTime.None? ==> b.tombstones == a.tombstones)
            && (a.taskTime.Some? && !TaskHeld(c, a, now) ==> b.tombstones == Pushed(c, a))
            && b.estop == a.estop && (a.teleopTime.None? ==> b.teleopTime.None?)
  {
    if a.taskTime.Some? {
      RememberedStaysSane(c, a);
    }
  }

  lemma TaskControlEffect(c: Config, a: Arb, call: Call)
    requires c.Valid() && Sane(c, a) && call.TaskCall?
    ensures LeaseEffect(c, a, call) && TombstoneEffect(c, a, call)
  {
    RefreshEffect(c, a, call.now);
    RefreshedStaysSane(c, a, call.now);
    var b := Refreshed(c, a, call.now);
    if TaskControlVerdict(c, b, call.action, call.now, call.id, call.lease) == Accepted {
      if call.action == Start || call.action == Keepalive {
        var d := TaskChanged(c, b, call.action, call.now, call.id, call.minted);
        if !TaskHeld(c, b, call.now) {
          GrantStaysSane(c, b, call.now, call.id, call.minted);
        }
        RefreshEffect(c, TaskNoted(d, call.action, call.id, Accepted), call.now);
      } else {
        RememberedStaysSane(c, b);
        RefreshEffect(c, TaskNoted(TaskCleared(Remembered(c, b)), call.action, call.id, Accepted), call.now);
      }
    }
  }

  lemma EstopEffect(c: Config, a: Arb, active: bool, now: real)
    requires c.Valid() && Sane(c, a)
    ensures LeaseEffect(c, a, EstopCall(active, now)) && TombstoneEffect(c, a, EstopCall(active, now))
  {
    if a.taskTime.Some? {
      RememberedStaysSane(c, a);
    }
    var b := TaskExpired(c, a, now);
    assert Sane(c, b);
    if active {
      var e := TaskStopped(c, b, now);
      RefreshEffect(c, TeleopCleared(TaskCleared(e)).(estop := true, motionTime := None), now);
    } else {
      RefreshEffect(c, b.(estop := false), now);
    }
  }

  lemma CommandEffect(c: Config, a: Arb, call: Call)
    requires c.Valid() && Sane(c, a) && call.CommandCall?
    ensures LeaseEffect(c, a, call) && TombstoneEffect(c, a, call)
  {
    RefreshEffect(c, a, call.now);
    RefreshedStaysSane(c, a, call.now);
    var b := Refreshed(c, a, call.now);
    if CommandVerdict(c, b, call.source, call.now, call.requester, call.lease) == Accepted {
      RefreshEffect(c, if call.source == Motion then b.(motionTime := Some(call.now)) else b, call.now);
    }
    hide Refreshed, Remembered, CommandVerdict;
  }

  lemma TeleopEffect(c: Config, a: Arb, call: Call)
    requires c.Valid() && Sane(c, a) && call.TeleopCall?
    ensures LeaseEffect(c, a, call) && TombstoneEffect(c, a, call)
  {
    RefreshEffect(c, a, call.now);
    RefreshedStaysSane(c, a, call.now);
    var b := Refreshed(c, a, call.now);
    if TeleopControlVerdict(c, b, call.teleop, call.now, call.requester, call.lease) == Accepted {
      var d := TeleopChanged(c, b, call.teleop, call.now, call.requester, call.minted);
      assert Sane(c, d);
      RefreshEffect(c, d, call.now);
    }
    hide Refreshed, Remembered, TeleopControlVerdict, Sane;
  }

  lemma OtherEffect(c: Config, a: Arb, call: Call)
    requires c.Valid() && Sane(c, a) && !call.TaskCall? && !call.EstopCall? && !call.CommandCall? && !call.TeleopCall?
    ensures LeaseEffect(c, a, call) && TombstoneEffect(c, a, call)
  {
    RefreshEffect(c, a, call.now);
    hide Refreshed, Remembered;
  }

  lemma CallEffect(c: Config, a: Arb, call: Call)
    requires c.Valid() && Sane(c, a)
    ensures LeaseEffect(c, a, call) && TombstoneEffect(c, a, call)
  {
    hide LeaseEffect, TombstoneEffect, Sane;
    match call
    case TaskCall(_, _, _, _, _) => TaskControlEffect(c, a, call);
    case EstopCall(active, now) => EstopEffect(c, a, active, now);
    case CommandCall(_, _, _, _) => CommandEffect(c, a, call);
    case TeleopCall(_, _, _, _, _) => TeleopEffect(c, a, call);
    case _ => OtherEffect(c, a, call);
  }

  lemma CommandAnswer(c: Config, a: Arb, call: Call)
    requires c.Valid() && Sane(c, a) && call.CommandCall?
    ensures call.source == Task ==>
              (Do(c, a, call).1 == Accepted <==>
                 TaskHeld(c, a, call.now) && call.requester == a.identity.task && call.lease == a.taskLease != "")
    ensures call.source != Task && Do(c, a, call).1 == Accepted ==> !TaskHeld(c, a, call.now)
    ensures a.estop ==> Do(c, a, call).1 == Estop
  {
    RefreshEffect(c, a, call.now);
    RefreshedStaysSane(c, a, call.now);
  }

  /** A task call about a lease, other than the start that mints one, and a validation. */
  predicate AsksTheLease(call: Call) {
    call.ValidateCall? || (call.TaskCall? && call.action != OtherTaskAction)
  }

  /** Only the identity that holds the lease, with its lease, may use, renew or end it. */
  lemma LeaseAnswer(c: Config, a: Arb, call: Call)
    requires c.Valid() && Sane(c, a) && AsksTheLease(call)
    ensures Do(c, a, call).1 == Accepted && !MintsNow(c, a, call) <==>
              TaskHeld(c, a, call.now) && call.id == a.identity && call.lease == a.taskLease != ""
  {
    RefreshEffect(c, a, call.now);
    RefreshedStaysSane(c, a, call.now);
    hide Refreshed;
  }

  lemma ClaimAnswer(c: Config, a: Arb, call: Call)
    requires c.Valid() && Sane(c, a) && call.TeleopCall? && call.teleop == Claim && TaskHeld(c, a, call.now)
    ensures Do(c, a, call).1 != Accepted
  {
    RefreshEffect(c, a, call.now);
    hide Refreshed, Sane;
  }

  // ---------------------------------------------------------------- whole runs

  lemma StepFacts(c: Config, calls: seq<Call>, k: nat)
    requires c.Valid() && k < |calls|
    ensures Sane(c, StateAt(c, calls, k)) && Sane(c, StateAt(c, calls, k + 1))
    ensures StateAt(c, calls, k + 1) == Do(c, StateAt(c, calls, k), calls[k]).0
    ensures LeaseEffect(c, StateAt(c, calls, k), calls[k]) && TombstoneEffect(c, StateAt(c, calls, k), calls[k])
    ensures Mints(c, calls, k) ==> Renews(c, calls, k)
    ensures Mints(c, calls, k) || Renews(c, calls, k) ==> calls[k].TaskCall? && !Ends(c, calls, k)
  {
    RunStaysSane(c, calls[..k]);
    RunStaysSane(c, calls[..k + 1]);
    StateAfterCall(c, calls, k);
    CallEffect(c, StateAt(c, calls, k), calls[k]);
  }

  lemma LeaseStarts(c: Config, calls: seq<Call>, k: nat)
    requires c.Valid() && k < |calls| && Mints(c, calls, k)
    ensures calls[k].TaskCall?
    ensures var b := StateAt(c, calls, k + 1);
            && b.taskTime == Some(calls[k].now) && b.identity == calls[k].id
            && b.taskLease == calls[k].minted && b.teleopTime.None?
  {
    hide Do;
    StepFacts(c, calls, k);
  }

  /** What the arbitrator stores while the lease minted at call `i` lasts; `r` is its last renewal. */
  lemma {:induction false} LeaseIsStored(c: Config, calls: seq<Call>, i: nat, j: nat) returns (r: nat)
    requires c.Valid() && i < j <= |calls| && Lease(c, calls, i, j)
    ensures i <= r < j && LastRenewal(c, calls, r, j)
    ensures var a := StateAt(c, calls, j);
            a.taskTime == Some(calls[r].now) && a.identity == calls[i].id && a.taskLease == calls[i].minted
            && a.teleopTime.None?
    decreases j
  {
    hide Do, StateAt, TombstoneEffect, MintsNow, RenewsNow, EndsNow, Agrees, Distinct;
    var k := j - 1;
    StepFacts(c, calls, k);
    if k == i {
      LeaseStarts(c, calls, k);
      r := i;
    } else {
      r := LeaseIsStored(c, calls, i, k);
      if Renews(c, calls, k) {
        r := k;
      }
      assert InTime(c, calls, i, k);
    }
  }

  lemma NothingStoredAtFirst(c: Config, calls: seq<Call>)
    ensures StateAt(c, calls, 0).taskTime.None?
  {}

  lemma {:induction false} StoredLeaseWasMinted(c: Config, calls: seq<Call>, j: nat) returns (i: nat)
    requires c.Valid() && j <= |calls| && StateAt(c, calls, j).taskTime.Some?
    ensures i < j && Lease(c, calls, i, j)
  {
    hide Do, StateAt, Sane, TombstoneEffect, MintsNow, RenewsNow, EndsNow;
    NothingStoredAtFirst(c, calls);
    var k := j - 1;
    StepFacts(c, calls, k);
    if Mints(c, calls, k) {
      i := k;
    } else {
      i := StoredLeaseWasMinted(c, calls, k);
      var r := LeaseIsStored(c, calls, i, k);
      assert LastRenewal(c, calls, r, k);
    }
  }

  /** A task command is accepted exactly when it carries the lease minted by the most recent fresh start, names its
      task, nothing ended that lease, and no gap between renewals exceeded the timeout. */
  lemma TaskCommandAcceptance(c: Config, calls: seq<Call>, j: nat)
    requires c.Valid() && j < |calls| && calls[j].CommandCall? && calls[j].source == Task
    ensures Verdict(c, calls, j) == Accepted <==>
              exists i :: 0 <= i < j && Lease(c, calls, i, j) && InTime(c, calls, i, j)
                && calls[j].lease == calls[i].minted != "" && calls[j].requester == calls[i].id.task
  {
    hide Do, StateAt, Sane, LeaseEffect, TombstoneEffect, RenewsNow, EndsNow;
    var a := StateAt(c, calls, j);
    StepFacts(c, calls, j);
    CommandAnswer(c, a, calls[j]);
    if Verdict(c, calls, j) == Accepted {
      var i := StoredLeaseWasMinted(c, calls, j);
      var r := LeaseIsStored(c, calls, i, j);
      assert InTime(c, calls, i, j);
    }
    forall i | 0 <= i < j && Lease(c, calls, i, j) && InTime(c, calls, i, j)
      && calls[j].lease == calls[i].minted != "" && calls[j].requester == calls[i].id.task
      ensures Verdict(c, calls, j) == Accepted
    {
      var r := LeaseIsStored(c, calls, i, j);
      var q :| i <= q < j && LastRenewal(c, calls, q, j) && calls[j].now - calls[q].now <= c.taskTimeout;
      assert q == r;
    }
  }

  /** A task lease is in force when call `j` comes. */
  ghost predicate TaskLeaseInForce(c: Config, calls: seq<Call>, j: nat)
    requires j < |calls|
  {
    exists i :: 0 <= i < j && Lease(c, calls, i, j) && InTime(c, calls, i, j)
  }

  lemma HeldMeansInForce(c: Config, calls: seq<Call>, j: nat)
    requires c.Valid() && j < |calls|
    ensures TaskHeld(c, StateAt(c, calls, j), calls[j].now) <==> TaskLeaseInForce(c, calls, j)
  {
    hide Do, StateAt, Sane, LeaseEffect, TombstoneEffect, RenewsNow, EndsNow;
    var a := StateAt(c, calls, j);
    if TaskHeld(c, a, calls[j].now) {
      var i := StoredLeaseWasMinted(c, calls, j);
      var r := LeaseIsStored(c, calls, i, j);
      assert InTime(c, calls, i, j);
    }
    if TaskLeaseInForce(c, calls, j) {
      var i :| 0 <= i < j && Lease(c, calls, i, j) && InTime(c, calls, i, j);
      var r := LeaseIsStored(c, calls, i, j);
      var q :| i <= q < j && LastRenewal(c, calls, q, j) && calls[j].now - calls[q].now <= c.taskTimeout;
      assert q == r;
    }
  }

  /** A keepalive, a finish, a cancel, a repeated start and a validation are accepted exactly when they carry the
      identity and the lease of the task lease in force. */
  lemma LeaseUseAcceptance(c: Config, calls: seq<Call>, j: nat)
    requires c.Valid() && j < |calls| && AsksTheLease(calls[j])
    ensures Verdict(c, calls, j) == Accepted && !Mints(c, calls, j) <==>
              exists i :: 0 <= i < j && Lease(c, calls, i, j) && InTime(c, calls, i, j)
                && calls[j].id == calls[i].id && calls[j].lease == calls[i].minted != ""
  {
    hide Do, StateAt, Sane, LeaseEffect, TombstoneEffect, RenewsNow, EndsNow;
    var a := StateAt(c, calls, j);
    StepFacts(c, calls, j);
    LeaseAnswer(c, a, calls[j]);
    HeldMeansInForce(c, calls, j);
    forall i | 0 <= i < j && Lease(c, calls, i, j)
      ensures a.identity == calls[i].id && a.taskLease == calls[i].minted
    {
      var r := LeaseIsStored(c, calls, i, j);
    }
  }

  lemma UnknownActionIsRefused(c: Config, calls: seq<Call>, j: nat)
    requires j < |calls| && calls[j].TaskCall? && calls[j].action == OtherTaskAction
    ensures Verdict(c, calls, j) != Accepted
  {
    hide Refreshed;
  }

  /** While a task lease lasts, no teleop or motion command is accepted and no teleop lease exists. */
  lemma TaskLeaseIsExclusive(c: Config, calls: seq<Call>, i: nat, k: nat)
    requires c.Valid() && i < k < |calls| && Lease(c, calls, i, k)
    ensures StateAt(c, calls, k).teleopTime.None? && StateAt(c, calls, k).teleopLease == ""
    ensures InTime(c, calls, i, k) && calls[k].CommandCall? && calls[k].source != Task ==>
              Verdict(c, calls, k) != Accepted
    ensures InTime(c, calls, i, k) && calls[k].TeleopCall? && calls[k].teleop == Claim ==>
              Verdict(c, calls, k) != Accepted
  {
    hide Do, Refreshed, StateAt;
    var r := LeaseIsStored(c, calls, i, k);
    StepFacts(c, calls, k);
    var a := StateAt(c, calls, k);
    if InTime(c, calls, i, k) {
      var q :| i <= q < k && LastRenewal(c, calls, q, k) && calls[k].now - calls[q].now <= c.taskTimeout;
      assert q == r;
      if calls[k].CommandCall? {
        CommandAnswer(c, a, calls[k]);
      } else if calls[k].TeleopCall? && calls[k].teleop == Claim {
        ClaimAnswer(c, a, calls[k]);
      }
    }
  }

  lemma EstopEffectOnly(c: Config, a: Arb, call: Call)
    ensures Do(c, a, call).0.estop == if call.EstopCall? then call.active else a.estop
  {
    hide Refreshed, Remembered, TaskControlVerdict, TeleopControlVerdict, CommandVerdict;
  }

  /** The e-stop flag is the last e-stop call. */
  lemma {:induction false} EstopIsTheLastCall(c: Config, calls: seq<Call>, j: nat)
    requires c.Valid() && j <= |calls|
    ensures StateAt(c, calls, j).estop <==>
              exists k :: 0 <= k < j && calls[k].EstopCall? && calls[k].active
                && forall x | k < x < j :: !calls[x].EstopCall?
  {
    hide Do;
    if j > 0 {
      var k := j - 1;
      EstopIsTheLastCall(c, calls, k);
      StateAfterCall(c, calls, k);
      EstopEffectOnly(c, StateAt(c, calls, k), calls[k]);
    }
  }

  /** Under e-stop nobody holds anything, and no command, start or claim is accepted. */
  lemma EstopDropsEveryLease(c: Config, calls: seq<Call>, j: nat)
    requires c.Valid() && j < |calls| && StateAt(c, calls, j).estop
    ensures var a := StateAt(c, calls, j);
            && a.taskTime.None? && a.teleopTime.None? && a.motionTime.None?
            && a.taskLease == "" && a.teleopLease == "" && a.teleopHolder == ""
    ensures calls[j].CommandCall? || calls[j].TaskCall? || calls[j].ValidateCall? || calls[j].TeleopCall? ==>
              Verdict(c, calls, j) != Accepted
  {
    hide Do, StateAt, LeaseEffect, TombstoneEffect;
    StepFacts(c, calls, j);
    NothingUnderEstop(c, StateAt(c, calls, j), calls[j]);
  }

  lemma NothingUnderEstop(c: Config, a: Arb, call: Call)
    requires c.Valid() && Sane(c, a) && a.estop
    ensures call.CommandCall? || call.TaskCall? || call.ValidateCall? || call.TeleopCall? ==>
              Do(c, a, call).1 != Accepted
  {
    RefreshEffect(c, a, call.now);
    hide Refreshed;
  }

  // ---------------------------------------------------------------- tombstones

  /** The identities of all leases that ended before call `j`, in order. */
  function Terminated(c: Config, calls: seq<Call>, j: nat): seq<Identity>
    requires j <= |calls|
  {
    if j == 0 then []
    else Terminated(c, calls, j - 1)
         + (if EndsStoredLease(c, calls, j - 1) then [StateAt(c, calls, j - 1).identity] else [])
  }

  lemma MemoryAfterCall(c: Config, a: Arb, call: Call, ended: seq<Identity>)
    requires c.Valid() && Sane(c, a) && Agrees(a.tombstones, a.tombstoneSet, c.tombstoneLimit, ended)
    ensures var b := Do(c, a, call).0;
            && Sane(c, b)
            && Agrees(b.tombstones, b.tombstoneSet, c.tombstoneLimit,
                      ended + (if EndsStoredNow(c, a, call) then [a.identity] else []))
  {
    hide Do, MintsNow, LeaseEffect;
    CallStaysSane(c, a, call);
    CallEffect(c, a, call);
    if EndsStoredNow(c, a, call) {
      PushKeepsLastN(a.tombstones, a.tombstoneSet, c.tombstoneLimit, ended, a.identity);
    } else {
      assert ended + [] == ended;
    }
  }

  /** The bounded tombstone memory is the last `limit` identities whose lease ended; no identity occurs twice in it,
      and the identity that holds the lease never does. */
  lemma {:induction false} TombstonesAreTheLastTerminated(c: Config, calls: seq<Call>, j: nat)
    requires c.Valid() && j <= |calls|
    ensures var a := StateAt(c, calls, j);
            && Agrees(a.tombstones, a.tombstoneSet, c.tombstoneLimit, Terminated(c, calls, j))
            && |a.tombstones| <= c.tombstoneLimit
            && (a.taskTime.Some? ==> a.identity !in a.tombstones)
  {
    if j > 0 {
      hide Do, Agrees, StateAt, EndsStoredNow;
      TombstonesAreTheLastTerminated(c, calls, j - 1);
      StateAfterCall(c, calls, j - 1);
      assert Sane(c, StateAt(c, calls, j - 1)) by { StepFacts(c, calls, j - 1); }
      MemoryAfterCall(c, StateAt(c, calls, j - 1), calls[j - 1], Terminated(c, calls, j - 1));
    }
  }

  lemma {:induction false} TerminatedGrows(c: Config, calls: seq<Call>, k: nat, j: nat)
    requires k <= j <= |calls|
    ensures Terminated(c, calls, k) <= Terminated(c, calls, j)
    decreases j
  {
    if k < j {
      TerminatedGrows(c, calls, k, j - 1);
    }
  }

  /** The identities in `ended`, and a lease that turns out to have expired at `now`. */
  function EndedBy(c: Config, a: Arb, ended: seq<Identity>, now: real): seq<Identity> {
    ended + (if a.taskTime.Some? && !TaskHeld(c, a, now) then [a.identity] else [])
  }

  /** The identities whose lease has ended when call `j` is looked at. */
  function TerminatedBy(c: Config, calls: seq<Call>, j: nat): seq<Identity>
    requires j < |calls|
  {
    EndedBy(c, StateAt(c, calls, j), Terminated(c, calls, j), calls[j].now)
  }

  lemma TombstonesWhenAsked(c: Config, a: Arb, ended: seq<Identity>, now: real)
    requires c.Valid() && Sane(c, a) && Agrees(a.tombstones, a.tombstoneSet, c.tombstoneLimit, ended)
    ensures Sane(c, Refreshed(c, a, now))
    ensures Refreshed(c, a, now).tombstones == LastN(EndedBy(c, a, ended, now), c.tombstoneLimit)
  {
    RefreshedStaysSane(c, a, now);
    RefreshEffect(c, a, now);
    hide Refreshed;
    if a.taskTime.Some? && !TaskHeld(c, a, now) {
      PushKeepsLastN(a.tombstones, a.tombstoneSet, c.tombstoneLimit, ended, a.identity);
    } else {
      assert EndedBy(c, a, ended, now) == ended;
    }
  }

  /** A start mints a lease exactly when it is complete, no e-stop or lease is in force, and its identity is not among
      the last `limit` identities whose lease ended. */
  lemma FreshStartAcceptance(c: Config, calls: seq<Call>, j: nat)
    requires c.Valid() && j < |calls| && calls[j].TaskCall? && calls[j].action == Start
    ensures var a := StateAt(c, calls, j);
            Mints(c, calls, j) <==>
              && calls[j].id.Complete() && !a.estop && !TaskHeld(c, a, calls[j].now)
              && calls[j].id !in LastN(TerminatedBy(c, calls, j), c.tombstoneLimit)
  {
    RunStaysSane(c, calls[..j]);
    TombstonesAreTheLastTerminated(c, calls, j);
    TombstonesWhenAsked(c, StateAt(c, calls, j), Terminated(c, calls, j), calls[j].now);
    RefreshEffect(c, StateAt(c, calls, j), calls[j].now);
    hide Refreshed, LastN, StateAt, EndedBy;
  }

  /** Once its lease ended at call `k`, an identity mints no lease before `limit` leases have ended, its own
      included. */
  lemma TerminatedIdentityCannotRestart(c: Config, calls: seq<Call>, k: nat, j: nat)
    requires c.Valid() && k < j < |calls|
    ensures && EndsStoredLease(c, calls, k)
            && calls[j].TaskCall? && calls[j].action == Start && calls[j].id == StateAt(c, calls, k).identity
            && |TerminatedBy(c, calls, j)| - |Terminated(c, calls, k)| <= c.tombstoneLimit
            ==> !Mints(c, calls, j)
  {
    hide Mints;
    var at := |Terminated(c, calls, k)|;
    TerminatedGrows(c, calls, k + 1, j);
    if EndsStoredLease(c, calls, k) && calls[j].TaskCall? && calls[j].action == Start {
      FreshStartAcceptance(c, calls, j);
      if |TerminatedBy(c, calls, j)| - at <= c.tombstoneLimit {
        RecentKeyIsKept(TerminatedBy(c, calls, j), c.tombstoneLimit, at);
      }
    }
  }
}
