/** What the arbitrator shows: its mode, the task status it publishes, and why it refuses, in terms of the calls
    made. */
module StatusRuns {
  import opened Options
  import opened Arbitration
  import opened LeaseRuns
  import opened TeleopRuns
  import opened TaskReports

  // ---------------------------------------------------------------- the last motion command

  predicate MovesAt(c: Config, calls: seq<Call>, k: nat)
    requires k < |calls|
  {
    calls[k].CommandCall? && calls[k].source == Motion && Verdict(c, calls, k) == Accepted
  }

  predicate ClearsMotion(c: Config, calls: seq<Call>, k: nat)
    requires k < |calls|
  {
    Mints(c, calls, k) || (calls[k].EstopCall? && calls[k].active)
  }

  /** The last accepted motion command among the first `n` calls that no fresh task start and no e-stop came after. */
  function LatestMotion(c: Config, calls: seq<Call>, n: nat): (k: Option<nat>)
    requires n <= |calls|
    ensures k.Some? ==> k.value < n
  {
    if n == 0 || ClearsMotion(c, calls, n - 1) then None
    else if MovesAt(c, calls, n - 1) then Some(n - 1)
    else LatestMotion(c, calls, n - 1)
  }

  lemma {:induction false} LatestMotionIsTheLatest(c: Config, calls: seq<Call>, n: nat, k: nat)
    requires k < n <= |calls|
    ensures LatestMotion(c, calls, n) == Some(k) <==>
              && MovesAt(c, calls, k) && !ClearsMotion(c, calls, k)
              && forall x | k < x < n :: !MovesAt(c, calls, x) && !ClearsMotion(c, calls, x)
  {
    hide MovesAt, ClearsMotion;
    if k < n - 1 {
      LatestMotionIsTheLatest(c, calls, n - 1, k);
    }
  }

  predicate MotionTimeIs(c: Config, a: Arb, call: Call) {
    var (b, verdict) := Do(c, a, call);
    b.motionTime ==
      if MintsNow(c, a, call) || (call.EstopCall? && call.active) then None
      else if call.CommandCall? && call.source == Motion && verdict == Accepted then Some(call.now)
      else a.motionTime
  }

  lemma TaskChangeMotionTime(c: Config, a: Arb, call: Call)
    requires call.TaskCall?
    ensures TaskNoted(TaskChanged(c, a, call.action, call.now, call.id, call.minted), call.action, call.id, Accepted)
              .motionTime
            == if (call.action == Start || call.action == Keepalive) && !TaskHeld(c, a, call.now) then None
               else a.motionTime
  {
    MotionTimeIsKept(c, a, call.now);
    hide Remembered;
  }

  lemma TaskMotionTime(c: Config, a: Arb, call: Call)
    requires c.Valid() && Sane(c, a) && call.TaskCall?
    ensures MotionTimeIs(c, a, call)
  {
    RefreshEffect(c, a, call.now);
    MotionTimeIsKept(c, a, call.now);
    var b := Refreshed(c, a, call.now);
    TaskChangeMotionTime(c, b, call);
    var d := TaskChanged(c, b, call.action, call.now, call.id, call.minted);
    MotionTimeIsKept(c, TaskNoted(d, call.action, call.id, Accepted), call.now);
    var verdict := TaskControlVerdict(c, b, call.action, call.now, call.id, call.lease);
    assert verdict == Accepted && call.action == Keepalive ==> TaskHeld(c, b, call.now);
    hide Refreshed, TaskChanged, Remembered, Sane, TaskControlVerdict, TaskHeld;
  }

  lemma CommandMotionTime(c: Config, a: Arb, call: Call)
    requires call.CommandCall?
    ensures MotionTimeIs(c, a, call)
  {
    MotionTimeIsKept(c, a, call.now);
    var b := Refreshed(c, a, call.now);
    MotionTimeIsKept(c, if call.source == Motion then b.(motionTime := Some(call.now)) else b, call.now);
    hide Refreshed, CommandVerdict;
  }

  lemma MotionTimeAfterCall(c: Config, a: Arb, call: Call)
    requires c.Valid() && Sane(c, a)
    ensures MotionTimeIs(c, a, call)
  {
    MotionTimeIsKept(c, a, call.now);
    hide Refreshed, TaskControl, Command, TeleopControl, Sane;
    match call
    case TaskCall(_, _, _, _, _) => TaskMotionTime(c, a, call);
    case EstopCall(active, now) => EstopMotionTime(c, a, active, now);
    case CommandCall(_, _, _, _) => CommandMotionTime(c, a, call);
    case TeleopCall(_, _, _, _, _) => TeleopMotionTime(c, a, call);
    case _ =>
  }

  lemma MotionTimeIsKept(c: Config, a: Arb, now: real)
    ensures Refreshed(c, a, now).motionTime == TaskExpired(c, a, now).motionTime == a.motionTime
    ensures Remembered(c, a).motionTime == a.motionTime
  {}

  lemma EstopMotionTime(c: Config, a: Arb, active: bool, now: real)
    ensures EstopSet(c, a, active, now).motionTime == if active then None else a.motionTime
  {
    MotionTimeIsKept(c, a, now);
    var b := TaskExpired(c, a, now);
    var e := TaskStopped(c, b, now);
    MotionTimeIsKept(c, TeleopCleared(TaskCleared(e)).(estop := true, motionTime := None), now);
    MotionTimeIsKept(c, b.(estop := false), now);
    hide Refreshed, TaskExpired, Remembered;
  }

  lemma TeleopMotionTime(c: Config, a: Arb, call: Call)
    requires call.TeleopCall?
    ensures Do(c, a, call).0.motionTime == a.motionTime
  {
    MotionTimeIsKept(c, a, call.now);
    var b := Refreshed(c, a, call.now);
    var d := TeleopChanged(c, b, call.teleop, call.now, call.requester, call.minted);
    MotionTimeIsKept(c, d, call.now);
    hide Refreshed, TeleopControlVerdict;
  }

  lemma MotionTimeOfAStep(c: Config, calls: seq<Call>, k: nat)
    requires c.Valid() && k < |calls|
    ensures StateAt(c, calls, k + 1).motionTime ==
              if ClearsMotion(c, calls, k) then None
              else if MovesAt(c, calls, k) then Some(calls[k].now)
              else StateAt(c, calls, k).motionTime
  {
    StepFacts(c, calls, k);
    MotionTimeAfterCall(c, StateAt(c, calls, k), calls[k]);
    hide Do, StateAt, MintsNow, Sane, LeaseEffect, TombstoneEffect;
  }

  lemma {:induction false} MotionTimeOfARun(c: Config, calls: seq<Call>, n: nat)
    requires c.Valid() && n <= |calls|
    ensures var k := LatestMotion(c, calls, n);
            StateAt(c, calls, n).motionTime == if k.Some? then Some(calls[k.value].now) else None
  {
    if n > 0 {
      hide Do, StateAt, ClearsMotion, MovesAt;
      MotionTimeOfARun(c, calls, n - 1);
      MotionTimeOfAStep(c, calls, n - 1);
    }
  }

  // ---------------------------------------------------------------- the mode

  lemma ModeIsCurrent(c: Config, a: Arb, call: Call)
    ensures var b := Do(c, a, call).0; b.mode == ModeAt(c, b, call.now)
  {
    hide TaskExpired, TeleopExpired, Remembered, TaskControlVerdict, TeleopControlVerdict, CommandVerdict;
  }

  lemma LeasesAreCurrent(c: Config, a: Arb, call: Call)
    requires c.Valid() && Sane(c, a)
    ensures var b := Do(c, a, call).0;
            && (b.taskTime.Some? <==> TaskHeld(c, b, call.now))
            && (b.teleopTime.Some? <==> TeleopHeld(c, b, call.now))
  {
    CallEffect(c, a, call);
    CallLeaseEffect(c, a, call);
    hide Do, Sane;
  }

  /** Some task lease lasts after the first `n` calls. */
  ghost predicate TaskLeaseLasts(c: Config, calls: seq<Call>, n: nat)
    requires n <= |calls|
  {
    exists i :: 0 <= i < n && Lease(c, calls, i, n)
  }

  ghost predicate TeleopLeaseLasts(c: Config, calls: seq<Call>, n: nat)
    requires n <= |calls|
  {
    exists i :: 0 <= i < n && TeleopLease(c, calls, i, n)
  }

  lemma TaskLeaseIsStored(c: Config, calls: seq<Call>, n: nat)
    requires c.Valid() && n <= |calls|
    ensures TaskLeaseLasts(c, calls, n) <==> StateAt(c, calls, n).taskTime.Some?
  {
    hide StateAt, Mints, Renews, Ends;
    if StateAt(c, calls, n).taskTime.Some? {
      var i := StoredLeaseWasMinted(c, calls, n);
    }
    if i :| 0 <= i < n && Lease(c, calls, i, n) {
      var r := LeaseIsStored(c, calls, i, n);
    }
  }

  lemma TeleopLeaseIsKept(c: Config, calls: seq<Call>, n: nat)
    requires c.Valid() && n <= |calls|
    ensures TeleopLeaseLasts(c, calls, n) <==> StateAt(c, calls, n).teleopTime.Some?
  {
    hide StateAt, Claims, Refreshes, Drops;
    if StateAt(c, calls, n).teleopTime.Some? {
      var i := StoredTeleopWasClaimed(c, calls, n);
    }
    if i :| 0 <= i < n && TeleopLease(c, calls, i, n) {
      var r := TeleopLeaseIsStored(c, calls, i, n);
    }
  }

  /** After the first `n` calls, seen at the time of the last of them. */
  lemma LeasesAfterCalls(c: Config, calls: seq<Call>, n: nat)
    requires c.Valid() && 0 < n <= |calls|
    ensures var b, now := StateAt(c, calls, n), calls[n - 1].now;
            && (TaskLeaseLasts(c, calls, n) <==> TaskHeld(c, b, now))
            && (TeleopLeaseLasts(c, calls, n) <==> TeleopHeld(c, b, now))
            && (EstopInForce(calls, n) <==> b.estop)
            && b.mode == ModeAt(c, b, now)
  {
    hide Do, StateAt, Sane, LeaseEffect, TombstoneEffect, TaskLeaseLasts, TeleopLeaseLasts, ModeAt;
    StepFacts(c, calls, n - 1);
    LeasesAreCurrent(c, StateAt(c, calls, n - 1), calls[n - 1]);
    ModeIsCurrent(c, StateAt(c, calls, n - 1), calls[n - 1]);
    EstopIsTheLastCall(c, calls, n);
    TaskLeaseIsStored(c, calls, n);
    TeleopLeaseIsKept(c, calls, n);
  }

  /** After any calls the mode is the first that applies: e-stop, task, teleop, recent motion, or idle. */
  lemma ModeTellsWhoDrives(c: Config, calls: seq<Call>, n: nat)
    requires c.Valid() && 0 < n <= |calls|
    ensures StateAt(c, calls, n).mode ==
              if EstopInForce(calls, n) then EstopMode
              else if TaskLeaseLasts(c, calls, n) then TaskActive
              else if TeleopLeaseLasts(c, calls, n) then TeleopActive
              else
                var k := LatestMotion(c, calls, n);
                if k.Some? && calls[n - 1].now - calls[k.value].now <= c.motionTimeout then MotionActive else Idle
  {
    hide Do, StateAt, TaskLeaseLasts, TeleopLeaseLasts, TaskHeld, TeleopHeld, LatestMotion, EstopInForce;
    LeasesAfterCalls(c, calls, n);
    MotionTimeOfARun(c, calls, n);
  }

  // ---------------------------------------------------------------- the task status

  /** A start, keepalive, finish, cancel or other task control, answered by the arbitrator or refused in its stead. */
  predicate IsControl(call: Call) {
    call.TaskCall? || call.TaskRefusedCall?
  }

  /** The call leaves a note: a task control, or whatever ended a lease. */
  predicate Notes(c: Config, calls: seq<Call>, k: nat)
    requires k < |calls|
  {
    IsControl(calls[k]) || EndsStoredLease(c, calls, k)
  }

  /** What call `k` leaves noted. */
  predicate NoteIs(c: Config, calls: seq<Call>, k: nat, a: Arb)
    requires k < |calls|
  {
    if IsControl(calls[k]) then
      && a.lastAction == Requested(calls[k].action) && a.lastIdentity == calls[k].id
      && a.lastReason == Verdict(c, calls, k) && (a.lastAccepted <==> Verdict(c, calls, k) == Accepted)
    else
      && a.lastIdentity == StateAt(c, calls, k).identity && !a.lastAccepted
      && a.lastAction == (if calls[k].EstopCall? && calls[k].active
                             && TaskHeld(c, StateAt(c, calls, k), calls[k].now) then Stopped else TimedOut)
      && a.lastReason != NoReason
  }

  /** `b` notes that the lease of `a` ran out. */
  predicate IsExpiryOf(a: Arb, b: Arb) {
    b.lastAction == TimedOut && b.lastIdentity == a.identity && !b.lastAccepted && b.lastReason == LeaseExpired
  }

  /** `b` notes that an e-stop took the lease of `a`. */
  predicate IsStopOf(a: Arb, b: Arb) {
    b.lastAction == Stopped && b.lastIdentity == a.identity && !b.lastAccepted && b.lastReason == Estop
  }

  predicate SameNote(a: Arb, b: Arb) {
    && a.lastAction == b.lastAction && a.lastIdentity == b.lastIdentity
    && a.lastAccepted == b.lastAccepted && a.lastReason == b.lastReason
  }

  lemma NoteAfterRefresh(c: Config, a: Arb, now: real)
    ensures a.taskTime.None? || TaskHeld(c, a, now) ==>
              SameNote(a, Refreshed(c, a, now)) && SameNote(a, TaskExpired(c, a, now))
    ensures a.taskTime.Some? && !TaskHeld(c, a, now) ==>
              var b := Refreshed(c, a, now);
              && SameNote(b, TaskExpired(c, a, now))
              && IsExpiryOf(a, b)
    ensures SameNote(a, Remembered(c, a)) && Remembered(c, a).taskTime == a.taskTime
  {}

  lemma ControlNote(c: Config, a: Arb, call: Call)
    requires c.Valid() && Sane(c, a) && IsControl(call)
    ensures var (b, verdict) := Do(c, a, call);
            && b.lastAction == Requested(call.action) && b.lastIdentity == call.id
            && b.lastReason == verdict && (b.lastAccepted <==> verdict == Accepted)
  {
    if call.TaskCall? {
      var b := Refreshed(c, a, call.now);
      var verdict := TaskControlVerdict(c, b, call.action, call.now, call.id, call.lease);
      if verdict == Accepted {
        var d := TaskChanged(c, b, call.action, call.now, call.id, call.minted);
        NoteAfterRefresh(c, TaskNoted(d, call.action, call.id, Accepted), call.now);
      }
    }
    hide Refreshed, TaskExpired, Remembered, TaskControlVerdict, Sane;
  }

  predicate NoteIsRefreshed(c: Config, a: Arb, call: Call) {
    var b := Do(c, a, call).0;
    if a.taskTime.Some? && !TaskHeld(c, a, call.now) then IsExpiryOf(a, b) else SameNote(a, b)
  }

  lemma CommandNote(c: Config, a: Arb, call: Call)
    requires c.Valid() && Sane(c, a) && call.CommandCall?
    ensures NoteIsRefreshed(c, a, call)
  {
    NoteAfterRefresh(c, a, call.now);
    RefreshEffect(c, a, call.now);
    var b := Refreshed(c, a, call.now);
    NoteAfterRefresh(c, if call.source == Motion then b.(motionTime := Some(call.now)) else b, call.now);
    hide Refreshed, TaskExpired, Remembered, CommandVerdict, Sane;
  }

  lemma TeleopKeepsTheNote(c: Config, a: Arb, call: Call)
    requires call.TeleopCall?
    ensures var b := TeleopChanged(c, a, call.teleop, call.now, call.requester, call.minted);
            SameNote(a, b) && b.taskTime == a.taskTime
  {}

  lemma TeleopNote(c: Config, a: Arb, call: Call)
    requires c.Valid() && Sane(c, a) && call.TeleopCall?
    ensures NoteIsRefreshed(c, a, call)
  {
    NoteAfterRefresh(c, a, call.now);
    RefreshEffect(c, a, call.now);
    var b := Refreshed(c, a, call.now);
    TeleopKeepsTheNote(c, b, call);
    NoteAfterRefresh(c, TeleopChanged(c, b, call.teleop, call.now, call.requester, call.minted), call.now);
    hide Refreshed, TaskExpired, Remembered, TeleopControlVerdict, TeleopChanged, TeleopHeld, Sane;
  }

  lemma OtherNote(c: Config, a: Arb, call: Call)
    requires c.Valid() && Sane(c, a) && !IsControl(call) && !call.EstopCall?
    ensures NoteIsRefreshed(c, a, call)
  {
    if call.CommandCall? {
      CommandNote(c, a, call);
    } else if call.TeleopCall? {
      TeleopNote(c, a, call);
    } else {
      NoteAfterRefresh(c, a, call.now);
      hide Refreshed, Sane;
    }
  }

  lemma EstopNote(c: Config, a: Arb, call: Call)
    requires c.Valid() && Sane(c, a) && call.EstopCall?
    ensures var b := Do(c, a, call).0;
            if a.taskTime.Some? && !TaskHeld(c, a, call.now)
            then IsExpiryOf(a, b)
            else if a.taskTime.Some? && call.active
            then IsStopOf(a, b)
            else SameNote(a, b)
  {
    var now := call.now;
    NoteAfterRefresh(c, a, now);
    var b := TaskExpired(c, a, now);
    NoteAfterRefresh(c, b, now);
    var e := TaskStopped(c, b, now);
    NoteAfterRefresh(c, TeleopCleared(TaskCleared(e)).(estop := true, motionTime := None), now);
    NoteAfterRefresh(c, b.(estop := false), now);
    assert if a.taskTime.Some? && !TaskHeld(c, a, now) then b.taskTime.None? else b == a;
    hide Refreshed, TaskExpired, Remembered, Sane;
  }

  lemma NoteAfterCall(c: Config, calls: seq<Call>, k: nat)
    requires c.Valid() && k < |calls|
    ensures Notes(c, calls, k) ==> NoteIs(c, calls, k, StateAt(c, calls, k + 1))
    ensures !Notes(c, calls, k) ==> SameNote(StateAt(c, calls, k), StateAt(c, calls, k + 1))
  {
    hide Do, StateAt, Sane;
    StepFacts(c, calls, k);
    var a := StateAt(c, calls, k);
    if IsControl(calls[k]) {
      ControlNote(c, a, calls[k]);
    } else if calls[k].EstopCall? {
      EstopNote(c, a, calls[k]);
    } else {
      OtherNote(c, a, calls[k]);
    }
  }

  /** The last of the first `n` calls that left a note. */
  function LatestNote(c: Config, calls: seq<Call>, n: nat): (k: Option<nat>)
    requires n <= |calls|
    ensures k.Some? ==> k.value < n
  {
    if n == 0 then None else if Notes(c, calls, n - 1) then Some(n - 1) else LatestNote(c, calls, n - 1)
  }

  lemma {:induction false} LatestNoteIsTheLatest(c: Config, calls: seq<Call>, n: nat, k: nat)
    requires k < n <= |calls|
    ensures LatestNote(c, calls, n) == Some(k) <==>
              Notes(c, calls, k) && forall x | k < x < n :: !Notes(c, calls, x)
  {
    hide Notes;
    if k < n - 1 {
      LatestNoteIsTheLatest(c, calls, n - 1, k);
    }
  }

  predicate NoteIsShown(c: Config, calls: seq<Call>, k: Option<nat>, a: Arb)
    requires k.Some? ==> k.value < |calls|
  {
    if k.Some? then NoteIs(c, calls, k.value, a) else SameNote(INITIAL, a)
  }

  lemma NotesCarryOver(c: Config, calls: seq<Call>, k: Option<nat>, a: Arb, b: Arb)
    requires (k.Some? ==> k.value < |calls|) && SameNote(a, b) && NoteIsShown(c, calls, k, a)
    ensures NoteIsShown(c, calls, k, b)
  {
    hide Do, StateAt, TaskHeld;
  }

  lemma {:induction false} LatestNoteIsShown(c: Config, calls: seq<Call>, n: nat)
    requires c.Valid() && n <= |calls|
    ensures NoteIsShown(c, calls, LatestNote(c, calls, n), StateAt(c, calls, n))
  {
    if n > 0 {
      hide Do, StateAt, NoteIs, Notes, SameNote;
      LatestNoteIsShown(c, calls, n - 1);
      NoteAfterCall(c, calls, n - 1);
      if !Notes(c, calls, n - 1) {
        NotesCarryOver(c, calls, LatestNote(c, calls, n - 1), StateAt(c, calls, n - 1), StateAt(c, calls, n));
      }
    }
  }

  /** The task status after the first `n` calls, at the time of the last of them. */
  function StatusAfter(c: Config, calls: seq<Call>, n: nat): Status
    requires 0 < n <= |calls|
  {
    TaskStatus(c, StateAt(c, calls, n), calls[n - 1].now)
  }

  /** The call was an e-stop that took a lease in force. */
  predicate TakesALease(c: Config, calls: seq<Call>, k: nat)
    requires k < |calls|
  {
    calls[k].EstopCall? && calls[k].active && TaskHeld(c, StateAt(c, calls, k), calls[k].now)
  }

  /** What the published status tells: blocked and active tell what is in force.  Otherwise finished, cancelled
      and rejected tell the last control, unless a lease was lost since; expired tells that one ran out, blocked
      that an e-stop took it, and idle that nothing of this happened. */
  lemma StatusTellsHowItEnded(c: Config, calls: seq<Call>, n: nat)
    requires c.Valid() && 0 < n <= |calls|
    ensures var (status, k) := (StatusAfter(c, calls, n), LatestNote(c, calls, n));
            if EstopInForce(calls, n) then status == StatusBlocked
            else if TaskLeaseLasts(c, calls, n) then status == StatusActive
            else if k.None? then status == StatusIdle
            else if !IsControl(calls[k.value]) then
              status == if TakesALease(c, calls, k.value) then StatusBlocked else StatusExpired
            else if Verdict(c, calls, k.value) != Accepted then status == StatusRejected
            else
              && (calls[k.value].action == Finish ==> status == StatusFinished)
              && (calls[k.value].action == Cancel ==> status == StatusCancelled)
              && (calls[k.value].action != Finish && calls[k.value].action != Cancel ==> status == StatusIdle)
  {
    hide Do, StateAt, TaskHeld, Notes, LatestNote, TaskLeaseLasts, TeleopLeaseLasts, EstopInForce, SameNote;
    LeasesAfterCalls(c, calls, n);
    LatestNoteIsShown(c, calls, n);
    var k := LatestNote(c, calls, n);
    if k.None? {
      NothingIsNoted(StateAt(c, calls, n));
    } else {
      AnswersAreReasons(c, calls, k.value);
    }
  }

  lemma NothingIsNoted(a: Arb)
    requires SameNote(INITIAL, a)
    ensures a.lastAction == NoAction && !a.lastAccepted && a.lastReason == NoReason
  {}

  lemma AnswersAreReasons(c: Config, calls: seq<Call>, k: nat)
    requires k < |calls|
    ensures Verdict(c, calls, k) != NoReason
  {
    hide Refreshed, StateAt;
  }
}
