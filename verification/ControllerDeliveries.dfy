/** How the controller's book of cleanups empties, what the controller sends, and that the manager's next report
    tells the outcome of what was delivered. */
module ControllerDeliveries {
  import opened Options
  import opened Arbitration
  import opened LeaseRuns
  import opened TaskReports
  import opened ControllerAccounting
  import opened ControllerTheorems

  /** The report shows that the identity's lease is over: finished, cancelled, expired or blocked. */
  predicate ShowsTheEnd(r: Report, id: Identity) {
    && r.id == id && !r.active && r.lease == ""
    && r.status in {StatusFinished, StatusCancelled, StatusExpired, StatusBlocked}
  }

  /** The report shows that the identity's start was refused. */
  predicate ShowsTheRefusal(r: Report, id: Identity) {
    r.lastAction == Requested(Start) && r.lastId == id && !r.lastAccepted
  }

  /** The report shows the identity active, with this lease. */
  predicate ShowsTheLease(r: Report, id: Identity, lease: string) {
    r.id == id && r.active && r.lease == lease && lease != ""
  }

  /** A report settles a pending cleanup exactly when it shows its lease over or its start refused; when it shows
      a lease instead and no cancel was sent, the cancel is sent now and the cleanup stays. */
  lemma ReportSettlesExactlyWhen(sys: System, states: seq<State>, events: seq<Event>, k: nat, id: Identity)
    requires Run(sys, states, events) && k < |events| && events[k].Receive? && id in states[k].book.pending
    ensures var (r, sent, after) := (events[k].report, states[k].book.pending[id], states[k + 1].book.pending);
            if !sent && ShowsTheLease(r, id, r.lease) then
              id in after && after[id] && Control(Cancel, id, r.lease) in states[k + 1].channel
            else
              && (id !in after <==> ShowsTheEnd(r, id) || ShowsTheRefusal(r, id))
              && (id in after ==> after[id] == sent)
  {
    var s, r := states[k], events[k].report;
    if CancelsNow(s.book.pending, r, id) {
      assert Control(Cancel, id, r.lease) in multiset(CancelsFor(s.book.pending, r));
    }
  }

  lemma OnlyReceiptAndRegistrationTouchTheBook(sys: System, s: State, e: Event)
    requires Enabled(sys, s, e) && Step(sys, s, e).book != s.book
    ensures || e.Receive?
            || (s.goal.Some? && !s.goal.value.stage.Admitted? && Step(sys, s, e).goal.None?
                && Step(sys, s, e).book == Registered(s.book, s.goal.value.id))
  {
    hide Received, Registered, CancelsFor, CancelsOnRegistering, Called, ReportOf, StartWasAccepted, StartWasRejected,
      IsTerminal;
  }

  /** An identity leaves the book in no other way than by such a report, or when its own goal ends while the
      latest report shows its lease over. */
  lemma BookEmptiesOnlyBySettlement(sys: System, states: seq<State>, events: seq<Event>, k: nat, id: Identity)
    requires Run(sys, states, events) && k < |events|
    requires id in states[k].book.pending && id !in states[k + 1].book.pending
    ensures || (events[k].Receive? && (ShowsTheEnd(events[k].report, id) || ShowsTheRefusal(events[k].report, id)))
            || (&& states[k].goal.Some? && states[k].goal.value.id == id && states[k + 1].goal.None?
                && states[k].book.latest.Some? && ShowsTheEnd(states[k].book.latest.value, id))
  {
    OnlyReceiptAndRegistrationTouchTheBook(sys, states[k], events[k]);
    if events[k].Receive? {
      ReportSettlesExactlyWhen(sys, states, events, k, id);
    }
    hide Enabled, Step, Received, CancelsFor, CancelsOnRegistering;
  }

  // ---------------------------------------------------------------- what the controller sends

  predicate GoalIsNew(s: State) {
    && s.book.pending.Keys <= s.used
    && (s.goal.Some? ==> s.goal.value.id in s.used && s.goal.value.id !in s.book.pending)
  }

  lemma StepKeepsGoalNew(sys: System, s: State, e: Event)
    requires Enabled(sys, s, e) && GoalIsNew(s)
    ensures GoalIsNew(Step(sys, s, e))
  {
    hide Called, ReportOf, CancelsFor, CancelsOnRegistering, StartWasAccepted, StartWasRejected, IsTerminal;
  }

  /** The identity of the running goal is not in the book. */
  lemma {:induction false} RunningGoalIsNotInTheBook(sys: System, states: seq<State>, events: seq<Event>, k: nat)
    requires Run(sys, states, events) && k < |states|
    ensures GoalIsNew(states[k])
  {
    if k > 0 {
      RunningGoalIsNotInTheBook(sys, states, events, k - 1);
      StepKeepsGoalNew(sys, states[k - 1], events[k - 1]);
    }
  }

  /** A goal that published its start ends in the book, marked as cancelled if the latest report shows its lease, except
      in two cases: its lease is shown over, or it ends because its start is shown refused. */
  lemma GoalEndsInTheBookUnlessSettled(sys: System, states: seq<State>, events: seq<Event>, k: nat)
    requires Run(sys, states, events) && k < |events|
    requires states[k].goal.Some? && !states[k].goal.value.stage.Admitted? && states[k + 1].goal.None?
    ensures var (id, latest, after) := (states[k].goal.value.id, states[k].book.latest, states[k + 1].book.pending);
            && (id !in after <==> (latest.Some? && ShowsTheEnd(latest.value, id)) || events[k].LeaseRejected?)
            && (id in after ==>
                  (after[id] <==> latest.Some? && ShowsTheLease(latest.value, id, latest.value.lease)))
    ensures events[k].LeaseRejected? ==>
              && states[k].book.latest.Some? && ShowsTheRefusal(states[k].book.latest.value, states[k].goal.value.id)
              && states[k].goal.value.stage.Waiting?
              && states[k].book.received > states[k].goal.value.stage.since
  {
    RunningGoalIsNotInTheBook(sys, states, events, k);
    GoalEndStep(sys, states[k], events[k]);
    hide Step, ShowsTheEnd, ShowsTheRefusal, ShowsTheLease;
  }

  lemma LeavingPending(s: State, id: Identity)
    ensures var after := LeftPending(s, id).book.pending;
            && (id !in after <==> s.book.latest.Some? && ShowsTheEnd(s.book.latest.value, id))
            && (id in after ==>
                  (after[id] <==>
                     s.book.latest.Some? && ShowsTheLease(s.book.latest.value, id, s.book.latest.value.lease)))
  {
    hide CancelsOnRegistering;
  }

  lemma GoalEndStep(sys: System, s: State, e: Event)
    requires Enabled(sys, s, e) && GoalIsNew(s)
    requires s.goal.Some? && !s.goal.value.stage.Admitted? && Step(sys, s, e).goal.None?
    ensures var (id, latest, after) := (s.goal.value.id, s.book.latest, Step(sys, s, e).book.pending);
            && (id !in after <==> (latest.Some? && ShowsTheEnd(latest.value, id)) || e.LeaseRejected?)
            && (id in after ==>
                  (after[id] <==> latest.Some? && ShowsTheLease(latest.value, id, latest.value.lease)))
    ensures e.LeaseRejected? ==>
              && s.book.latest.Some? && ShowsTheRefusal(s.book.latest.value, s.goal.value.id)
              && s.goal.value.stage.Waiting? && s.book.received > s.goal.value.stage.since
  {
    LeavingPending(s, s.goal.value.id);
    hide Received, CancelsFor, CancelsOnRegistering, Called, ReportOf, StartWasAccepted, LeftPending, ShowsTheLease;
  }

  lemma ReportStep(sys: System, s: State, e: Event)
    requires Enabled(sys, s, e)
    ensures var book := Step(sys, s, e).book;
            if e.Receive? then book.latest == Some(e.report) && book.received == s.book.received + 1
            else book.latest == s.book.latest && book.received == s.book.received
  {
    hide Called, ReportOf, CancelsFor, CancelsOnRegistering, StartWasAccepted, StartWasRejected, IsTerminal;
  }

  function ReportsBefore(events: seq<Event>, k: nat): seq<Report>
    requires k <= |events|
  {
    if k == 0 then []
    else ReportsBefore(events, k - 1) + (if events[k - 1].Receive? then [events[k - 1].report] else [])
  }

  /** The latest report is the last one received, and all received ones are counted. */
  lemma {:induction false} LatestReportOfARun(sys: System, states: seq<State>, events: seq<Event>, k: nat)
    requires Run(sys, states, events) && k < |states|
    ensures var reports := ReportsBefore(events, k);
            && states[k].book.received == |reports|
            && states[k].book.latest == if reports == [] then None else Some(reports[|reports| - 1])
  {
    if k > 0 {
      LatestReportOfARun(sys, states, events, k - 1);
      ReportStep(sys, states[k - 1], events[k - 1]);
      hide Step;
    }
  }

  /** The start, the keepalives and the release of a goal are sent, with the lease the goal holds; a goal that is
      given up while its lease is shown has its cancel sent. */
  lemma ControllerMessagesAreSent(sys: System, states: seq<State>, events: seq<Event>, k: nat)
    requires Run(sys, states, events) && k < |events| && states[k].goal.Some?
    ensures var (g, e, latest, sent) :=
              (states[k].goal.value, events[k], states[k].book.latest, states[k + 1].channel);
            && (e.PublishStart? ==> Control(Start, g.id, "") in sent && g.id in states[k + 1].started)
            && (e.Refresh? ==> g.stage.Holding? && Control(Keepalive, g.id, g.stage.lease) in sent)
            && (e.BeginRelease? && !(latest.Some? && ShowsTheEnd(latest.value, g.id)) ==>
                  && !g.stage.Admitted? && !g.stage.Waiting?
                  && Control(if e.finish then Finish else Cancel, g.id, g.stage.lease) in sent
                  && states[k + 1].goal.Some? && states[k + 1].goal.value.id == g.id
                  && states[k + 1].goal.value.stage
                     == Releasing(if e.finish then Finish else Cancel, g.stage.lease, states[k].book.received))
            && ((e.GiveUp? || e.ReleaseUnconfirmed?) && latest.Some?
                && ShowsTheLease(latest.value, g.id, latest.value.lease)
                ==> Control(Cancel, g.id, latest.value.lease) in sent)
  {
    var s := states[k];
    var e, id := events[k], s.goal.value.id;
    if (e.GiveUp? || e.ReleaseUnconfirmed?) && s.book.latest.Some?
      && ShowsTheLease(s.book.latest.value, id, s.book.latest.value.lease)
    {
      assert Control(Cancel, id, s.book.latest.value.lease) in multiset(CancelsOnRegistering(s.book, id));
    }
    hide Received, Registered, CancelsFor, Called, ReportOf, StartWasAccepted, StartWasRejected;
  }

  /** A goal takes the lease that the latest report shows, and only when that report shows its own start accepted. */
  lemma GoalTakesTheShownLease(sys: System, states: seq<State>, events: seq<Event>, k: nat)
    requires Run(sys, states, events) && k < |events| && states[k].goal.Some? && states[k + 1].goal.Some?
    requires states[k].goal.value.stage.Waiting? && !states[k + 1].goal.value.stage.Waiting?
    ensures states[k].book.latest.Some? && states[k].book.received > states[k].goal.value.stage.since
    ensures var (r, id) := (states[k].book.latest.value, states[k].goal.value.id);
            && ShowsTheLease(r, id, r.lease) && r.lastAction == Requested(Start) && r.lastId == id && r.lastAccepted
            && states[k + 1].goal == Some(Goal(id, Holding(r.lease)))
  {
    hide Received, Registered, CancelsFor, CancelsOnRegistering, Called, ReportOf, IsTerminal;
  }

  // ---------------------------------------------------------------- what the next report tells

  lemma ReportAfterGrant(c: Config, a: Arb, call: Call)
    requires c.Valid() && Sane(c, a) && MintsNow(c, a, call)
    ensures var r := ReportOf(c, Refreshed(c, Do(c, a, call).0, call.now), call.now);
            && r.active && r.id == call.id && r.lease == call.minted
            && r.lastAction == Requested(Start) && r.lastId == call.id && r.lastAccepted
  {
    CallEffect(c, a, call);
    CallNotes(c, a, call);
    CallStaysSane(c, a, call);
    AcceptedNote(c, a, call);
    hide Do, Sane;
  }

  lemma AcceptedNote(c: Config, a: Arb, call: Call)
    requires c.Valid() && Sane(c, a) && call.TaskCall? && Do(c, a, call).1 == Accepted
    ensures var b := Do(c, a, call).0;
            b.lastAction == Requested(call.action) && b.lastIdentity == call.id && b.lastAccepted
  {
    RefreshEffect(c, a, call.now);
    var b := Refreshed(c, a, call.now);
    var d := TaskChanged(c, b, call.action, call.now, call.id, call.minted);
    var noted := TaskNoted(d, call.action, call.id, Accepted);
    assert noted.taskTime.None? || TaskHeld(c, noted, call.now);
    assert TaskExpired(c, noted, call.now) == noted;
    hide Remembered, TaskControlVerdict;
  }

  lemma RefusedNote(c: Config, a: Arb, call: Call)
    requires IsStart(call) && Do(c, a, call).1 != Accepted
    ensures var b := Do(c, a, call).0;
            b.lastAction == Requested(Start) && b.lastIdentity == call.id && !b.lastAccepted
  {
    hide Refreshed, TaskControlVerdict;
  }

  lemma ReportAfterRefusal(c: Config, a: Arb, call: Call)
    requires c.Valid() && Sane(c, a) && IsStart(call) && Do(c, a, call).1 != Accepted
    ensures ShowsTheRefusal(ReportOf(c, Refreshed(c, Do(c, a, call).0, call.now), call.now), call.id)
  {
    RefusedNote(c, a, call);
    CallEffect(c, a, call);
    CallStaysSane(c, a, call);
    hide Do, Sane;
    RefusedNothingExpires(c, a, call);
  }

  lemma RefusedNothingExpires(c: Config, a: Arb, call: Call)
    requires c.Valid() && Sane(c, a) && IsStart(call) && Do(c, a, call).1 != Accepted
    ensures var b := Do(c, a, call).0; TaskExpired(c, b, call.now) == b
  {
    RefreshEffect(c, a, call.now);
    hide Refreshed, TaskControlVerdict, Remembered;
  }

  lemma ReportAfterEnd(c: Config, a: Arb, call: Call)
    requires c.Valid() && Sane(c, a) && call.TaskCall? && (call.action == Finish || call.action == Cancel)
    requires Do(c, a, call).1 == Accepted
    ensures var r := ReportOf(c, Refreshed(c, Do(c, a, call).0, call.now), call.now);
            ShowsTheEnd(r, call.id) && r.status == if call.action == Finish then StatusFinished else StatusCancelled
  {
    AcceptedNote(c, a, call);
    CallEffect(c, a, call);
    CallNotes(c, a, call);
    CallStaysSane(c, a, call);
    LeaseAnswer(c, a, call);
    UnderEstopNothingIsAccepted(c, a, call);
    hide Do;
  }

  lemma UnderEstopNothingIsAccepted(c: Config, a: Arb, call: Call)
    requires c.Valid() && Sane(c, a) && call.TaskCall? && Do(c, a, call).1 == Accepted
    ensures !Do(c, a, call).0.estop
  {
    EstopEffectOnly(c, a, call);
    hide Refreshed;
  }

  /** The report the manager publishes on handling a control message tells its outcome: the granted lease, the
      refusal, or the end of the lease by finish or cancel. */
  lemma NextReportTellsTheOutcome(sys: System, states: seq<State>, events: seq<Event>, k: nat) returns (r: Report)
    requires Run(sys, states, events) && k + 1 < |events| && events[k].Deliver?
    requires events[k + 1] == PublishReport(events[k].now)
    ensures r in states[k + 2].reports
    ensures var (a, call) := (states[k].core.arb, CallOf(events[k]));
            && (MintsNow(sys.config, a, call) ==>
                  && r.active && r.id == call.id && r.lease == call.minted
                  && r.lastAction == Requested(Start) && r.lastId == call.id && r.lastAccepted)
            && (IsStart(call) && Do(sys.config, a, call).1 != Accepted ==> ShowsTheRefusal(r, call.id))
            && (call.TaskCall? && (call.action == Finish || call.action == Cancel)
                && Do(sys.config, a, call).1 == Accepted ==>
                  && ShowsTheEnd(r, call.id)
                  && r.status == if call.action == Finish then StatusFinished else StatusCancelled)
  {
    RunKeepsInv(sys, states, events, k);
    var c, a, call := sys.config, states[k].core.arb, CallOf(events[k]);
    assert Sane(c, a) by { assert CoreInv(sys, states[k].core) && Remembers(sys, states[k].core); }
    r := ReportOf(c, Refreshed(c, Do(c, a, call).0, call.now), call.now);
    if MintsNow(c, a, call) {
      ReportAfterGrant(c, a, call);
    }
    if IsStart(call) && Do(c, a, call).1 != Accepted {
      ReportAfterRefusal(c, a, call);
    }
    if call.TaskCall? && (call.action == Finish || call.action == Cancel) && Do(c, a, call).1 == Accepted {
      ReportAfterEnd(c, a, call);
    }
    PublishedReport(sys, states, events, k);
  }

  lemma PublishedReport(sys: System, states: seq<State>, events: seq<Event>, k: nat)
    requires Run(sys, states, events) && k + 1 < |events| && events[k].Deliver?
    requires events[k + 1] == PublishReport(events[k].now)
    ensures var after := Do(sys.config, states[k].core.arb, CallOf(events[k])).0;
            ReportOf(sys.config, Refreshed(sys.config, after, events[k].now), events[k].now) in states[k + 2].reports
  {
    hide Step, Enabled, Refreshed, ReportOf, Do;
    ArbitratorOfAStep(sys, states[k], events[k]);
    ArbitratorOfAStep(sys, states[k + 1], events[k + 1]);
  }

  lemma ArbitratorOfAStep(sys: System, s: State, e: Event)
    requires Enabled(sys, s, e)
    ensures e.Deliver? ==> Step(sys, s, e).core.arb == Do(sys.config, s.core.arb, CallOf(e)).0
    ensures e.PublishReport? ==>
              ReportOf(sys.config, Refreshed(sys.config, s.core.arb, e.now), e.now) in Step(sys, s, e).reports
  {
    hide Refreshed, ReportOf, MintsNow, EndsStoredNow, TaskControl;
  }
}
