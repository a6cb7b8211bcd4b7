/** What every run of the controller and the arbitrator keeps: no identity whose start was published is forgotten. */
module ControllerTheorems {
  import opened Options
  import opened ReplayMemory
  import opened Arbitration
  import opened LeaseRuns
  import opened TaskReports
  import opened ControllerAccounting

  // ---------------------------------------------------------------- the invariant

  predicate KnownLease(core: Core, id: Identity, lease: string) {
    id in core.granted && core.granted[id] == lease && lease != ""
  }

  /** Whatever the controller may conclude from a report is so. */
  ghost predicate Truthful(sys: System, core: Core, r: Report) {
    forall id | id in sys.mine ::
      && (IsTerminal(r, id) ==> id in core.ended && id in core.granted && id in core.processed)
      && (StartWasRejected(r, id) ==> id in core.processed && id !in core.granted)
      && (ActiveLease(r, id) != "" ==> KnownLease(core, id, ActiveLease(r, id)))
  }

  /** A start in the channel is the only one and was not handled; every other message carries the granted lease. */
  ghost predicate SoundMessage(sys: System, s: State, m: Control) {
    && m.id in s.started
    && (if m.action == Start then m.lease == "" && s.channel[m] == 1 && m.id !in s.core.processed
        else KnownLease(s.core, m.id, m.lease))
  }

  ghost predicate MessagesAreSound(sys: System, s: State) {
    forall m | m in s.channel :: SoundMessage(sys, s, m)
  }

  ghost predicate ReportsAreTruthful(sys: System, s: State) {
    && (forall r | r in s.reports :: Truthful(sys, s.core, r))
    && (s.book.latest.Some? ==> s.book.latest.value in s.reports)
  }

  ghost predicate RecordsAreSound(sys: System, s: State) {
    && (forall id | id in s.started :: id in s.used && id in sys.mine)
    && (forall id | id in sys.mine && id in s.core.processed :: id in s.started)
    && (forall id | id in s.book.pending :: id in s.started)
  }

  ghost predicate GoalIsSound(sys: System, s: State) {
    && RecordsAreSound(sys, s)
    && (s.goal.Some? ==>
          var g := s.goal.value;
          && g.id in s.used && g.id in sys.mine
          && (g.stage.Admitted? <==> g.id !in s.started)
          && (g.stage.Holding? || g.stage.Releasing? ==> KnownLease(s.core, g.id, g.stage.lease)))
  }

  predicate Accounted(s: State, id: Identity) {
    Running(s, id) || id in s.book.pending || Settled(s, id)
  }

  ghost predicate AllAccounted(s: State) {
    forall id | id in s.started :: Accounted(s, id)
  }

  ghost predicate Inv(sys: System, s: State) {
    && CoreInv(sys, s.core) && MessagesAreSound(sys, s) && ReportsAreTruthful(sys, s) && GoalIsSound(sys, s)
    && AllAccounted(s)
  }

  // ---------------------------------------------------------------- steps of the controller

  predicate ByController(e: Event) {
    !e.Deliver? && !e.Environment? && !e.PublishReport?
  }

  /** Messages about a granted lease, to identities whose start was published. */
  ghost predicate UseKnownLeases(s: State, messages: seq<Control>) {
    forall i | 0 <= i < |messages| ::
      && messages[i].action != Start && messages[i].id in s.started
      && KnownLease(s.core, messages[i].id, messages[i].lease)
  }

  lemma ControllerUsesKnownLeases(sys: System, s: State)
    requires MessagesAreSound(sys, s) && ReportsAreTruthful(sys, s) && GoalIsSound(sys, s)
    ensures forall id | id in s.started :: UseKnownLeases(s, CancelsOnRegistering(s.book, id))
    ensures forall r | r in s.reports :: UseKnownLeases(s, CancelsFor(s.book.pending, r))
  {
    hide IsTerminal, StartWasRejected, MessagesAreSound;
  }

  /** Messages stay sound when messages are lost, and when more are sent that use granted leases. */
  lemma SentStaysSound(sys: System, s: State, t: State, messages: seq<Control>)
    requires MessagesAreSound(sys, s) && UseKnownLeases(s, messages)
    requires t.channel <= s.channel + multiset(messages) && t.core == s.core && s.started <= t.started
    ensures MessagesAreSound(sys, t)
  {
    forall m | m in t.channel ensures SoundMessage(sys, t, m) {
      if m in messages {
        var i :| 0 <= i < |messages| && messages[i] == m;
      } else {
        assert m in s.channel && t.channel[m] <= s.channel[m];
      }
    }
  }

  lemma PublishedStartIsSound(sys: System, s: State)
    requires MessagesAreSound(sys, s) && GoalIsSound(sys, s) && Enabled(sys, s, PublishStart)
    ensures MessagesAreSound(sys, Step(sys, s, PublishStart))
  {
    var t := Step(sys, s, PublishStart);
    var start := Control(Start, s.goal.value.id, "");
    assert start !in s.channel;
    forall m | m in t.channel ensures SoundMessage(sys, t, m) {
      assert m == start || (m in s.channel && t.channel[m] == s.channel[m]);
    }
  }

  predicate EndsGoal(e: Event) {
    e.GiveUp? || e.ReleaseUnconfirmed? || e.ReleaseConfirmed?
  }

  lemma ControllerKeepsMessages(sys: System, s: State, e: Event)
    requires sys.Valid() && Enabled(sys, s, e) && Inv(sys, s) && ByController(e)
    ensures MessagesAreSound(sys, Step(sys, s, e))
  {
    hide CoreInv, AllAccounted, MessagesAreSound, Step, MessagesOf, UseKnownLeases, ReportsAreTruthful;
    if e.PublishStart? {
      PublishedStartIsSound(sys, s);
    } else {
      MessagesUseKnownLeases(sys, s, e);
      SentByStep(sys, s, e);
      SentStaysSound(sys, s, Step(sys, s, e), MessagesOf(s, e));
    }
  }

  lemma MessagesUseKnownLeases(sys: System, s: State, e: Event)
    requires Enabled(sys, s, e) && Inv(sys, s) && ByController(e)
    ensures UseKnownLeases(s, MessagesOf(s, e))
  {
    ControllerUsesKnownLeases(sys, s);
    hide CoreInv, AllAccounted, MessagesAreSound, Step, CancelsFor, CancelsOnRegistering, IsTerminal, StartWasAccepted,
      StartWasRejected, ReportsAreTruthful;
  }

  /** The messages a step of the controller publishes, besides a start. */
  function MessagesOf(s: State, e: Event): seq<Control> {
    match e
    case Receive(report) => CancelsFor(s.book.pending, report)
    case Refresh => if s.goal.Some? && s.goal.value.stage.Holding?
                    then [Control(Keepalive, s.goal.value.id, s.goal.value.stage.lease)] else []
    case BeginRelease(finish) =>
      if s.goal.None? || s.goal.value.stage.Admitted? || s.goal.value.stage.Waiting? then []
      else if ShownTerminal(s.book, s.goal.value.id) then CancelsOnRegistering(s.book, s.goal.value.id)
      else [Control(if finish then Finish else Cancel, s.goal.value.id, s.goal.value.stage.lease)]
    case _ =>
      if EndsGoal(e) && s.goal.Some? && !s.goal.value.stage.Admitted?
      then CancelsOnRegistering(s.book, s.goal.value.id) else []
  }

  lemma SentByStep(sys: System, s: State, e: Event)
    requires Enabled(sys, s, e) && ByController(e) && !e.PublishStart?
    ensures var t := Step(sys, s, e);
            t.core == s.core && t.started == s.started && t.channel <= s.channel + multiset(MessagesOf(s, e))
  {
    hide CancelsFor, CancelsOnRegistering, Received, Registered, IsTerminal, StartWasAccepted, StartWasRejected,
      NewReport;
    if e.BeginRelease? {
      SentOnRelease(sys, s, e);
    }
  }

  lemma SentOnRelease(sys: System, s: State, e: Event)
    requires Enabled(sys, s, e) && e.BeginRelease?
    ensures var t := Step(sys, s, e);
            t.core == s.core && t.started == s.started && t.channel <= s.channel + multiset(MessagesOf(s, e))
  {
    hide CancelsOnRegistering, Registered, ShownTerminal;
  }

  lemma ControllerKeepsReports(sys: System, s: State, e: Event)
    requires sys.Valid() && Enabled(sys, s, e) && Inv(sys, s) && ByController(e)
    ensures ReportsAreTruthful(sys, Step(sys, s, e))
  {
    hide CoreInv, AllAccounted, MessagesAreSound, IsTerminal, Truthful, StartWasRejected, StartWasAccepted;
  }

  lemma ControllerKeepsRecords(sys: System, s: State, e: Event)
    requires sys.Valid() && Enabled(sys, s, e) && Inv(sys, s) && ByController(e)
    ensures RecordsAreSound(sys, Step(sys, s, e))
  {
    hide CoreInv, AllAccounted, MessagesAreSound, ReportsAreTruthful, IsTerminal, StartWasRejected, StartWasAccepted,
      CancelsFor, CancelsOnRegistering, CompletesNow, CancelsNow, KnownLease, NewReport, ActiveLease;
  }

  /** The events of a goal up to the moment it sees its lease or gives up. */
  predicate BeforeLease(e: Event) {
    e.Accept? || e.RejectGoal? || e.PublishStart? || e.LeaseRejected? || e.LeaseGranted? || e.GiveUp?
  }

  lemma GrantKeepsGoal(sys: System, s: State)
    requires sys.Valid() && Enabled(sys, s, LeaseGranted) && Inv(sys, s)
    ensures GoalIsSound(sys, Step(sys, s, LeaseGranted))
  {
    assert Truthful(sys, s.core, s.book.latest.value);
    hide CoreInv, AllAccounted, MessagesAreSound, IsTerminal, StartWasRejected, ReportsAreTruthful;
  }

  lemma AdmissionKeepsGoal(sys: System, s: State, e: Event)
    requires sys.Valid() && Enabled(sys, s, e) && Inv(sys, s) && BeforeLease(e)
    ensures GoalIsSound(sys, Step(sys, s, e))
  {
    if e.LeaseGranted? {
      GrantKeepsGoal(sys, s);
    } else {
      ControllerKeepsRecords(sys, s, e);
      hide CoreInv, AllAccounted, MessagesAreSound, IsTerminal, StartWasRejected, StartWasAccepted, ReportsAreTruthful,
        RecordsAreSound, Registered, CancelsOnRegistering, NewReport, KnownLease;
    }
  }

  lemma ReleaseKeepsGoal(sys: System, s: State, e: Event)
    requires sys.Valid() && Enabled(sys, s, e) && Inv(sys, s) && ByController(e) && !BeforeLease(e)
    ensures GoalIsSound(sys, Step(sys, s, e))
  {
    ControllerKeepsRecords(sys, s, e);
    hide CoreInv, AllAccounted, MessagesAreSound, IsTerminal, StartWasRejected, StartWasAccepted, ReportsAreTruthful,
      RecordsAreSound, Received, Registered, CancelsFor, CancelsOnRegistering;
  }

  lemma AdmissionKeepsAccounts(sys: System, s: State, e: Event)
    requires sys.Valid() && Enabled(sys, s, e) && Inv(sys, s) && BeforeLease(e)
    ensures AllAccounted(Step(sys, s, e))
  {
    hide CoreInv, MessagesAreSound, IsTerminal, StartWasRejected, StartWasAccepted, ActiveLease, Received;
  }

  lemma ReleaseKeepsAccounts(sys: System, s: State, e: Event)
    requires sys.Valid() && Enabled(sys, s, e) && Inv(sys, s) && ByController(e) && !BeforeLease(e)
    ensures AllAccounted(Step(sys, s, e))
  {
    hide CoreInv, MessagesAreSound, IsTerminal, StartWasRejected, StartWasAccepted, ActiveLease;
  }

  // ---------------------------------------------------------------- steps of the arbitrator

  function CallAt(s: State, e: Event): Call
    requires !ByController(e)
  {
    match e
    case Deliver(_, _, _, _) => CallOf(e)
    case Environment(call) => call
    case PublishReport(now) => TickCall(now)
  }

  /** What a step of the arbitrator may change. */
  ghost predicate ArbitratorEffect(sys: System, s: State, t: State) {
    && CoreInv(sys, t.core) && Later(sys, s.core, t.core)
    && t.started == s.started && t.used == s.used && t.goal == s.goal && t.book == s.book
    && t.channel <= s.channel
    && (forall id | id in sys.mine && id in t.core.processed && id !in s.core.processed ::
          id in s.started && Control(Start, id, "") !in t.channel)
  }

  lemma ArbitratorShape(sys: System, s: State, e: Event)
    requires Enabled(sys, s, e) && !ByController(e)
    ensures var t := Step(sys, s, e);
            && t.core == Called(sys.config, s.core, CallAt(s, e))
            && t.started == s.started && t.used == s.used && t.goal == s.goal && t.book == s.book
            && t.channel == (if e.Deliver? then s.channel - multiset{e.control} else s.channel)
            && t.reports == s.reports + (if e.PublishReport? then {ReportOf(sys.config, t.core.arb, e.now)} else {})
  {
    hide Called, ReportOf;
  }

  /** A start of this controller's that the arbitrator handles is the only one of its identity in the channel. */
  lemma HandledStartIsTheOnlyOne(sys: System, s: State, e: Event)
    requires Enabled(sys, s, e) && MessagesAreSound(sys, s) && !ByController(e)
    ensures var call := CallAt(s, e);
            IsStart(call) && call.id in sys.mine ==>
              && call.id in s.started && call.id !in s.core.processed
              && e.Deliver? && e.control == Control(Start, call.id, "") && s.channel[e.control] == 1
  {
    if e.Deliver? {
      assert SoundMessage(sys, s, e.control);
    }
  }

  lemma ArbitratorStep(sys: System, s: State, e: Event)
    requires sys.Valid() && Enabled(sys, s, e) && Inv(sys, s) && !ByController(e)
    ensures ArbitratorEffect(sys, s, Step(sys, s, e))
    ensures Step(sys, s, e).core == Called(sys.config, s.core, CallAt(s, e))
  {
    hide CoreInv, AllAccounted, ReportsAreTruthful, GoalIsSound, MessagesAreSound, Do, Later, Enabled, Step, IsStart,
      MintsNow, EndsStoredNow, ReportOf, CallAt;
    ArbitratorShape(sys, s, e);
    HandledStartIsTheOnlyOne(sys, s, e);
    CallKeepsCoreInv(sys, s.core, CallAt(s, e));
  }

  lemma ArbitratorKeepsMessages(sys: System, s: State, t: State)
    requires MessagesAreSound(sys, s) && RecordsAreSound(sys, s) && ArbitratorEffect(sys, s, t)
    ensures MessagesAreSound(sys, t)
  {
    hide CoreInv;
    forall m | m in t.channel ensures SoundMessage(sys, t, m) {
      assert m in s.channel && t.channel[m] <= s.channel[m];
      if m.action == Start {
        assert m == Control(Start, m.id, "");
      }
    }
  }

  lemma NewReportIsTruthful(sys: System, core: Core, now: real)
    requires sys.Valid() && CoreInv(sys, core) && CoreInv(sys, Called(sys.config, core, TickCall(now)))
    ensures var after := Called(sys.config, core, TickCall(now));
            Truthful(sys, after, ReportOf(sys.config, after.arb, now))
  {
    RefreshEffect(sys.config, core.arb, now);
  }

  lemma TruthLasts(sys: System, p: Core, q: Core, r: Report)
    requires Truthful(sys, p, r) && CoreInv(sys, p) && Later(sys, p, q)
    ensures Truthful(sys, q, r)
  {
    hide IsTerminal, StartWasRejected, ActiveLease;
  }

  lemma ArbitratorKeepsReports(sys: System, s: State, e: Event)
    requires sys.Valid() && Enabled(sys, s, e) && Inv(sys, s) && !ByController(e)
    ensures ReportsAreTruthful(sys, Step(sys, s, e))
  {
    var t := Step(sys, s, e);
    ArbitratorStep(sys, s, e);
    ArbitratorShape(sys, s, e);
    hide CoreInv, AllAccounted, Called, Truthful, Later, MessagesAreSound, GoalIsSound, Enabled, Step, ReportOf;
    forall r | r in t.reports ensures Truthful(sys, t.core, r) {
      if r in s.reports {
        TruthLasts(sys, s.core, t.core, r);
      } else {
        NewReportIsTruthful(sys, s.core, e.now);
      }
    }
  }

  lemma ArbitratorKeepsGoal(sys: System, s: State, t: State)
    requires GoalIsSound(sys, s) && ArbitratorEffect(sys, s, t)
    ensures GoalIsSound(sys, t)
  {
    hide CoreInv;
  }

  lemma ArbitratorKeepsAccounts(sys: System, s: State, t: State)
    requires GoalIsSound(sys, s) && AllAccounted(s) && ArbitratorEffect(sys, s, t)
    ensures AllAccounted(t)
  {
    hide CoreInv;
    forall id | id in t.started ensures Accounted(t, id) {
      assert Accounted(s, id);
    }
  }

  lemma SoundGoalHasSoundRecords(sys: System, s: State)
    requires GoalIsSound(sys, s)
    ensures RecordsAreSound(sys, s)
  {}

  lemma StepKeepsInv(sys: System, s: State, e: Event)
    requires sys.Valid() && Enabled(sys, s, e) && Inv(sys, s)
    ensures Inv(sys, Step(sys, s, e))
  {
    hide CoreInv, AllAccounted, ReportsAreTruthful, GoalIsSound, MessagesAreSound, RecordsAreSound, Called, Step, Later;
    if ByController(e) {
      SentCoreUnchanged(sys, s, e);
      ControllerKeepsMessages(sys, s, e);
      ControllerKeepsReports(sys, s, e);
      if BeforeLease(e) {
        AdmissionKeepsGoal(sys, s, e);
        AdmissionKeepsAccounts(sys, s, e);
      } else {
        ReleaseKeepsGoal(sys, s, e);
        ReleaseKeepsAccounts(sys, s, e);
      }
    } else {
      var t := Step(sys, s, e);
      ArbitratorStep(sys, s, e);
      assert RecordsAreSound(sys, s) by { SoundGoalHasSoundRecords(sys, s); }
      ArbitratorKeepsMessages(sys, s, t);
      ArbitratorKeepsReports(sys, s, e);
      ArbitratorKeepsGoal(sys, s, t);
      ArbitratorKeepsAccounts(sys, s, t);
    }
  }

  lemma {:induction false} RunKeepsInv(sys: System, states: seq<State>, events: seq<Event>, k: nat)
    requires Run(sys, states, events) && k < |states|
    ensures Inv(sys, states[k])
  {
    if k > 0 {
      RunKeepsInv(sys, states, events, k - 1);
      hide Inv, Step;
      StepKeepsInv(sys, states[k - 1], events[k - 1]);
    }
  }

  // ---------------------------------------------------------------- the theorems

  /** Every identity whose start was published is running, awaits cleanup, or is settled; a settled one holds no
      lease. */
  lemma EveryStartIsAccountedFor(sys: System, states: seq<State>, events: seq<Event>, k: nat, id: Identity)
    requires Run(sys, states, events) && k < |states| && id in states[k].started
    ensures Running(states[k], id) || id in states[k].book.pending || Settled(states[k], id)
    ensures Settled(states[k], id) ==> !Holds(states[k].core, id)
  {
    RunKeepsInv(sys, states, events, k);
    hide Remembers, MessagesAreSound, ReportsAreTruthful;
    assert Shows(sys, states[k].core) && Accounts(sys, states[k].core);
    assert states[k].core.arb.identity.Complete() || id != states[k].core.arb.identity;
  }

  lemma SettledStaysSettled(sys: System, s: State, e: Event, id: Identity)
    requires sys.Valid() && Enabled(sys, s, e) && Inv(sys, s) && id in sys.mine && Settled(s, id)
    ensures Settled(Step(sys, s, e), id)
  {
    hide CoreInv, Called, MessagesAreSound, ReportsAreTruthful, GoalIsSound, AllAccounted;
    if ByController(e) {
      SentCoreUnchanged(sys, s, e);
    } else {
      ArbitratorStep(sys, s, e);
    }
  }

  lemma SentCoreUnchanged(sys: System, s: State, e: Event)
    requires Enabled(sys, s, e) && ByController(e)
    ensures Step(sys, s, e).core == s.core
  {
    hide Received, Registered, CancelsFor, CancelsOnRegistering;
  }

  /** Settlement is final: no later step gives the identity a lease. */
  lemma {:induction false} SettledIsForever(
      sys: System, states: seq<State>, events: seq<Event>, k: nat, j: nat, id: Identity)
    requires Run(sys, states, events) && k <= j < |states|
    requires id in states[k].started && Settled(states[k], id)
    ensures id in states[j].started && Settled(states[j], id) && !Holds(states[j].core, id)
    decreases j
  {
    hide Inv, Step, Enabled, Settled, Holds;
    if k < j {
      SettledIsForever(sys, states, events, k, j - 1, id);
      RunKeepsInv(sys, states, events, j - 1);
      StartedGrows(sys, states[j - 1], events[j - 1]);
      StartedIsMine(sys, states[j - 1], id);
      SettledStaysSettled(sys, states[j - 1], events[j - 1], id);
    }
    EveryStartIsAccountedFor(sys, states, events, j, id);
  }

  lemma StartedGrows(sys: System, s: State, e: Event)
    requires Enabled(sys, s, e)
    ensures s.started <= Step(sys, s, e).started
  {
    hide Received, Registered, CancelsFor, CancelsOnRegistering, Called;
  }

  lemma StartedIsMine(sys: System, s: State, id: Identity)
    requires Inv(sys, s) && id in s.started
    ensures id in sys.mine
  {}

  /** Exactly when the arbitrator would accept a second start of a settled identity. */
  lemma RepeatStartAcceptance(
      sys: System, states: seq<State>, events: seq<Event>, k: nat, id: Identity, now: real, lease: string,
      minted: string)
    requires Run(sys, states, events) && k < |states|
    requires id in states[k].started && Settled(states[k], id)
    ensures var core := states[k].core;
            Do(sys.config, core.arb, TaskCall(Start, now, id, lease, minted)).1 == Accepted <==>
              && !core.arb.estop && !TaskHeld(sys.config, core.arb, now)
              && id !in LastN(EndedBy(sys.config, core.arb, core.ended, now), sys.config.tombstoneLimit)
  {
    var c, core := sys.config, states[k].core;
    EveryStartIsAccountedFor(sys, states, events, k, id);
    RunKeepsInv(sys, states, events, k);
    StartedIsMine(sys, states[k], id);
    TombstonesWhenAsked(c, core.arb, core.ended, now);
    RefreshEffect(c, core.arb, now);
    assert !Holds(core, id);
    hide Inv, Run, Refreshed, LastN, EndedBy, Distinct;
    var b := Refreshed(c, core.arb, now);
    assert TaskHeld(c, b, now) ==> b.identity != id;
  }

  /** A settled identity that once held a lease is refused until `limit` leases have ended, its own included. */
  lemma EndedIdentityIsRefused(
      sys: System, states: seq<State>, events: seq<Event>, k: nat, i: nat, now: real, lease: string, minted: string)
    requires Run(sys, states, events) && k < |states| && i < |states[k].core.ended|
    requires states[k].core.ended[i] in states[k].started
    requires |EndedBy(sys.config, states[k].core.arb, states[k].core.ended, now)| - i <= sys.config.tombstoneLimit
    ensures var core := states[k].core;
            Settled(states[k], core.ended[i])
            && Do(sys.config, core.arb, TaskCall(Start, now, core.ended[i], lease, minted)).1 != Accepted
  {
    RunKeepsInv(sys, states, events, k);
    var id := states[k].core.ended[i];
    StartedIsMine(sys, states[k], id);
    assert Accounts(sys, states[k].core) && id in states[k].core.ended;
    RecentKeyIsKept(EndedBy(sys.config, states[k].core.arb, states[k].core.ended, now), sys.config.tombstoneLimit, i);
    RepeatStartAcceptance(sys, states, events, k, id, now, lease, minted);
  }

  /** A settled identity that never held a lease is in no tombstone: only an e-stop or another lease refuses its
      second start. */
  lemma RejectedIdentityIsNotRemembered(
      sys: System, states: seq<State>, events: seq<Event>, k: nat, id: Identity, now: real, lease: string,
      minted: string)
    requires Run(sys, states, events) && k < |states|
    requires id in states[k].started && Settled(states[k], id) && id !in states[k].core.granted
    ensures var core := states[k].core;
            Do(sys.config, core.arb, TaskCall(Start, now, id, lease, minted)).1 == Accepted <==>
              !core.arb.estop && !TaskHeld(sys.config, core.arb, now)
  {
    RunKeepsInv(sys, states, events, k);
    RepeatStartAcceptance(sys, states, events, k, id, now, lease, minted);
    assert Accounts(sys, states[k].core);
    assert Shows(sys, states[k].core) && Remembers(sys, states[k].core);
    var core := states[k].core;
    if core.arb.taskTime.Some? {
      assert core.arb.identity != id;
    }
    assert id !in EndedBy(sys.config, core.arb, core.ended, now);
  }

  /** One delivered cancel or finish of the controller settles its identity, whatever happened on the way: a lease still
      in force ends, an expired one is recorded, and an e-stop has already dropped it. */
  lemma DeliveredCancelSettles(sys: System, states: seq<State>, events: seq<Event>, k: nat)
    requires Run(sys, states, events) && k < |events| && events[k].Deliver?
    requires events[k].control.action == Cancel || events[k].control.action == Finish
    ensures Settled(states[k + 1], events[k].control.id)
  {
    var s, m := states[k], events[k].control;
    RunKeepsInv(sys, states, events, k);
    assert SoundMessage(sys, s, m);
    CancelEndsTheLease(sys, s.core, CallOf(events[k]));
    StartedIsMine(sys, s, m.id);
    RunKeepsInv(sys, states, events, k + 1);
    ArbitratorStep(sys, s, events[k]);
    assert Accounts(sys, states[k + 1].core);
  }

  lemma CancelEndsTheLease(sys: System, core: Core, call: Call)
    requires sys.Valid() && CoreInv(sys, core)
    requires call.TaskCall? && (call.action == Cancel || call.action == Finish) && call.id.Complete()
    requires KnownLease(core, call.id, call.lease)
    ensures !Holds(Called(sys.config, core, call), call.id)
  {
    CallEffect(sys.config, core.arb, call);
    RefreshEffect(sys.config, core.arb, call.now);
    CallInShort(sys.config, core.arb, call);
  }

  /** A report that shows a pending identity active is answered by a cancel that carries the lease it was granted. */
  lemma ActiveReportIsAnswered(sys: System, states: seq<State>, events: seq<Event>, k: nat, id: Identity)
    requires Run(sys, states, events) && k < |events| && events[k].Receive?
    requires id in states[k].book.pending && !states[k].book.pending[id] && ActiveLease(events[k].report, id) != ""
    ensures var t := states[k + 1];
            id in t.core.granted && Control(Cancel, id, t.core.granted[id]) in t.channel && id in t.book.pending
  {
    var s, r := states[k], events[k].report;
    RunKeepsInv(sys, states, events, k);
    assert Truthful(sys, s.core, r);
    assert Control(Cancel, id, r.lease) in multiset(CancelsFor(s.book.pending, r));
  }

  /** A run in which that happens: the start is refused while a stop is pending, and a second copy would be granted. */
  lemma ARefusedStartCouldStartAgain(sys: System, id: Identity) returns (states: seq<State>, events: seq<Event>)
    requires sys.Valid() && id in sys.mine
    ensures Run(sys, states, events) && |events| == 5
    ensures id in states[5].started && Settled(states[5], id) && id !in states[5].core.granted
    ensures Do(sys.config, states[5].core.arb, TaskCall(Start, 0.0, id, "", "second")).1 == Accepted
  {
    hide Called, ReportOf, Do, TaskHeld;
    var idle := ReportOf(sys.config, Reported(sys.config).arb, 0.0);
    var (s0, s1, s2) := Opening(sys, idle);
    var (s3, s4, s5) := Refusal(sys, s2, id);
    states := [s0, s1, s2, s3, s4, s5];
    events := [PublishReport(0.0), Receive(idle), Accept(id), PublishStart,
               Deliver(Control(Start, id, ""), 0.0, true, "")];
    OpeningSteps(sys, idle);
    RefusalSteps(sys, s2, id);
    RefusedByPendingStop(sys.config, id);
    hide Enabled, Step, ReportOf;
    assert states[5].core == Called(sys.config, Reported(sys.config), TaskRefusedCall(Start, 0.0, id));
    RejectedIdentityIsNotRemembered(sys, states, events, 5, id, 0.0, "", "second");
  }

  const NOTHING_YET := Core(INITIAL, {}, map[], [])

  function Reported(c: Config): Core {
    Called(c, NOTHING_YET, TickCall(0.0))
  }

  /** The first report is published and received. */
  function Opening(sys: System, idle: Report): (State, State, State) {
    var s0 := State(NOTHING_YET, {}, multiset{}, Book(None, 0, map[]), None, {}, {});
    var s1 := s0.(core := Reported(sys.config), reports := {idle});
    (s0, s1, s1.(book := Book(Some(idle), 1, map[])))
  }

  /** A goal is accepted, its start published, and refused. */
  function Refusal(sys: System, s: State, id: Identity): (State, State, State) {
    var s3 := s.(goal := Some(Goal(id, Admitted)), used := {id});
    var s4 := s3.(goal := Some(Goal(id, Waiting(1))), channel := multiset{Control(Start, id, "")}, started := {id});
    (s3, s4, s4.(channel := multiset{}, core := Called(sys.config, s.core, TaskRefusedCall(Start, 0.0, id))))
  }

  lemma OpeningSteps(sys: System, idle: Report)
    requires idle == ReportOf(sys.config, Reported(sys.config).arb, 0.0)
    ensures var (s0, s1, s2) := Opening(sys, idle);
            && Initial(sys, s0) && Step(sys, s0, PublishReport(0.0)) == s1
            && Enabled(sys, s1, Receive(idle)) && Step(sys, s1, Receive(idle)) == s2
  {
    hide Called, ReportOf, IsTerminal, StartWasRejected, ActiveLease;
    var book := Book(None, 0, map[]);
    assert Received(book, idle) == Book(Some(idle), 1, map[]) && CancelsFor(map[], idle) == [];
  }

  lemma RefusalSteps(sys: System, s: State, id: Identity)
    requires s.goal.None? && s.book.received == 1 && id in sys.mine
    requires s.used == {} && s.started == {} && s.channel == multiset{}
    ensures var (s3, s4, s5) := Refusal(sys, s, id);
            var delivery := Deliver(Control(Start, id, ""), 0.0, true, "");
            && Enabled(sys, s, Accept(id)) && Step(sys, s, Accept(id)) == s3
            && Enabled(sys, s3, PublishStart) && Step(sys, s3, PublishStart) == s4
            && Enabled(sys, s4, delivery) && Step(sys, s4, delivery) == s5
  {
    hide Called;
  }

  lemma RefusedByPendingStop(c: Config, id: Identity)
    requires c.Valid()
    ensures var after := Called(c, Reported(c), TaskRefusedCall(Start, 0.0, id));
            && after.granted == map[] && id in after.processed
            && !after.arb.estop && !TaskHeld(c, after.arb, 0.0)
  {
    NothingIsHeldYet(c);
    hide Reported;
  }

  lemma NothingIsHeldYet(c: Config)
    requires c.Valid()
    ensures var core := Reported(c);
            core.granted == map[] && !core.arb.estop && core.arb.taskTime.None? && core.arb.teleopTime.None?
  {}
}
