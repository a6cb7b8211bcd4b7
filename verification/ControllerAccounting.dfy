/** The motion controller composed with the command arbitrator, so that no admission it asked for is ever forgotten.

    The controller publishes one `start` per goal and learns its fate only from published task states, which may arrive
    late, repeatedly, out of order or never.  A control message may be delayed, reordered or lost, and is handled at
    most once.  Other clients call the arbitrator freely but never start an identity of this controller (`mine`), and
    the controller uses each identity for one goal. */
module ControllerAccounting {
  import opened Options
  import opened ReplayMemory
  import opened Arbitration
  import opened LeaseRuns
  import opened TaskReports

  datatype Stage =
    | Admitted                                             // goal accepted, start not published yet
    | Waiting(since: nat)                                  // start published, polling task states after `since`
    | Holding(lease: string)                               // lease seen, commands and keepalives
    | Releasing(action: TaskAction, lease: string, since: nat)

  datatype Goal = Goal(id: Identity, stage: Stage)

  /** The arbitrator, the identities whose start it handled, the lease it minted for each identity, and the identities
      whose lease ended, in order. */
  datatype Core = Core(arb: Arb, processed: set<Identity>, granted: map<Identity, string>, ended: seq<Identity>)

  datatype State = State(
    core: Core,
    reports: set<Report>, channel: multiset<Control>,
    book: Book, goal: Option<Goal>, started: set<Identity>, used: set<Identity>)

  datatype System = System(config: Config, mine: iset<Identity>) {
    ghost predicate Valid() {
      config.Valid() && forall id | id in mine :: id.Complete()
    }
  }

  datatype Event =
    | Accept(id: Identity)                 // a goal is accepted
    | RejectGoal                           // the goal fails before its start is published
    | PublishStart
    | LeaseRejected                        // the awaited report says the start was rejected
    | LeaseGranted
    | GiveUp                               // cancel request, timeout or error before a lease was seen
    | Refresh                              // keepalive while the lease is held
    | BeginRelease(finish: bool)           // finish, or cancel after a cancel request, failure, timeout or error
    | ReleaseConfirmed
    | ReleaseUnconfirmed
    | Receive(report: Report)
    | Deliver(control: Control, now: real, stopPending: bool, minted: string)
    | Lose(control: Control)
    | Environment(call: Call)
    | PublishReport(now: real)

  predicate IsStart(call: Call) {
    (call.TaskCall? || call.TaskRefusedCall?) && call.action == Start
  }

  function Called(c: Config, core: Core, call: Call): Core {
    Core(Do(c, core.arb, call).0,
         core.processed + (if IsStart(call) then {call.id} else {}),
         if MintsNow(c, core.arb, call) then core.granted[call.id := call.minted] else core.granted,
         core.ended + (if EndsStoredNow(c, core.arb, call) then [core.arb.identity] else []))
  }

  function CallOf(e: Event): Call
    requires e.Deliver?
  {
    var m := e.control;
    if m.action == Start && e.stopPending then TaskRefusedCall(Start, e.now, m.id)
    else TaskCall(m.action, e.now, m.id, m.lease, e.minted)
  }

  predicate Initial(sys: System, s: State) {
    s == State(Core(INITIAL, {}, map[], []), {}, multiset{}, Book(None, 0, map[]), None, {}, {})
  }

  predicate NewReport(s: State, since: nat) {
    s.book.received > since && s.book.latest.Some?
  }

  predicate Enabled(sys: System, s: State, e: Event) {
    match e
    case Accept(id) => s.goal.None? && s.book.received > 0 && id in sys.mine && id !in s.used
    case RejectGoal => s.goal.Some? && s.goal.value.stage.Admitted?
    case PublishStart => s.goal.Some? && s.goal.value.stage.Admitted?
    case LeaseRejected =>
      && s.goal.Some? && s.goal.value.stage.Waiting? && NewReport(s, s.goal.value.stage.since)
      && StartWasRejected(s.book.latest.value, s.goal.value.id)
    case LeaseGranted =>
      && s.goal.Some? && s.goal.value.stage.Waiting? && NewReport(s, s.goal.value.stage.since)
      && !StartWasRejected(s.book.latest.value, s.goal.value.id)
      && StartWasAccepted(s.book.latest.value, s.goal.value.id)
    case GiveUp => s.goal.Some? && s.goal.value.stage.Waiting?
    case Refresh => s.goal.Some? && s.goal.value.stage.Holding?
    case BeginRelease(finish) =>
      s.goal.Some? && (s.goal.value.stage.Holding? || (s.goal.value.stage.Releasing? && !finish))
    case ReleaseConfirmed =>
      && s.goal.Some? && s.goal.value.stage.Releasing? && NewReport(s, s.goal.value.stage.since)
      && IsTerminal(s.book.latest.value, s.goal.value.id)
    case ReleaseUnconfirmed => s.goal.Some? && s.goal.value.stage.Releasing?
    case Receive(report) => report in s.reports
    case Deliver(control, _, _, _) => control in s.channel
    case Lose(control) => control in s.channel
    case Environment(call) => IsStart(call) ==> call.id !in sys.mine
    case PublishReport(_) => true
  }

  function Sent(s: State, messages: seq<Control>): State {
    s.(channel := s.channel + multiset(messages))
  }

  function Staged(s: State, stage: Stage): State
    requires s.goal.Some?
  {
    s.(goal := Some(s.goal.value.(stage := stage)))
  }

  /** The goal ends and leaves a pending cleanup behind, unless its end is already known. */
  function LeftPending(s: State, id: Identity): State {
    Sent(s, CancelsOnRegistering(s.book, id)).(book := Registered(s.book, id), goal := None)
  }

  /** The goal ends after the report `r` showed its identity terminal. */
  function Released(s: State, g: Goal, finish: bool, r: Report): State {
    if finish && r.status != StatusFinished then LeftPending(s, g.id) else s.(goal := None)
  }

  function Step(sys: System, s: State, e: Event): State
    requires Enabled(sys, s, e)
  {
    match e
    case Accept(id) => s.(goal := Some(Goal(id, Admitted)), used := s.used + {id})
    case RejectGoal => s.(goal := None)
    case PublishStart =>
      var g := s.goal.value;
      Staged(Sent(s, [Control(Start, g.id, "")]), Waiting(s.book.received)).(started := s.started + {g.id})
    case LeaseRejected => s.(goal := None)
    case LeaseGranted => Staged(s, Holding(ActiveLease(s.book.latest.value, s.goal.value.id)))
    case GiveUp => LeftPending(s, s.goal.value.id)
    case Refresh => Sent(s, [Control(Keepalive, s.goal.value.id, s.goal.value.stage.lease)])
    case BeginRelease(finish) =>
      var g := s.goal.value;
      var action := if finish then Finish else Cancel;
      if ShownTerminal(s.book, g.id) then Released(s, g, finish, s.book.latest.value)
      else Staged(Sent(s, [Control(action, g.id, g.stage.lease)]), Releasing(action, g.stage.lease, s.book.received))
    case ReleaseConfirmed => Released(s, s.goal.value, s.goal.value.stage.action == Finish, s.book.latest.value)
    case ReleaseUnconfirmed => LeftPending(s, s.goal.value.id)
    case Receive(report) => Sent(s, CancelsFor(s.book.pending, report)).(book := Received(s.book, report))
    case Deliver(control, _, _, _) =>
      s.(channel := s.channel - multiset{control}, core := Called(sys.config, s.core, CallOf(e)))
    case Lose(control) => s.(channel := s.channel - multiset{control})
    case Environment(call) => s.(core := Called(sys.config, s.core, call))
    case PublishReport(now) =>
      var core := Called(sys.config, s.core, TickCall(now));
      s.(core := core, reports := s.reports + {ReportOf(sys.config, core.arb, now)})
  }

  ghost predicate Run(sys: System, states: seq<State>, events: seq<Event>) {
    && sys.Valid() && |states| == |events| + 1 && Initial(sys, states[0])
    && forall k | 0 <= k < |events| ::
         Enabled(sys, states[k], events[k]) && states[k + 1] == Step(sys, states[k], events[k])
  }

  // ---------------------------------------------------------------- the claims

  predicate Holds(core: Core, id: Identity) {
    core.arb.taskTime.Some? && core.arb.identity == id
  }

  /** The arbitrator has handled the start, and if it granted a lease, that lease has ended. */
  predicate Settled(s: State, id: Identity) {
    id in s.core.processed && (id in s.core.granted ==> id in s.core.ended)
  }

  predicate Running(s: State, id: Identity) {
    s.goal.Some? && s.goal.value.id == id && !s.goal.value.stage.Admitted?
  }

  // ---------------------------------------------------------------- the arbitrator's side

  /** What the arbitrator remembers agrees with what happened. */
  ghost predicate Remembers(sys: System, core: Core) {
    var a := core.arb;
    && Sane(sys.config, a)
    && Agrees(a.tombstones, a.tombstoneSet, sys.config.tombstoneLimit, core.ended)
  }

  /** What the arbitrator shows agrees with what happened. */
  ghost predicate Shows(sys: System, core: Core) {
    var a := core.arb;
    && (a.identity.Complete() ==> a.identity in core.granted)
    && (a.taskTime.Some? ==> a.identity in core.granted && core.granted[a.identity] == a.taskLease)
    && (forall id | id in sys.mine && RefusedStartOf(a, id) :: id in core.processed && id !in core.granted)
  }

  /** Every lease granted to an identity of this controller is either held or has ended. */
  ghost predicate Accounts(sys: System, core: Core) {
    && (forall id | id in sys.mine && id in core.granted ::
          id in core.processed && (Holds(core, id) || id in core.ended))
    && (forall id | id in core.ended :: id in core.granted && (id in sys.mine ==> !Holds(core, id)))
  }

  ghost predicate CoreInv(sys: System, core: Core) {
    Remembers(sys, core) && Shows(sys, core) && Accounts(sys, core)
  }

  predicate RefusedStartOf(a: Arb, id: Identity) {
    a.lastAction == Requested(Start) && !a.lastAccepted && a.lastIdentity == id
  }

  /** `b` shows the identity `a` shows, and no refused start that `a` does not show. */
  predicate ShowsNoMore(a: Arb, b: Arb) {
    b.identity == a.identity && (RefusedStartOf(b, b.lastIdentity) ==> RefusedStartOf(a, b.lastIdentity))
  }

  lemma RefreshedNotes(c: Config, a: Arb, now: real)
    ensures ShowsNoMore(a, Refreshed(c, a, now)) && ShowsNoMore(a, TaskExpired(c, a, now))
    ensures Remembered(c, a).identity == a.identity
  {}

  lemma TaskControlNotes(c: Config, a: Arb, call: Call)
    requires call.TaskCall?
    ensures var (b, verdict) := Do(c, a, call);
            && b.identity == (if verdict == Accepted && call.action == Start
                                && !TaskHeld(c, Refreshed(c, a, call.now), call.now)
                              then call.id else a.identity)
            && (RefusedStartOf(b, b.lastIdentity) ==> IsStart(call) && b.lastIdentity == call.id && verdict != Accepted)
  {
    var now := call.now;
    RefreshedNotes(c, a, now);
    var b := Refreshed(c, a, now);
    RefreshedNotes(c, b, now);
    var d := TaskChanged(c, b, call.action, now, call.id, call.minted);
    RefreshedNotes(c, TaskNoted(d, call.action, call.id, Accepted), now);
    assert TaskControlVerdict(c, b, call.action, now, call.id, call.lease) == Accepted && call.action == Keepalive ==>
        TaskHeld(c, b, now);
    hide Refreshed, Remembered, TaskControlVerdict;
  }

  lemma EstopNotes(c: Config, a: Arb, active: bool, now: real)
    ensures ShowsNoMore(a, EstopSet(c, a, active, now))
  {
    RefreshedNotes(c, a, now);
    var b := TaskExpired(c, a, now);
    RefreshedNotes(c, b, now);
    var e := TaskStopped(c, b, now);
    RefreshedNotes(c, TeleopCleared(TaskCleared(e)).(estop := true, motionTime := None), now);
    RefreshedNotes(c, b.(estop := false), now);
    hide Refreshed, Remembered, TaskExpired;
  }

  lemma CommandNotes(c: Config, a: Arb, call: Call)
    requires call.CommandCall?
    ensures ShowsNoMore(a, Do(c, a, call).0)
  {
    RefreshedNotes(c, a, call.now);
    var b := Refreshed(c, a, call.now);
    RefreshedNotes(c, if call.source == Motion then b.(motionTime := Some(call.now)) else b, call.now);
    hide Refreshed, CommandVerdict;
  }

  lemma TeleopNotes(c: Config, a: Arb, call: Call)
    requires call.TeleopCall?
    ensures ShowsNoMore(a, Do(c, a, call).0)
  {
    RefreshedNotes(c, a, call.now);
    var b := Refreshed(c, a, call.now);
    var d := TeleopChanged(c, b, call.teleop, call.now, call.requester, call.minted);
    RefreshedNotes(c, d, call.now);
    hide Refreshed, TeleopControlVerdict;
  }

  /** Which identity and which refused start the arbitrator shows after a call. */
  lemma CallNotes(c: Config, a: Arb, call: Call)
    requires c.Valid() && Sane(c, a)
    ensures var (b, verdict) := Do(c, a, call);
            && b.identity == (if MintsNow(c, a, call) then call.id else a.identity)
            && (RefusedStartOf(b, b.lastIdentity) ==>
                  || (IsStart(call) && b.lastIdentity == call.id && verdict != Accepted)
                  || RefusedStartOf(a, b.lastIdentity))
  {
    RefreshedNotes(c, a, call.now);
    RefreshEffect(c, a, call.now);
    hide Refreshed, TaskControl, EstopSet, Command, TeleopControl;
    match call
    case TaskCall(_, _, _, _, _) => TaskControlNotes(c, a, call);
    case EstopCall(active, now) => EstopNotes(c, a, active, now);
    case CommandCall(_, _, _, _) => CommandNotes(c, a, call);
    case TeleopCall(_, _, _, _, _) => TeleopNotes(c, a, call);
    case _ =>
  }

  /** What is recorded about identities only grows, and a start that was handled is never granted later. */
  ghost predicate Later(sys: System, p: Core, q: Core) {
    && p.processed <= q.processed && p.ended <= q.ended && p.granted.Keys <= q.granted.Keys
    && (forall id | id in sys.mine && id in p.processed :: id in q.granted ==> id in p.granted)
    && (forall id | id in sys.mine && id in p.granted :: q.granted[id] == p.granted[id])
  }

  lemma CallKeepsTombstones(sys: System, core: Core, call: Call)
    requires sys.Valid() && Remembers(sys, core)
    ensures Remembers(sys, Called(sys.config, core, call))
  {
    MemoryAfterCall(sys.config, core.arb, call, core.ended);
    hide Do, Sane, Agrees, EndsStoredNow, MintsNow;
  }

  /** A call in short: either it mints a lease for its own identity, or the lease can only end. */
  lemma CallInShort(c: Config, a: Arb, call: Call)
    requires c.Valid() && Sane(c, a)
    ensures var b, mints := Do(c, a, call).0, MintsNow(c, a, call);
            && (mints ==> IsStart(call) && b.taskTime.Some? && b.identity == call.id && b.taskLease == call.minted)
            && (!mints ==>
                  b.identity == a.identity && (b.taskTime.Some? ==> a.taskTime.Some? && b.taskLease == a.taskLease))
            && (forall id | RefusedStartOf(b, id) ::
                  RefusedStartOf(a, id) || (!mints && IsStart(call) && call.id == id))
  {
    CallEffect(c, a, call);
    CallNotes(c, a, call);
    hide Do, Sane;
  }

  lemma CallKeepsShown(sys: System, core: Core, call: Call)
    requires sys.Valid() && CoreInv(sys, core)
    requires IsStart(call) && call.id in sys.mine ==> call.id !in core.processed
    ensures Shows(sys, Called(sys.config, core, call))
  {
    CallInShort(sys.config, core.arb, call);
    hide Do, MintsNow, Remembers;
  }

  lemma CallKeepsAccounts(sys: System, core: Core, call: Call)
    requires sys.Valid() && CoreInv(sys, core)
    requires IsStart(call) && call.id in sys.mine ==> call.id !in core.processed
    ensures Accounts(sys, Called(sys.config, core, call))
  {
    CallInShort(sys.config, core.arb, call);
    hide Do, MintsNow, Remembers, RefusedStartOf;
    var after := Called(sys.config, core, call);
    forall id | id in sys.mine && id in after.granted
      ensures id in after.processed && (Holds(after, id) || id in after.ended)
    {
    }
    forall id | id in after.ended ensures id in after.granted && (id in sys.mine ==> !Holds(after, id)) {
      assert id in core.ended || id == core.arb.identity;
    }
  }

  lemma CallIsLater(sys: System, core: Core, call: Call)
    requires sys.Valid() && CoreInv(sys, core)
    requires IsStart(call) && call.id in sys.mine ==> call.id !in core.processed
    ensures Later(sys, core, Called(sys.config, core, call))
  {
    CallInShort(sys.config, core.arb, call);
    hide Do, MintsNow, Remembers, RefusedStartOf;
  }

  lemma CallKeepsCoreInv(sys: System, core: Core, call: Call)
    requires sys.Valid() && CoreInv(sys, core)
    requires IsStart(call) && call.id in sys.mine ==> call.id !in core.processed
    ensures CoreInv(sys, Called(sys.config, core, call)) && Later(sys, core, Called(sys.config, core, call))
  {
    hide Called, Remembers, Shows, Accounts;
    CallKeepsTombstones(sys, core, call);
    CallKeepsShown(sys, core, call);
    CallKeepsAccounts(sys, core, call);
    CallIsLater(sys, core, call);
  }
}
