/** What the motion controller reads from the manager's published task state, and its book of admissions that still
    have to be cleaned up. */
module TaskReports {
  import opened Options
  import opened Arbitration

  datatype Status =
    | StatusBlocked | StatusActive | StatusFinished | StatusCancelled | StatusExpired | StatusRejected | StatusIdle

  datatype Report = Report(
    active: bool, id: Identity, lease: string,
    lastAction: LastAction, lastId: Identity, lastAccepted: bool, status: Status)

  /** A task control message of the controller. */
  datatype Control = Control(action: TaskAction, id: Identity, lease: string)

  function TaskStatus(c: Config, a: Arb, now: real): Status {
    if a.estop then StatusBlocked
    else if TaskHeld(c, a, now) then StatusActive
    else if a.lastAccepted && a.lastAction == Requested(Finish) then StatusFinished
    else if a.lastAccepted && a.lastAction == Requested(Cancel) then StatusCancelled
    else if a.lastAction == TimedOut then StatusExpired
    else if a.lastAction == Stopped then StatusBlocked
    else if a.lastReason != NoReason && !a.lastAccepted then StatusRejected
    else StatusIdle
  }

  /** The task state the manager publishes for a refreshed arbitrator. */
  function ReportOf(c: Config, a: Arb, now: real): Report {
    Report(TaskHeld(c, a, now), a.identity, a.taskLease, a.lastAction, a.lastIdentity, a.lastAccepted,
           TaskStatus(c, a, now))
  }

  /** The lease a report shows for this identity, or the empty text. */
  function ActiveLease(r: Report, id: Identity): string {
    if r.id == id && r.active then r.lease else ""
  }

  predicate IsTerminalStatus(status: Status) {
    status == StatusFinished || status == StatusCancelled || status == StatusExpired || status == StatusBlocked
  }

  predicate IsTerminal(r: Report, id: Identity) {
    r.id == id && !r.active && r.lease == "" && IsTerminalStatus(r.status)
  }

  predicate StartWasRejected(r: Report, id: Identity) {
    r.lastAction == Requested(Start) && r.lastId == id && !r.lastAccepted
  }

  predicate StartWasAccepted(r: Report, id: Identity) {
    && r.id == id && r.active && r.lastAction == Requested(Start) && r.lastId == id && r.lastAccepted && r.lease != ""
  }

  // ---------------------------------------------------------------- the book

  /** The latest report, how many were received, and the pending cleanups: for each identity, whether its cancel has
      been published. */
  datatype Book = Book(latest: Option<Report>, received: nat, pending: map<Identity, bool>)

  predicate CancelsNow(pending: map<Identity, bool>, r: Report, id: Identity) {
    id in pending && ActiveLease(r, id) != "" && !pending[id]
  }

  predicate CompletesNow(pending: map<Identity, bool>, r: Report, id: Identity) {
    id in pending && !CancelsNow(pending, r, id) && (IsTerminal(r, id) || StartWasRejected(r, id))
  }

  function Received(book: Book, r: Report): Book {
    Book(Some(r), book.received + 1,
         map id | id in book.pending && !CompletesNow(book.pending, r, id) ::
           book.pending[id] || CancelsNow(book.pending, r, id))
  }

  /** A report names one identity at most as active, so at most one cancel is published for it. */
  function CancelsFor(pending: map<Identity, bool>, r: Report): seq<Control> {
    if CancelsNow(pending, r, r.id) then [Control(Cancel, r.id, r.lease)] else []
  }

  predicate ShownTerminal(book: Book, id: Identity) {
    book.latest.Some? && IsTerminal(book.latest.value, id)
  }

  function ShownLease(book: Book, id: Identity): string {
    if book.latest.Some? then ActiveLease(book.latest.value, id) else ""
  }

  function Registered(book: Book, id: Identity): Book {
    if ShownTerminal(book, id) then book.(pending := book.pending - {id})
    else book.(pending := book.pending[id := ShownLease(book, id) != ""])
  }

  function CancelsOnRegistering(book: Book, id: Identity): seq<Control> {
    if ShownTerminal(book, id) || ShownLease(book, id) == "" then []
    else [Control(Cancel, id, ShownLease(book, id))]
  }

  /** The controller's task-state bookkeeping, edited in place. */
  class ControllerNode {
    var latestTaskState: Option<Report>
    var taskStateSequence: nat
    var pendingStartCleanups: map<Identity, bool>
    var published: seq<Control>

    function Value(): Book
      reads this
    {
      Book(latestTaskState, taskStateSequence, pendingStartCleanups)
    }

    constructor ()
      ensures Value() == Book(None, 0, map[]) && published == []
    {
      latestTaskState, taskStateSequence, pendingStartCleanups, published := None, 0, map[], [];
    }

    method PublishTaskControl(action: TaskAction, id: Identity, lease: string)
      modifies this`published
      ensures published == old(published) + [Control(action, id, lease)]
    {
      published := published + [Control(action, id, lease)];
    }

    /** Walks the pending cleanups, in any order: which are complete, and which need their cancel now. */
    method WalkPendingCleanups(msg: Report) returns (completed: set<Identity>, cleanupRequests: seq<Control>)
      modifies this`pendingStartCleanups
      ensures var pending := old(pendingStartCleanups);
              && pendingStartCleanups == (map id | id in pending :: pending[id] || CancelsNow(pending, msg, id))
              && completed == (set id | id in pending && CompletesNow(pending, msg, id))
              && cleanupRequests == CancelsFor(pending, msg)
    {
      hide IsTerminal, StartWasRejected;
      ghost var pending := pendingStartCleanups;
      completed, cleanupRequests := {}, [];
      var todo := pendingStartCleanups.Keys;
      while todo != {}
        invariant todo <= pending.Keys == pendingStartCleanups.Keys
        invariant forall id | id in pending ::
                    pendingStartCleanups[id] == (pending[id] || (id !in todo && CancelsNow(pending, msg, id)))
        invariant forall id :: id in completed <==> id in pending && id !in todo && CompletesNow(pending, msg, id)
        invariant cleanupRequests == if msg.id in todo then [] else CancelsFor(pending, msg)
      {
        var id :| id in todo;
        todo := todo - {id};
        var lease := ActiveLease(msg, id);
        if lease != "" && !pendingStartCleanups[id] {
          pendingStartCleanups := pendingStartCleanups[id := true];
          cleanupRequests := cleanupRequests + [Control(Cancel, id, lease)];
        } else if IsTerminal(msg, id) || StartWasRejected(msg, id) {
          completed := completed + {id};
        }
      }
    }

    /** Completed cleanups are dropped after the walk, and the cancels are published last. */
    method OnTaskState(msg: Report)
      modifies this
      ensures Value() == Received(old(Value()), msg)
      ensures published == old(published) + CancelsFor(old(pendingStartCleanups), msg)
    {
      hide CancelsNow, CompletesNow;
      ghost var book := Value();
      latestTaskState, taskStateSequence := Some(msg), taskStateSequence + 1;
      var completed, cleanupRequests := WalkPendingCleanups(msg);
      pendingStartCleanups := pendingStartCleanups - completed;
      var i := 0;
      while i < |cleanupRequests|
        invariant i <= |cleanupRequests|
        invariant Value() == Received(book, msg)
        invariant published == old(published) + cleanupRequests[..i]
      {
        PublishTaskControl(cleanupRequests[i].action, cleanupRequests[i].id, cleanupRequests[i].lease);
        i := i + 1;
      }
    }

    method RegisterPendingStartCleanup(id: Identity)
      modifies this
      ensures Value() == Registered(old(Value()), id)
      ensures published == old(published) + CancelsOnRegistering(old(Value()), id)
    {
      if latestTaskState.Some? && IsTerminal(latestTaskState.value, id) {
        pendingStartCleanups := pendingStartCleanups - {id};
        return;
      }
      var lease := if latestTaskState.Some? then ActiveLease(latestTaskState.value, id) else "";
      pendingStartCleanups := pendingStartCleanups[id := lease != ""];
      if lease != "" {
        PublishTaskControl(Cancel, id, lease);
      }
    }
  }
}
