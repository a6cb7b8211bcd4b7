/** How the BVH player hands over from one playback worker to the next.

    `play` and `stop` run under one operation lock, read and write the worker handle under a state lock, and join the
    old worker with a timeout.  Every step below is one such region, so any interleaving of callers and workers is a
    run.  A worker may itself call `play` or `stop` from its publish callback.  A worker is named by its generation. */
module BvhHandover {
  import opened Options

  datatype Phase =
    | Created              // thread object made, not started
    | Running              // inside the playback loop, stop event not looked at yet
    | Cleared              // inside the playback loop, stop event seen unset
    | Leaving              // out of the loop, its handle not cleaned up yet
    | Exiting              // handle cleaned up, thread not finished yet
    | Dead

  datatype Caller = Outside(id: nat) | Callback(worker: nat)

  datatype Request = Stop | Play | PlayNothing

  datatype Call =
    | Wanting(request: Request)                                      // waits for the operation lock
    | Reading(request: Request)                                      // holds it
    | Signalling(request: Request, worker: nat, generation: nat)     // saw this worker
    | Joining(request: Request, worker: nat, generation: nat)
    | Clearing(request: Request, worker: nat, generation: nat)       // the worker is not alive any more
    | StoppedAll(request: Request)                                   // the old worker is gone
    | Starting(worker: nat)                                          // new worker installed, not started
    | Returning(request: Request, result: bool)

  datatype State = State(
    lock: Option<Caller>,
    thread: Option<nat>,
    generation: nat,
    workers: map<nat, Phase>,
    stopSet: set<nat>,
    calls: map<Caller, Call>)

  datatype Event =
    | Invoke(c: Caller, request: Request)
    | Acquire(c: Caller)
    | Read(c: Caller)
    | Signal(c: Caller)
    | Join(c: Caller)
    | Clear(c: Caller)
    | Proceed(c: Caller)
    | StartWorker(c: Caller, ok: bool)
    | Return(c: Caller)
    | CheckStop(w: nat)
    | Publish(w: nat)
    | FinishLoop(w: nat)
    | CleanUp(w: nat)
    | Die(w: nat)

  predicate Initial(s: State) {
    s == State(None, None, 0, map[], {}, map[])
  }

  predicate InLoop(s: State, w: nat) {
    w in s.workers && (s.workers[w] == Running || s.workers[w] == Cleared)
  }

  /** The worker is not held up in a call of its own. */
  predicate IsFree(s: State, w: nat) {
    Callback(w) !in s.calls
  }

  predicate Enabled(s: State, e: Event) {
    match e
    case Invoke(c, _) => c !in s.calls && (c.Callback? ==> InLoop(s, c.worker))
    case Acquire(c) => c in s.calls && s.calls[c].Wanting? && s.lock == None
    case Read(c) => c in s.calls && s.calls[c].Reading?
    case Signal(c) => c in s.calls && s.calls[c].Signalling?
    case Join(c) => c in s.calls && s.calls[c].Joining? && s.calls[c].worker in s.workers
    case Clear(c) => c in s.calls && s.calls[c].Clearing?
    case Proceed(c) => c in s.calls && s.calls[c].StoppedAll?
    case StartWorker(c, _) => c in s.calls && s.calls[c].Starting?
    case Return(c) => c in s.calls && s.calls[c].Returning?
    case CheckStop(w) => w in s.workers && s.workers[w] == Running && IsFree(s, w)
    case Publish(w) => w in s.workers && s.workers[w] == Cleared && IsFree(s, w)
    case FinishLoop(w) => InLoop(s, w) && IsFree(s, w)
    case CleanUp(w) => w in s.workers && s.workers[w] == Leaving
    case Die(w) => w in s.workers && s.workers[w] == Exiting
  }

  function Now(s: State, c: Caller, call: Call): State {
    s.(calls := s.calls[c := call])
  }

  function Phased(s: State, w: nat, p: Phase): State {
    s.(workers := s.workers[w := p])
  }

  /** Forget the worker's handle, unless a newer worker owns it. */
  function Forgotten(s: State, w: nat, generation: nat): State {
    if s.generation == generation && s.thread == Some(w) then s.(thread := None) else s
  }

  function Step(s: State, e: Event): State
    requires Enabled(s, e)
  {
    match e
    case Invoke(c, request) => Now(s, c, Wanting(request))
    case Acquire(c) => Now(s, c, Reading(s.calls[c].request)).(lock := Some(c))
    case Read(c) =>
      Now(s, c, if s.thread.None? then StoppedAll(s.calls[c].request)
                else Signalling(s.calls[c].request, s.thread.value, s.generation))
    case Signal(c) =>
      var call := s.calls[c];
      Now(s, c, if c == Callback(call.worker) then Returning(call.request, false)
                else Joining(call.request, call.worker, call.generation))
        .(stopSet := s.stopSet + {call.worker})
    case Join(c) =>
      var call := s.calls[c];
      Now(s, c, if s.workers[call.worker] != Dead then Returning(call.request, false)
                else Clearing(call.request, call.worker, call.generation))
    case Clear(c) =>
      var call := s.calls[c];
      Forgotten(Now(s, c, StoppedAll(call.request)), call.worker, call.generation)
    case Proceed(c) =>
      (match s.calls[c].request
       case Stop => Now(s, c, Returning(Stop, true))
       case PlayNothing => Now(s, c, Returning(PlayNothing, false))
       case Play =>
         var w := s.generation + 1;
         Phased(Now(s, c, Starting(w)), w, Created).(generation := w, thread := Some(w)))
    case StartWorker(c, ok) =>
      var w := s.calls[c].worker;
      if ok then Phased(Now(s, c, Returning(Play, true)), w, Running)
      else Forgotten(Phased(Now(s, c, Returning(Play, false)), w, Dead), w, w)
    case Return(c) => s.(lock := None, calls := s.calls - {c})
    case CheckStop(w) => Phased(s, w, if w in s.stopSet then Leaving else Cleared)
    case Publish(w) => Phased(s, w, Running)
    case FinishLoop(w) => Phased(s, w, Leaving)
    case CleanUp(w) => Forgotten(Phased(s, w, Exiting), w, w)
    case Die(w) => Phased(s, w, Dead)
  }

  ghost predicate Run(states: seq<State>, events: seq<Event>) {
    && |states| == |events| + 1 && Initial(states[0])
    && forall k | 0 <= k < |events| :: Enabled(states[k], events[k]) && states[k + 1] == Step(states[k], events[k])
  }

  // ---------------------------------------------------------------- the invariant

  /** The worker may still run the playback loop, or has not yet given up its handle. */
  predicate OwnsHandle(p: Phase) {
    p == Created || p == Running || p == Cleared || p == Leaving
  }

  predicate CallIsSound(s: State, call: Call) {
    match call
    case Signalling(_, w, g) => g == s.generation && w in s.workers && (s.thread == None || s.thread == Some(w))
    case Joining(_, w, g) => g == s.generation && w in s.workers && (s.thread == None || s.thread == Some(w))
    case Clearing(_, w, g) =>
      g == s.generation && w in s.workers && s.workers[w] == Dead && (s.thread == None || s.thread == Some(w))
    case StoppedAll(_) => s.thread == None
    case Starting(w) => w in s.workers && s.workers[w] == Created && s.thread == Some(w)
    case Returning(request, result) => request == Stop && result ==> s.thread == None
    case _ => true
  }

  predicate Inv(s: State) {
    && (forall w | w in s.workers :: w <= s.generation && (OwnsHandle(s.workers[w]) ==> s.thread == Some(w)))
    && (s.thread.Some? ==> s.thread.value == s.generation && s.thread.value in s.workers)
    && (forall c | c in s.calls && !s.calls[c].Wanting? :: s.lock == Some(c) && CallIsSound(s, s.calls[c]))
    && (forall w | w in s.workers && s.workers[w] == Created ::
          exists c :: c in s.calls && s.calls[c] == Starting(w))
  }

  predicate ByWorker(e: Event) {
    e.CheckStop? || e.Publish? || e.FinishLoop? || e.CleanUp? || e.Die?
  }

  lemma WorkerStepKeepsInv(s: State, e: Event)
    requires Enabled(s, e) && Inv(s) && ByWorker(e)
    ensures Inv(Step(s, e))
  {
    var t := Step(s, e);
    assert t.calls == s.calls;
    forall w | w in t.workers && t.workers[w] == Created ensures exists c :: c in t.calls && t.calls[c] == Starting(w) {
      assert s.workers[w] == Created;
    }
  }

  lemma ProceedKeepsInv(s: State, e: Event)
    requires Enabled(s, e) && Inv(s) && e.Proceed?
    ensures Inv(Step(s, e))
  {
    var t := Step(s, e);
    forall w | w in t.workers && t.workers[w] == Created ensures exists c :: c in t.calls && t.calls[c] == Starting(w) {
      assert t.calls[e.c] == Starting(w);
    }
  }

  lemma StartWorkerKeepsInv(s: State, e: Event)
    requires Enabled(s, e) && Inv(s) && e.StartWorker?
    ensures Inv(Step(s, e))
  {
    forall w | w in s.workers && s.workers[w] == Created ensures w == s.calls[e.c].worker {
      var c :| c in s.calls && s.calls[c] == Starting(w);
    }
  }

  lemma CallerStepKeepsInv(s: State, e: Event)
    requires Enabled(s, e) && Inv(s) && !ByWorker(e) && !e.Proceed? && !e.StartWorker?
    ensures Inv(Step(s, e))
  {
    var t := Step(s, e);
    assert t.workers == s.workers;
    forall w | w in t.workers && t.workers[w] == Created ensures exists c :: c in t.calls && t.calls[c] == Starting(w) {
      var c :| c in s.calls && s.calls[c] == Starting(w);
      assert c in t.calls && t.calls[c] == Starting(w);
    }
  }

  lemma StepKeepsInv(s: State, e: Event)
    requires Enabled(s, e) && Inv(s)
    ensures Inv(Step(s, e))
  {
    hide Step, Inv;
    if ByWorker(e) {
      WorkerStepKeepsInv(s, e);
    } else if e.Proceed? {
      ProceedKeepsInv(s, e);
    } else if e.StartWorker? {
      StartWorkerKeepsInv(s, e);
    } else {
      CallerStepKeepsInv(s, e);
    }
  }

  predicate Installs(s: State, e: Event) {
    e.Proceed? && Enabled(s, e) && s.calls[e.c].request == Play
  }

  /** How one step may change one worker. */
  lemma WorkerAfterStep(s: State, e: Event, w: nat)
    requires Enabled(s, e) && Inv(s)
    ensures var t := Step(s, e);
            && s.generation <= t.generation && s.stopSet <= t.stopSet
            && (w in s.workers ==>
                  && w in t.workers
                  && (t.workers[w] == Created ==> s.workers[w] == Created)
                  && (InLoop(t, w) ==> InLoop(s, w) || s.workers[w] == Created)
                  && (t.workers[w] == Cleared ==>
                        s.workers[w] == Cleared || (s.workers[w] == Running && w !in s.stopSet)))
            && (w !in s.workers && w in t.workers ==> Installs(s, e) && w > s.generation)
  {}

  lemma {:induction false} RunKeepsInv(states: seq<State>, events: seq<Event>, k: nat)
    requires Run(states, events) && k < |states|
    ensures Inv(states[k])
  {
    if k > 0 {
      RunKeepsInv(states, events, k - 1);
      StepKeepsInv(states[k - 1], events[k - 1]);
    }
  }

  // ---------------------------------------------------------------- what holds over every run

  lemma WorkerAfterStepOf(states: seq<State>, events: seq<Event>, k: nat, w: nat)
    requires Run(states, events) && k < |events|
    ensures var s, t := states[k], states[k + 1];
            && (w in s.workers ==>
                  && w in t.workers
                  && (t.workers[w] == Created ==> s.workers[w] == Created)
                  && (InLoop(t, w) ==> InLoop(s, w) || s.workers[w] == Created)
                  && (t.workers[w] == Cleared ==>
                        s.workers[w] == Cleared || (s.workers[w] == Running && w !in s.stopSet)))
            && (w !in s.workers && w in t.workers ==> w > s.generation)
  {
    hide Step, Inv, Installs;
    RunKeepsInv(states, events, k);
    WorkerAfterStep(states[k], events[k], w);
  }

  /** At most one worker is ever inside the playback loop, or on its way into it. */
  lemma AtMostOneWorker(states: seq<State>, events: seq<Event>, k: nat, v: nat, w: nat)
    requires Run(states, events) && k < |states|
    requires v in states[k].workers && w in states[k].workers
    requires OwnsHandle(states[k].workers[v]) && OwnsHandle(states[k].workers[w])
    ensures v == w && states[k].thread == Some(w)
  {
    RunKeepsInv(states, events, k);
  }

  predicate NobodyPlays(s: State) {
    forall w | w in s.workers :: !InLoop(s, w) && s.workers[w] != Created
  }

  lemma {:induction false} SilenceLasts(states: seq<State>, events: seq<Event>, i: nat, j: nat)
    requires Run(states, events) && i <= j < |states| && NobodyPlays(states[i])
    requires forall k | i <= k < j :: !Installs(states[k], events[k])
    ensures NobodyPlays(states[j])
    decreases j
  {
    hide Step, Inv, Installs;
    if i < j {
      SilenceLasts(states, events, i, j - 1);
      RunKeepsInv(states, events, j - 1);
      forall w | w in states[j].workers ensures !InLoop(states[j], w) && states[j].workers[w] != Created {
        WorkerAfterStep(states[j - 1], events[j - 1], w);
      }
    }
  }

  /** Once `stop` has returned true at event `i`, whatever is published later is published after a `play` installed a
      new worker at some event in between, and by a worker installed since. */
  lemma StoppedMeansSilent(states: seq<State>, events: seq<Event>, i: nat, j: nat, c: Caller)
    requires Run(states, events) && i < j < |events|
    requires events[i] == Return(c) && states[i].calls[c] == Returning(Stop, true) && events[j].Publish?
    ensures exists k :: i < k < j && Installs(states[k], events[k])
    ensures events[j].w > states[i].generation
  {
    RunKeepsInv(states, events, i);
    assert NobodyPlays(states[i + 1]);
    if forall k | i < k < j :: !Installs(states[k], events[k]) {
      SilenceLasts(states, events, i + 1, j);
      assert false;
    }
    PlayingWorkersAreNew(states, events, i + 1, j, events[j].w);
  }

  lemma {:induction false} PlayingWorkersAreNew(states: seq<State>, events: seq<Event>, i: nat, j: nat, w: nat)
    requires Run(states, events) && i <= j < |states| && NobodyPlays(states[i])
    requires w in states[j].workers && (InLoop(states[j], w) || states[j].workers[w] == Created)
    ensures w > states[i].generation && states[i].generation <= states[j].generation
    decreases j
  {
    hide Step, Inv, Installs;
    GenerationGrows(states, events, i, j);
    if i < j {
      var s := states[j - 1];
      WorkerAfterStepOf(states, events, j - 1, w);
      RunKeepsInv(states, events, j - 1);
      GenerationGrows(states, events, i, j - 1);
      if w in s.workers && (InLoop(s, w) || s.workers[w] == Created) {
        PlayingWorkersAreNew(states, events, i, j - 1, w);
      }
    }
  }

  lemma {:induction false} GenerationGrows(states: seq<State>, events: seq<Event>, i: nat, j: nat)
    requires Run(states, events) && i <= j < |states|
    ensures states[i].generation <= states[j].generation && states[i].stopSet <= states[j].stopSet
    decreases j
  {
    if i < j {
      GenerationGrows(states, events, i, j - 1);
    }
  }

  /** A worker told to stop publishes at most once more: no publication follows one made after its stop event was
      set. */
  lemma StopSignalIsHeeded(states: seq<State>, events: seq<Event>, i: nat, j: nat, w: nat)
    requires Run(states, events) && i < j < |events|
    requires events[i] == Publish(w) && w in states[i].stopSet
    ensures events[j] != Publish(w)
  {
    GenerationGrows(states, events, i, i + 1);
    NeverClearedAgain(states, events, i + 1, j, w);
  }

  lemma {:induction false} NeverClearedAgain(states: seq<State>, events: seq<Event>, i: nat, j: nat, w: nat)
    requires Run(states, events) && i <= j < |states| && w in states[i].stopSet
    requires w in states[i].workers && states[i].workers[w] == Running
    ensures w in states[j].workers && states[j].workers[w] != Cleared && states[j].workers[w] != Created
    decreases j
  {
    hide Step, Inv, Installs;
    if i < j {
      NeverClearedAgain(states, events, i, j - 1, w);
      WorkerAfterStepOf(states, events, j - 1, w);
      GenerationGrows(states, events, i, j - 1);
    }
  }
}
