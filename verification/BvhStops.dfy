/** What a call of `stop` does to the worker it finds, and what its answer tells. */
module BvhStops {
  import opened Options
  import opened BvhHandover

  lemma DeadStaysDead(s: State, e: Event, w: nat)
    requires Enabled(s, e) && Inv(s) && w in s.workers && s.workers[w] == Dead
    ensures w in Step(s, e).workers && Step(s, e).workers[w] == Dead
  {}

  /** Where a `stop` call stands that found worker `seen`, or none; `alive` says whether it joined it in vain. */
  predicate StopStands(s: State, c: Caller, seen: Option<nat>, alive: bool) {
    && c in s.calls
    && if seen.None? then s.calls[c] == StoppedAll(Stop) || s.calls[c] == Returning(Stop, true)
       else
         var w := seen.value;
         && w in s.workers
         && match s.calls[c]
            case Signalling(request, worker, _) => request == Stop && worker == w
            case Joining(request, worker, _) => request == Stop && worker == w && w in s.stopSet
            case Clearing(request, worker, _) =>
              request == Stop && worker == w && w in s.stopSet && s.workers[w] == Dead
            case StoppedAll(request) => request == Stop && w in s.stopSet && s.workers[w] == Dead
            case Returning(request, result) =>
              && request == Stop && w in s.stopSet
              && (if result then s.workers[w] == Dead else c == Callback(w) || alive)
            case _ => false
  }

  /** The event joins the worker on behalf of the call and finds it still alive. */
  predicate FindsAlive(s: State, e: Event, c: Caller, seen: Option<nat>) {
    e == Join(c) && seen.Some? && seen.value in s.workers && s.workers[seen.value] != Dead
  }

  ghost predicate FoundAlive(states: seq<State>, events: seq<Event>, i: nat, j: nat, c: Caller)
    requires i < j < |states| == |events| + 1
  {
    exists k :: i < k < j && FindsAlive(states[k], events[k], c, states[i].thread)
  }

  lemma StopBegins(s: State, e: Event, c: Caller)
    requires Enabled(s, e) && Inv(s) && e == Read(c) && s.calls[c] == Reading(Stop)
    ensures StopStands(Step(s, e), c, s.thread, false)
  {}

  predicate ActsFor(e: Event, c: Caller) {
    e == Signal(c) || e == Join(c) || e == Clear(c) || e == Proceed(c)
  }

  lemma OwnStep(s: State, e: Event, c: Caller, seen: Option<nat>, alive: bool)
    requires Enabled(s, e) && StopStands(s, c, seen, alive) && ActsFor(e, c)
    ensures StopStands(Step(s, e), c, seen, alive || FindsAlive(s, e, c, seen))
  {}

  lemma OtherStep(s: State, e: Event, c: Caller, seen: Option<nat>, alive: bool)
    requires Enabled(s, e) && Inv(s) && StopStands(s, c, seen, alive) && !ActsFor(e, c) && e != Return(c)
    ensures StopStands(Step(s, e), c, seen, alive)
  {
    OthersLeaveTheCall(s, e, c, seen, alive);
    if seen.Some? {
      WorkerStays(s, e, seen.value);
      if s.workers[seen.value] == Dead {
        DeadStaysDead(s, e, seen.value);
      }
    }
    hide Step, Inv;
  }

  lemma OthersLeaveTheCall(s: State, e: Event, c: Caller, seen: Option<nat>, alive: bool)
    requires Enabled(s, e) && StopStands(s, c, seen, alive) && !ActsFor(e, c) && e != Return(c)
    ensures c in Step(s, e).calls && Step(s, e).calls[c] == s.calls[c]
  {}

  lemma WorkerStays(s: State, e: Event, w: nat)
    requires Enabled(s, e) && Inv(s) && w in s.workers
    ensures w in Step(s, e).workers && s.stopSet <= Step(s, e).stopSet
  {}

  /** From the moment a `stop` call has read the handle until it returns: the worker it found is told to stop
      before the call waits for it; the answer is true only when no worker was found or it is dead, and false only
      when the call came from that worker itself or joined it in vain. */
  lemma {:induction false} StopCallOfARun(states: seq<State>, events: seq<Event>, i: nat, j: nat, c: Caller)
    requires Run(states, events) && i < j < |states|
    requires events[i] == Read(c) && states[i].calls[c] == Reading(Stop)
    requires forall k | i < k < j :: events[k] != Return(c)
    ensures StopStands(states[j], c, states[i].thread, FoundAlive(states, events, i, j, c))
    decreases j
  {
    hide Step, Inv, StopStands, FindsAlive;
    if j == i + 1 {
      RunKeepsInv(states, events, i);
      StopBegins(states[i], events[i], c);
    } else {
      StopCallOfARun(states, events, i, j - 1, c);
      RunKeepsInv(states, events, j - 1);
      var s, e, seen, alive := states[j - 1], events[j - 1], states[i].thread, FoundAlive(states, events, i, j - 1, c);
      if ActsFor(e, c) {
        OwnStep(s, e, c, seen, alive);
      } else {
        OtherStep(s, e, c, seen, alive);
        OnlyAJoinFindsAlive(s, e, c, seen);
      }
      assert FoundAlive(states, events, i, j, c) <==> alive || FindsAlive(s, e, c, seen);
    }
  }

  lemma OnlyAJoinFindsAlive(s: State, e: Event, c: Caller, seen: Option<nat>)
    ensures FindsAlive(s, e, c, seen) ==> ActsFor(e, c)
  {}

  // ---------------------------------------------------------------- stop events

  predicate SignalsAreOld(s: State) {
    forall w | w in s.stopSet :: w in s.workers && w <= s.generation
  }

  lemma StepKeepsSignalsOld(s: State, e: Event)
    requires Enabled(s, e) && Inv(s) && SignalsAreOld(s)
    ensures SignalsAreOld(Step(s, e))
  {}

  lemma {:induction false} SignalsOfARun(states: seq<State>, events: seq<Event>, k: nat)
    requires Run(states, events) && k < |states|
    ensures SignalsAreOld(states[k])
  {
    hide Step, Inv;
    if k > 0 {
      SignalsOfARun(states, events, k - 1);
      RunKeepsInv(states, events, k - 1);
      StepKeepsSignalsOld(states[k - 1], events[k - 1]);
    }
  }

  /** A newly installed worker has not been told to stop: its stop event is its own. */
  lemma InstalledWorkerIsNotStopped(states: seq<State>, events: seq<Event>, k: nat)
    requires Run(states, events) && k < |events| && Installs(states[k], events[k])
    ensures var w := states[k + 1].generation;
            && w == states[k].generation + 1 && states[k + 1].thread == Some(w)
            && w in states[k + 1].workers && w !in states[k + 1].stopSet
  {
    SignalsOfARun(states, events, k);
    hide Inv;
  }

  /** A worker is told to stop only by a call that signals it. */
  lemma OnlyACallStopsAWorker(states: seq<State>, events: seq<Event>, k: nat, w: nat)
    requires Run(states, events) && k < |events| && w !in states[k].stopSet && w in states[k + 1].stopSet
    ensures events[k].Signal? && events[k].c in states[k].calls
    ensures var call := states[k].calls[events[k].c]; call.Signalling? && call.worker == w
  {}

  /** A worker that looks at its stop event leaves the loop exactly when it was told to. */
  lemma CheckedWorkerLeavesWhenTold(states: seq<State>, events: seq<Event>, k: nat, w: nat)
    requires Run(states, events) && k < |events| && events[k] == CheckStop(w)
    ensures w in states[k + 1].workers && (states[k + 1].workers[w] == Leaving <==> w in states[k].stopSet)
  {}

  /** The worker that the handle names is the one that has not left the loop. */
  ghost predicate HandleIsOwned(s: State) {
    forall w: nat :: s.thread == Some(w) <==> w in s.workers && OwnsHandle(s.workers[w])
  }

  lemma StepKeepsHandleOwned(s: State, e: Event)
    requires Enabled(s, e) && Inv(s) && HandleIsOwned(s)
    ensures HandleIsOwned(Step(s, e))
  {}

  /** The handle names exactly the worker that has not left yet: none is forgotten while it may still publish, and
      none is kept once it is out of the loop or failed to start. */
  lemma {:induction false} HandleOfARun(states: seq<State>, events: seq<Event>, k: nat)
    requires Run(states, events) && k < |states|
    ensures HandleIsOwned(states[k])
  {
    hide Step, Inv;
    if k > 0 {
      HandleOfARun(states, events, k - 1);
      RunKeepsInv(states, events, k - 1);
      StepKeepsHandleOwned(states[k - 1], events[k - 1]);
    } else {
      NothingIsOwned(states[0]);
    }
  }

  lemma NothingIsOwned(s: State)
    requires Initial(s)
    ensures HandleIsOwned(s)
  {}
}
