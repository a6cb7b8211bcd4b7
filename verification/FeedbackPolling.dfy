/** Round-robin position polling of the bus servo system, and when it gives up. */
module FeedbackPolling {

  datatype ReturnType = Ok | Error

  /** One position read: the servo asked and whether its answer decoded. */
  datatype Poll = Poll(servo: nat, ok: bool)

  /** The outcomes of the polls of one servo, in order. */
  function PollsOf(polls: seq<Poll>, servo: nat): seq<bool> {
    if polls == [] then []
    else
      var last := polls[|polls| - 1];
      PollsOf(polls[..|polls| - 1], servo) + (if last.servo == servo then [last.ok] else [])
  }

  /** The last `count` outcomes are failures, and the one before them, if any, is not. */
  ghost predicate FailedInARow(outcomes: seq<bool>, count: nat) {
    && count <= |outcomes|
    && (forall k | |outcomes| - count <= k < |outcomes| :: !outcomes[k])
    && (count < |outcomes| ==> outcomes[|outcomes| - count - 1])
  }

  function Wrap(x: nat, n: nat): nat {
    if x < n then x else x - n
  }

  lemma WrapIsRemainder(x: nat, n: nat)
    requires 0 < n && x < 2 * n
    ensures x % n == if x < n then x else x - n
  {}

  /** The servos a complete cycle polls, from index `start`. */
  function Cycle(start: nat, count: nat, n: nat): (c: seq<nat>)
    ensures |c| == count
  {
    if count == 0 then [] else Cycle(start, count - 1, n) + [Wrap(start + count - 1, n)]
  }

  function Servos(polls: seq<Poll>): (s: seq<nat>)
    ensures |s| == |polls|
  {
    if polls == [] then [] else Servos(polls[..|polls| - 1]) + [polls[|polls| - 1].servo]
  }

  lemma PollsOfJoin(polls: seq<Poll>, p: Poll, servo: nat)
    ensures PollsOf(polls + [p], servo) == PollsOf(polls, servo) + (if p.servo == servo then [p.ok] else [])
  {
    assert (polls + [p])[..|polls + [p]| - 1] == polls;
  }

  lemma StreakAfter(outcomes: seq<bool>, count: nat, ok: bool)
    requires FailedInARow(outcomes, count)
    ensures FailedInARow(outcomes + [ok], if ok then 0 else count + 1)
  {}

  /** Starting indices of consecutive successful cycles. */
  ghost predicate Successive(starts: seq<nat>, count: nat, n: nat) {
    && (forall k | 0 <= k < |starts| :: starts[k] < n)
    && (forall k | 0 <= k < |starts| - 1 :: starts[k + 1] == Wrap(starts[k] + count, n))
  }

  /** The polls of consecutive successful cycles that began at these indices. */
  ghost predicate InOrder(streak: seq<seq<Poll>>, starts: seq<nat>, count: nat, n: nat) {
    && |streak| == |starts| && Successive(starts, count, n)
    && forall k | 0 <= k < |streak| :: Servos(streak[k]) == Cycle(starts[k], count, n)
  }

  lemma OneMoreCycle(streak: seq<seq<Poll>>, starts: seq<nat>, count: nat, n: nat, polled: seq<Poll>, next: nat)
    requires InOrder(streak, starts, count, n) && next < n && Servos(polled) == Cycle(next, count, n)
    requires starts != [] ==> next == Wrap(starts[|starts| - 1] + count, n)
    ensures InOrder(streak + [polled], starts + [next], count, n)
  {
    hide Cycle, Servos;
  }


  lemma CycleGrows(start: nat, count: nat, n: nat)
    ensures Cycle(start, count + 1, n) == Cycle(start, count, n) + [Wrap(start + count, n)]
  {}

  lemma ServosOfJoin(polls: seq<Poll>, p: Poll)
    ensures Servos(polls + [p]) == Servos(polls) + [p.servo]
  {
    assert (polls + [p])[..|polls + [p]| - 1] == polls;
  }

  /** The last `max` outcomes are failures. */
  ghost predicate HasFailedFor(outcomes: seq<bool>, max: nat) {
    |outcomes| >= max && forall k | |outcomes| - max <= k < |outcomes| :: !outcomes[k]
  }

  lemma FailuresAreCounted(outcomes: seq<bool>, count: nat, max: nat)
    requires FailedInARow(outcomes, count)
    ensures HasFailedFor(outcomes, max) <==> count >= max
  {
    if count < max && count < |outcomes| {
      assert outcomes[|outcomes| - count - 1];
    }
  }

  /** The servos polled so far in a cycle succeeded or have failed fewer than `max` times in a row. */
  ghost predicate AreFine(polled: seq<Poll>, errors: seq<nat>, next: nat, n: nat, max: nat) {
    forall t | 0 <= t < |polled| ::
      && polled[t].servo == Wrap(next + t, n) && polled[t].servo < |errors|
      && (polled[t].ok || errors[polled[t].servo] < max)
  }

  /** A cycle that began at `next`, when the polls made were `was`, has made the polls `polled`, all of them fine. */
  ghost predicate IsUnderWay(
      was: seq<Poll>, polls: seq<Poll>, polled: seq<Poll>, errors: seq<nat>, next: nat, n: nat, max: nat)
  {
    polls == was + polled && Servos(polled) == Cycle(next, |polled|, n) && AreFine(polled, errors, next, n, max)
  }

  lemma NothingPolledYet(was: seq<Poll>, errors: seq<nat>, next: nat, n: nat, max: nat)
    ensures IsUnderWay(was, was, [], errors, next, n, max)
  {
    assert was + [] == was;
  }

  lemma CycleIsDone(
      was: seq<Poll>, polls: seq<Poll>, polled: seq<Poll>, errors: seq<nat>, next: nat, n: nat, max: nat)
    requires IsUnderWay(was, polls, polled, errors, next, n, max)
    ensures polls == was + polled && Servos(polled) == Cycle(next, |polled|, n)
    ensures forall p | p in polled :: p.servo < |errors| && (p.ok || errors[p.servo] < max)
  {
    hide Servos, Cycle;
  }

  lemma OnePollMore(
      was: seq<Poll>, polls: seq<Poll>, polled: seq<Poll>, errors: seq<nat>, next: nat, n: nat, max: nat, p: Poll,
      count: nat)
    requires IsUnderWay(was, polls, polled, errors, next, n, max)
    requires |polled| < n == |errors| && next < n && p.servo == Wrap(next + |polled|, n)
    ensures polls + [p] == was + (polled + [p]) && Servos(polled + [p]) == Cycle(next, |polled| + 1, n)
    ensures p.ok || count < max ==>
              IsUnderWay(was, polls + [p], polled + [p], errors[p.servo := count], next, n, max)
  {
    ServosOfJoin(polled, p);
    CycleGrows(next, |polled|, n);
    hide Servos, Cycle;
  }

  lemma NoCycles(count: nat, n: nat)
    ensures InOrder([], [], count, n)
  {}

  class BusServoSystem {
    const size: nat
    const perCycle: nat
    const maxErrors: nat
    const readPosition: bool
    var isOpen: bool
    var errors: seq<nat>
    var next: nat
    ghost var polls: seq<Poll>         // every poll
    ghost var streak: seq<seq<Poll>>   // the polls of each cycle since the last error, and
    ghost var starts: seq<nat>         // the index at which each began

    ghost predicate Valid()
      reads this
    {
      && 0 < size && 0 < perCycle && 0 < maxErrors && next < size && |errors| == size
      && (forall j | 0 <= j < size :: FailedInARow(PollsOf(polls, j), errors[j]))
      && InOrder(streak, starts, Count(), size)
      && (starts != [] ==> next == Wrap(starts[|starts| - 1] + Count(), size))
    }

    function Count(): nat {
      if perCycle < size then perCycle else size
    }

    constructor (size: nat, feedbackPerCycle: int, maxConsecutiveErrors: int, readPosition: bool)
      requires 0 < size
      ensures Valid() && this.size == size && next == 0 && polls == [] && streak == [] && isOpen
      ensures this.readPosition == readPosition
      ensures perCycle == (if feedbackPerCycle < 1 then 1 else feedbackPerCycle)
      ensures maxErrors == (if maxConsecutiveErrors < 1 then 1 else maxConsecutiveErrors)
    {
      this.size, this.readPosition := size, readPosition;
      perCycle := if feedbackPerCycle < 1 then 1 else feedbackPerCycle;
      maxErrors := if maxConsecutiveErrors < 1 then 1 else maxConsecutiveErrors;
      isOpen, errors, next := true, seq(size, _ => 0), 0;
      polls, streak, starts := [], [], [];
    }

    /** Poll one servo; `ok` says whether its response arrived and decoded. */
    method ReadServo(index: nat, ok: bool) returns (success: bool)
      requires Valid() && index < size
      modifies this`errors, this`polls
      ensures Valid() && success == ok && polls == old(polls) + [Poll(index, ok)]
      ensures errors == old(errors)[index := if ok then 0 else old(errors[index]) + 1]
    {
      hide PollsOf, FailedInARow, InOrder;
      forall j | 0 <= j < size
        ensures FailedInARow(PollsOf(polls + [Poll(index, ok)], j),
                             if j != index then errors[j] else if ok then 0 else errors[index] + 1)
      {
        PollsOfJoin(polls, Poll(index, ok), j);
        assert PollsOf(polls, j) + [] == PollsOf(polls, j);
        if j == index {
          StreakAfter(PollsOf(polls, j), errors[j], ok);
        }
      }
      polls := polls + [Poll(index, ok)];
      errors := errors[index := if ok then 0 else errors[index] + 1];
      return ok;
    }

    /** One `read` cycle.  It polls the next servos in order and advances; it reports an error only from a servo whose
        last `maxErrors` polls all failed, and from the first such servo, and then it does not advance. */
    method Read(answers: seq<bool>) returns (r: ReturnType, ghost polled: seq<Poll>)
      requires Valid() && |answers| == size
      modifies this
      ensures Valid() && isOpen == old(isOpen) && polls == old(polls) + polled
      ensures !isOpen ==> r == Error && polled == []
      ensures isOpen && !readPosition ==> r == Ok && polled == [] && next == old(next) && streak == old(streak)
      ensures isOpen && readPosition && r == Ok ==>
                && streak == old(streak) + [polled]
                && Servos(polled) == Cycle(old(next), Count(), size) && next == Wrap(old(next) + Count(), size)
      ensures r == Ok ==> forall p | p in polled :: p.ok || !HasFailedFor(PollsOf(polls, p.servo), maxErrors)
      ensures r == Error ==> streak == []
      ensures isOpen && readPosition && r == Error ==>
                && next == old(next) && polled != [] && !polled[|polled| - 1].ok
                && |Servos(polled)| <= Count() && Servos(polled) == Cycle(old(next), |polled|, size)
                && HasFailedFor(PollsOf(polls, polled[|polled| - 1].servo), maxErrors)
    {
      hide PollsOf, InOrder, FailedInARow, HasFailedFor, Servos, Cycle, IsUnderWay;
      polled := [];
      NothingPolledYet(polls, errors, next, size, maxErrors);
      if !isOpen {
        streak, starts := [], [];
        NoCycles(Count(), size);
        return Error, polled;
      }
      if !readPosition {
        return Ok, polled;
      }
      var count := if perCycle < size then perCycle else size;
      var offset := 0;
      while offset < count
        invariant 0 <= offset <= count && Valid() && |polled| == offset
        invariant IsUnderWay(old(polls), polls, polled, errors, next, size, maxErrors)
        invariant streak == old(streak) && starts == old(starts)
        modifies this`errors, this`polls, this`streak, this`starts
      {
        WrapIsRemainder(next + offset, size);
        var index := (next + offset) % size;
        ghost var poll := Poll(index, answers[offset]);
        OnePollMore(old(polls), polls, polled, errors, next, size, maxErrors, poll,
                    if poll.ok then 0 else errors[index] + 1);
        var ok := ReadServo(index, answers[offset]);
        polled := polled + [poll];
        if !ok && errors[index] >= maxErrors {
          FailuresAreCounted(PollsOf(polls, index), errors[index], maxErrors);
          streak, starts := [], [];
          NoCycles(Count(), size);
          return Error, polled;
        }
        offset := offset + 1;
      }
      CycleIsDone(old(polls), polls, polled, errors, next, size, maxErrors);
      WrapIsRemainder(next + count, size);
      OneMoreCycle(streak, starts, count, size, polled, next);
      forall p | p in polled && !p.ok ensures !HasFailedFor(PollsOf(polls, p.servo), maxErrors) {
        FailuresAreCounted(PollsOf(polls, p.servo), errors[p.servo], maxErrors);
      }
      streak, starts := streak + [polled], starts + [next];
      next := (next + count) % size;
      return Ok, polled;
    }
  }

  // ---------------------------------------------------------------- fairness

  lemma {:induction false} CycleAt(start: nat, count: nat, n: nat, offset: nat)
    requires offset < count
    ensures Cycle(start, count, n)[offset] == Wrap(start + offset, n)
  {
    if offset < count - 1 {
      CycleAt(start, count - 1, n, offset);
    }
  }

  /** A servo `ahead` places ahead of cycle `k` is reached by one of the cycles from `k` on. */
  lemma {:induction false} ReachedAhead(starts: seq<nat>, count: nat, n: nat, servo: nat, k: nat, ahead: nat)
    returns (hit: nat)
    requires 0 < count <= n && servo < n && ahead < n && k < |starts| && Successive(starts, count, n)
    requires starts[k] + ahead == servo || starts[k] + ahead == servo + n
    requires ahead < (|starts| - k) * count
    ensures k <= hit < |starts| && servo in Cycle(starts[hit], count, n)
    decreases |starts| - k
  {
    if ahead < count {
      hit := k;
      CycleAt(starts[k], count, n, ahead);
    } else {
      assert (|starts| - k) * count == (|starts| - k - 1) * count + count;
      if k + 1 == |starts| {
        assert false;
      }
      hit := ReachedAhead(starts, count, n, servo, k + 1, ahead - count);
    }
  }

  lemma OneOfThemReaches(starts: seq<nat>, count: nat, n: nat, servo: nat) returns (hit: nat)
    requires 0 < count <= n && servo < n && Successive(starts, count, n) && |starts| * count >= n
    ensures hit < |starts| && servo in Cycle(starts[hit], count, n)
  {
    if |starts| == 0 {
      assert false;
    }
    var ahead := if servo >= starts[0] then servo - starts[0] else servo + n - starts[0];
    hit := ReachedAhead(starts, count, n, servo, 0, ahead);
  }

  lemma WindowIsInOrder(streak: seq<seq<Poll>>, starts: seq<nat>, count: nat, n: nat, first: nat, cycles: nat)
    requires InOrder(streak, starts, count, n) && first + cycles <= |streak|
    ensures InOrder(streak[first..first + cycles], starts[first..first + cycles], count, n)
  {
    hide Servos, Cycle, Wrap;
    var window := starts[first..first + cycles];
    forall k | 0 <= k < cycles - 1 ensures window[k + 1] == Wrap(window[k] + count, n) {
      assert starts[first + k + 1] == Wrap(starts[first + k] + count, n);
    }
  }

  lemma WindowLengths(system: BusServoSystem)
    requires system.Valid()
    ensures |system.streak| == |system.starts| && 0 < system.Count() <= system.size
  {}

  /** In any `cycles` consecutive successful reads with `cycles * count >= n`, so in any ceil(n / count) of them, the
      polls they made include every one of the `n` servos. */
  lemma PollingIsFair(system: BusServoSystem, first: nat, cycles: nat, servo: nat) returns (hit: nat)
    requires system.Valid() && servo < system.size
    requires first + cycles <= |system.streak| && cycles * system.Count() >= system.size
    ensures first <= hit < first + cycles && servo in Servos(system.streak[hit])
  {
    WindowLengths(system);
    hide Servos, Cycle, PollsOf, FailedInARow, Successive, Wrap;
    var count, n := system.Count(), system.size;
    WindowIsInOrder(system.streak, system.starts, count, n, first, cycles);
    var k := OneOfThemReaches(system.starts[first..first + cycles], count, n, servo);
    assert system.streak[first..first + cycles][k] == system.streak[first + k];
    hit := first + k;
  }
}
