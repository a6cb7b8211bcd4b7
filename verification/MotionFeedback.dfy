/** When the motion controller counts a target as reached, and a set of targets as stably reached. */
module MotionFeedback {
  import opened Options
  import opened UnitConversion

  datatype Observation = Observation(position: int, failed: bool, observedAt: real)

  datatype Target = Target(servo: int, pulse: int)

  /** Feedback on target `t` that was taken after the command. */
  predicate IsFresh(t: Target, seen: map<int, Observation>, issued: real) {
    t.servo in seen && seen[t.servo].observedAt >= issued
  }

  predicate IsReached(t: Target, seen: map<int, Observation>, issued: real, tolerance: int) {
    && IsFresh(t, seen, issued) && !seen[t.servo].failed
    && -tolerance <= seen[t.servo].position - t.pulse <= tolerance
  }

  predicate HasFailed(t: Target, seen: map<int, Observation>, issued: real) {
    IsFresh(t, seen, issued) && seen[t.servo].failed
  }

  /** The positions in `targets` that are reached. */
  function ReachedSet(targets: seq<Target>, seen: map<int, Observation>, issued: real, tolerance: int): set<nat> {
    set k: nat | k < |targets| && IsReached(targets[k], seen, issued, tolerance)
  }

  method EvaluateTargetFeedback(targets: seq<Target>, seen: map<int, Observation>, issued: real, tolerance: int)
    returns (reached: nat, firstError: Option<Observation>)
    ensures reached == |ReachedSet(targets, seen, issued, tolerance)|
    ensures firstError.None? <==> forall k | 0 <= k < |targets| :: !HasFailed(targets[k], seen, issued)
    ensures firstError.Some? ==>
              exists k :: 0 <= k < |targets| && HasFailed(targets[k], seen, issued)
                && firstError.value == seen[targets[k].servo]
                && forall j | 0 <= j < k :: !HasFailed(targets[j], seen, issued)
  {
    reached, firstError := 0, None;
    for k := 0 to |targets|
      invariant reached == |ReachedSet(targets[..k], seen, issued, tolerance)|
      invariant firstError.None? <==> forall j | 0 <= j < k :: !HasFailed(targets[j], seen, issued)
      invariant firstError.Some? ==>
                  exists i :: 0 <= i < k && HasFailed(targets[i], seen, issued)
                    && firstError.value == seen[targets[i].servo]
                    && forall j | 0 <= j < i :: !HasFailed(targets[j], seen, issued)
    {
      var t := targets[k];
      ghost var before := ReachedSet(targets[..k], seen, issued, tolerance);
      assert ReachedSet(targets[..k + 1], seen, issued, tolerance) ==
             if IsReached(t, seen, issued, tolerance) then before + {k} else before;
      if t.servo !in seen || seen[t.servo].observedAt < issued {
        continue;
      }
      if seen[t.servo].failed {
        if firstError.None? {
          firstError := Some(seen[t.servo]);
        }
        continue;
      }
      if -tolerance <= seen[t.servo].position - t.pulse <= tolerance {
        reached := reached + 1;
      }
    }
    assert targets[..|targets|] == targets;
  }

  /** What the driver reports for a servo that stands exactly at the unit it was commanded to. */
  function Settled(p: Protocol, pulse: int): int {
    UnitToPulse(p, NormalizedMoveTarget(p, pulse).0)
  }

  lemma {:induction false} AllIndices(n: nat, s: set<nat>)
    requires forall k: nat :: k in s <==> k < n
    ensures |s| == n
  {
    if n == 0 {
      assert s == {};
    } else {
      AllIndices(n - 1, s - {n - 1});
    }
  }

  /** If every servo stands exactly where it was commanded and was seen since, all targets count as reached, under every
      tolerance a goal may carry. */
  lemma SettledServosAreReached(
      targets: seq<Target>, protocols: seq<Protocol>, seen: map<int, Observation>, issued: real, tolerance: int)
    requires |protocols| == |targets| && 1 <= tolerance <= 500
    requires forall k | 0 <= k < |targets| ::
               && PULSE_MIN <= targets[k].pulse <= PULSE_MAX
               && IsFresh(targets[k], seen, issued) && !seen[targets[k].servo].failed
               && seen[targets[k].servo].position == Settled(protocols[k], targets[k].pulse)
    ensures |ReachedSet(targets, seen, issued, tolerance)| == |targets|
  {
    forall k: nat | k < |targets| ensures IsReached(targets[k], seen, issued, tolerance) {
      ReadBackIsWithinOne(protocols[k], targets[k].pulse);
    }
    assert forall k: nat :: k < |targets| ==> IsReached(targets[k], seen, issued, tolerance);
    assert forall k: nat :: k in ReachedSet(targets, seen, issued, tolerance) <==> k < |targets|;
    AllIndices(|targets|, ReachedSet(targets, seen, issued, tolerance));
  }

  // ---------------------------------------------------------------- stability

  /** One feedback round: how many targets were reached, and how many there are. */
  datatype Sample = Sample(reached: nat, targets: nat)

  predicate IsHit(s: Sample) {
    s.targets > 0 && s.reached == s.targets
  }

  class StablePositionTracker {
    const required: nat
    var consecutive: nat
    ghost var history: seq<Sample>

    /** `consecutive` counts the hits since the last miss. */
    ghost predicate Valid()
      reads this
    {
      && required > 0 && consecutive <= |history|
      && (forall k | |history| - consecutive <= k < |history| :: IsHit(history[k]))
      && (consecutive < |history| ==> !IsHit(history[|history| - consecutive - 1]))
    }

    constructor (required: nat)
      requires required > 0
      ensures Valid() && history == [] && this.required == required
    {
      this.required := required;
      consecutive, history := 0, [];
    }

    /** Stable exactly when the last `required` samples were all hits. */
    method Update(reached: nat, targets: nat) returns (stable: bool)
      requires Valid()
      modifies this
      ensures Valid() && history == old(history) + [Sample(reached, targets)]
      ensures stable <==>
                |history| >= required && forall k | |history| - required <= k < |history| :: IsHit(history[k])
    {
      history := history + [Sample(reached, targets)];
      if targets > 0 && reached == targets {
        consecutive := consecutive + 1;
      } else {
        consecutive := 0;
      }
      stable := consecutive >= required;
      assert !stable && |history| >= required ==> !IsHit(history[|history| - consecutive - 1]);
    }
  }
}
