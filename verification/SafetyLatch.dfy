/** The stop latch that the protocol router and every port driver own.

    `Latch` is the three-field value the source keeps.  `Signal` is one call that can change it, and `Replay` is the
    latch after a whole history of such calls.  The lemmas say what the three fields mean in terms of the history
    alone; `DriverSafetyLatch` is the mutable object, whose ghost history they apply to. */
module SafetyLatch {

  datatype Latch = Latch(latched: bool, fence: int, lastAuthority: int)

  const INITIAL := Latch(false, 0, 0)

  /** A local stop at the driver's own clock, or an authority message with the manager's stamp. */
  datatype Signal =
    | LocalStop(now: int)
    | Authority(active: bool, stamp: int, now: int)

  function Max(a: int, b: int): int {
    if a < b then b else a
  }

  function Activated(l: Latch, now: int): Latch {
    l.(latched := true, fence := Max(l.fence, now))
  }

  function Observed(l: Latch, active: bool, stamp: int, now: int): Latch {
    if active then
      Latch(true, Max(l.fence, if stamp > 0 then stamp else now), Max(l.lastAuthority, stamp))
    else if stamp <= l.lastAuthority then l
    else if stamp <= l.fence then l.(lastAuthority := stamp)
    else Latch(false, l.fence, stamp)
  }

  /** Whether a stamped move may enter the driver. */
  predicate Admits(l: Latch, stamp: int) {
    !l.latched && (l.fence == 0 || stamp > l.fence)
  }

  function Apply(l: Latch, s: Signal): Latch {
    match s
    case LocalStop(now) => Activated(l, now)
    case Authority(active, stamp, now) => Observed(l, active, stamp, now)
  }

  function Replay(h: seq<Signal>): Latch {
    if h == [] then INITIAL else Apply(Replay(h[..|h| - 1]), h[|h| - 1])
  }

  predicate IsLatching(s: Signal) {
    s.LocalStop? || s.active
  }

  /** The time a latching signal asks moves to be newer than. */
  function LatchTime(s: Signal): int
    requires IsLatching(s)
  {
    if s.LocalStop? || s.stamp <= 0 then s.now else s.stamp
  }

  /** Signal `j` is a release newer than zero, than every earlier authority and than every earlier stop. */
  ghost predicate EffectiveRelease(h: seq<Signal>, j: nat)
    requires j < |h|
  {
    && h[j].Authority? && !h[j].active && h[j].stamp > 0
    && (forall i | 0 <= i < j && h[i].Authority? :: h[i].stamp < h[j].stamp)
    && (forall i | 0 <= i < j && IsLatching(h[i]) :: LatchTime(h[i]) < h[j].stamp)
  }

  /** Signal `i` latched the driver and no later release undid it. */
  ghost predicate StopStands(h: seq<Signal>, i: nat)
    requires i < |h|
  {
    IsLatching(h[i]) && forall j | i < j < |h| :: !EffectiveRelease(h, j)
  }

  // ---------------------------------------------------------------- what the fields mean

  lemma {:induction false} LastAuthorityIsMaximum(h: seq<Signal>)
    ensures Replay(h).lastAuthority >= 0
    ensures forall i | 0 <= i < |h| && h[i].Authority? :: h[i].stamp <= Replay(h).lastAuthority
    ensures Replay(h).lastAuthority == 0
         || exists i :: 0 <= i < |h| && h[i].Authority? && h[i].stamp == Replay(h).lastAuthority
  {
    if h != [] {
      var prev := h[..|h| - 1];
      LastAuthorityIsMaximum(prev);
      if Replay(h).lastAuthority == Replay(prev).lastAuthority && Replay(prev).lastAuthority != 0 {
        var i :| 0 <= i < |prev| && prev[i].Authority? && prev[i].stamp == Replay(prev).lastAuthority;
        assert h[i] == prev[i];
      }
    }
  }

  lemma {:induction false} FenceIsMaximum(h: seq<Signal>)
    ensures Replay(h).fence >= 0
    ensures forall i | 0 <= i < |h| && IsLatching(h[i]) :: LatchTime(h[i]) <= Replay(h).fence
    ensures Replay(h).fence == 0
         || exists i :: 0 <= i < |h| && IsLatching(h[i]) && LatchTime(h[i]) == Replay(h).fence
  {
    if h != [] {
      var prev := h[..|h| - 1];
      FenceIsMaximum(prev);
      if Replay(h).fence == Replay(prev).fence && Replay(prev).fence != 0 {
        var i :| 0 <= i < |prev| && IsLatching(prev[i]) && LatchTime(prev[i]) == Replay(prev).fence;
        assert h[i] == prev[i];
      }
    }
  }

  /** The last signal of a history unlatches exactly when it is an effective release. */
  lemma LastReleaseIsEffective(h: seq<Signal>)
    requires h != [] && !IsLatching(h[|h| - 1])
    ensures var prev := Replay(h[..|h| - 1]);
            EffectiveRelease(h, |h| - 1) <==> h[|h| - 1].stamp > prev.lastAuthority && h[|h| - 1].stamp > prev.fence
  {
    var prev := h[..|h| - 1];
    LastAuthorityIsMaximum(prev);
    FenceIsMaximum(prev);
    forall i | 0 <= i < |prev| ensures h[i] == prev[i] {}
  }

  lemma PrefixReleases(h: seq<Signal>, j: nat)
    requires h != [] && j < |h| - 1
    ensures EffectiveRelease(h, j) <==> EffectiveRelease(h[..|h| - 1], j)
  {
    var prev := h[..|h| - 1];
    forall i | 0 <= i <= j ensures h[i] == prev[i] {}
  }

  lemma {:induction false} LatchedMeansAStopStands(h: seq<Signal>)
    ensures Replay(h).latched <==> exists i :: 0 <= i < |h| && StopStands(h, i)
  {
    if h != [] {
      var n := |h| - 1;
      var prev := h[..n];
      LatchedMeansAStopStands(prev);
      if IsLatching(h[n]) {
        assert StopStands(h, n);
      } else {
        LastReleaseIsEffective(h);
        forall i | 0 <= i < n ensures StopStands(h, i) <==> StopStands(prev, i) && !EffectiveRelease(h, n) {
          forall j | i < j < n ensures EffectiveRelease(h, j) <==> EffectiveRelease(prev, j) {
            PrefixReleases(h, j);
          }
          assert h[i] == prev[i];
        }
      }
    }
  }

  /** A move is admitted exactly when every stop has been released and the move is newer than all of them.  A history
      whose stops all carry times at or below zero leaves the fence at zero, and then the stamp is not looked at. */
  lemma AdmissionMeansNewerThanEveryStop(h: seq<Signal>, stamp: int)
    ensures Admits(Replay(h), stamp) <==>
              && (forall i | 0 <= i < |h| :: !StopStands(h, i))
              && ( || (forall i | 0 <= i < |h| && IsLatching(h[i]) :: LatchTime(h[i]) <= 0)
                   || (forall i | 0 <= i < |h| && IsLatching(h[i]) :: LatchTime(h[i]) < stamp))
  {
    LatchedMeansAStopStands(h);
    FenceIsMaximum(h);
  }

  lemma {:induction false} FieldsOnlyGrow(h: seq<Signal>, more: seq<Signal>)
    ensures Replay(h).fence <= Replay(h + more).fence
    ensures Replay(h).lastAuthority <= Replay(h + more).lastAuthority
  {
    if more == [] {
      assert h + more == h;
    } else {
      var shorter := more[..|more| - 1];
      FieldsOnlyGrow(h, shorter);
      assert (h + more)[..|h + more| - 1] == h + shorter;
    }
  }

  // ---------------------------------------------------------------- the object

  /** How a protocol command is treated at the gate. */
  datatype CommandClass = StopCommand | MotionCommand | OtherCommand

  class DriverSafetyLatch {
    var latched: bool
    var fenceNs: int
    var lastAuthorityNs: int
    ghost var history: seq<Signal>

    function Value(): Latch
      reads this
    {
      Latch(latched, fenceNs, lastAuthorityNs)
    }

    ghost predicate Valid()
      reads this
    {
      Value() == Replay(history)
    }

    constructor ()
      ensures Valid() && Value() == INITIAL && history == []
    {
      latched, fenceNs, lastAuthorityNs := false, 0, 0;
      history := [];
    }

    method Activate(now: int)
      requires Valid()
      modifies this
      ensures Valid() && history == old(history) + [LocalStop(now)]
      ensures Value() == Activated(old(Value()), now)
    {
      latched := true;
      fenceNs := Max(fenceNs, now);
      history := history + [LocalStop(now)];
      assert history[..|history| - 1] == old(history);
    }

    method ObserveAuthority(active: bool, stamp: int, now: int) returns (changed: bool)
      requires Valid()
      modifies this
      ensures Valid() && history == old(history) + [Authority(active, stamp, now)]
      ensures Value() == Observed(old(Value()), active, stamp, now)
      ensures changed <==> active || (old(latched) && !latched)
    {
      history := history + [Authority(active, stamp, now)];
      assert history[..|history| - 1] == old(history);
      if active {
        lastAuthorityNs := Max(lastAuthorityNs, stamp);
        latched := true;
        var authorityFence := if stamp > 0 then stamp else now;
        fenceNs := Max(fenceNs, authorityFence);
        return true;
      }
      if stamp <= lastAuthorityNs {
        return false;
      }
      lastAuthorityNs := stamp;
      if stamp <= fenceNs {
        return false;
      }
      changed := latched;
      latched := false;
    }

    method Admit(stamp: int, isStop: bool, now: int) returns (ok: bool)
      requires Valid()
      modifies this
      ensures Valid()
      ensures isStop ==> ok && latched && fenceNs >= now && history == old(history) + [LocalStop(now)]
      ensures !isStop ==> history == old(history) && (ok <==> Admits(Value(), stamp))
    {
      if isStop {
        Activate(now);
        return true;
      }
      if latched {
        return false;
      }
      if fenceNs == 0 {
        return true;
      }
      return stamp > fenceNs;
    }

    /** Stops always pass, and latch; moves pass when admitted; anything else passes and changes nothing. */
    method AdmitProtocolCommand(command: CommandClass, now: int, stamp: int) returns (ok: bool)
      requires Valid()
      modifies this
      ensures Valid()
      ensures history == if command.StopCommand? then old(history) + [LocalStop(now)] else old(history)
      ensures ok <==> command.MotionCommand? ==> Admits(Value(), stamp)
      ensures command.StopCommand? ==> fenceNs >= now && forall s :: !Admits(Value(), s)
    {
      if command.StopCommand? {
        ok := Admit(0, true, now);
        return;
      }
      if !command.MotionCommand? {
        return true;
      }
      ok := Admit(stamp, false, now);
    }
  }
}
