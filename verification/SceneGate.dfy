/** The scene admission gate: which observations it accepts and which it remembers as seen. */
module SceneGate {
  import opened Options
  import opened ReplayMemory

  /** What the gate reads of one scene message.  The identifiers are already trimmed; `geometryOk` is the verdict of
      the separate geometry policy on this frame and these objects for a given target. */
  datatype Scene = Scene(observation: string, session: string, statusOk: bool, received: real,
                         geometryOk: set<string>)

  datatype Verdict =
    | Ready
    | Unavailable
    | Rejected
    | ObservationRequired
    | SessionRequired
    | SessionMismatch
    | ClockInvalid
    | Stale
    | GeometryRefused

  class SceneAdmissionGate {
    const maxAge: real
    const window: nat
    var current: Option<Scene>
    var seenOrder: seq<string>
    var seenIds: set<string>
    ghost var recorded: seq<string>  // every non-empty observation id the gate ever accepted

    ghost predicate Valid()
      reads this
    {
      && window > 0 && maxAge > 0.0
      && Agrees(seenOrder, seenIds, window, recorded)
      && (current.Some? && current.value.observation != "" ==>
            recorded != [] && (current.value.observation == recorded[|recorded| - 1]))
    }

    constructor (maxAge: real, window: nat)
      requires maxAge > 0.0
      ensures Valid() && current == None && recorded == []
    {
      this.maxAge := maxAge;
      this.window := if window < 1 then 1 else window;
      current, seenOrder, seenIds := None, [], {};
      recorded := [];
    }

    /** A repeated observation changes nothing, so it cannot refresh the age of the stored scene. */
    method Update(scene: Scene) returns (stored: bool)
      requires Valid()
      modifies this
      ensures Valid()
      ensures stored <==> scene.observation == "" || scene.observation !in LastN(old(recorded), window)
      ensures stored ==> current == Some(scene)
      ensures stored ==>
                recorded == if scene.observation == "" then old(recorded) else old(recorded) + [scene.observation]
      ensures !stored ==> current == old(current) && recorded == old(recorded) && seenOrder == old(seenOrder)
    {
      if scene.observation != "" && scene.observation in seenIds {
        return false;
      }
      current := Some(scene);
      if scene.observation != "" {
        ghost var before, beforeIds := seenOrder, seenIds;
        PushKeepsLastN(before, beforeIds, window, recorded, scene.observation);
        seenOrder := seenOrder + [scene.observation];
        seenIds := seenIds + {scene.observation};
        while |seenOrder| > window
          invariant |before| < window ==> seenOrder == before + [scene.observation]
          invariant |before| < window ==> seenIds == beforeIds + {scene.observation}
          invariant |before| == window ==>
              || (seenOrder == before + [scene.observation] && seenIds == beforeIds + {scene.observation})
              || (seenOrder == before[1..] + [scene.observation]
                  && seenIds == beforeIds - {before[0]} + {scene.observation})
          modifies this`seenOrder, this`seenIds
          decreases |seenOrder|
        {
          var expired := seenOrder[0];
          assert expired == before[0] && expired in beforeIds;
          seenOrder := seenOrder[1..];
          seenIds := seenIds - {expired};
        }
        recorded := recorded + [scene.observation];
      }
      return true;
    }

    function Evaluate(session: string, target: string, now: real): (v: Verdict)
      reads this
      ensures v == Ready <==>
                && current.Some? && current.value.statusOk && current.value.observation != ""
                && current.value.session != "" && current.value.session == session
                && 0.0 <= now - current.value.received <= maxAge
                && target in current.value.geometryOk
    {
      if current.None? then Unavailable
      else
        var s := current.value;
        if !s.statusOk then Rejected
        else if s.observation == "" then ObservationRequired
        else if s.session == "" then SessionRequired
        else if s.session != session then SessionMismatch
        else if now - s.received < 0.0 then ClockInvalid
        else if now - s.received > maxAge then Stale
        else if target !in s.geometryOk then GeometryRefused
        else Ready
    }

    /** The clock is read and the batch committed while the gate is held, so a committed batch belongs to the scene
        that was judged. */
    method CommitIfAccepted(session: string, target: string, now: real) returns (v: Verdict, committed: Option<Scene>)
      requires Valid()
      ensures v == Evaluate(session, target, now)
      ensures committed.Some? <==> v == Ready
      ensures committed.Some? ==> committed == current
      ensures committed.Some? ==> recorded != [] && committed.value.observation == recorded[|recorded| - 1]
    {
      v := Evaluate(session, target, now);
      committed := if v == Ready then current else None;
    }
  }
}
