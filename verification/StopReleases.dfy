/** Releases over every run of the stop protocol: who may lift a stop, and on whose word. */
module StopReleases {
  import opened Arbitration
  import opened StopProtocol
  import opened StopInvariants
  import opened StopTheorems

  // ---------------------------------------------------------------- the router's release

  /** Port `p` answered a release call with this stamp, and unlatched, at some event strictly between `b` and `k`. */
  ghost predicate PortLetGo(states: seq<State>, events: seq<Event>, b: nat, k: nat, p: nat, stamp: int)
    requires |states| == |events| + 1 && k < |states|
  {
    exists h :: b < h < k && events[h].AtDrivers? && events[h].d.PortRelease? && events[h].d.port == p
      && events[h].d.stamp == stamp && p < |states[h + 1].drv.ports| && !states[h + 1].drv.ports[p].latched
  }

  /** The release job of state `k` began at event `b`, and the router has held its lock since. */
  ghost predicate JobBegan(states: seq<State>, events: seq<Event>, b: nat, k: nat)
    requires |states| == |events| + 1 && k < |states|
  {
    && b < k && states[k].drv.job.Some?
    && events[b] == AtDrivers(RouterBegin(states[k].drv.job.value.stamp))
    && forall x | b < x <= k :: states[x].drv.job.Some? && states[x].drv.router == states[b].drv.router
  }

  /** Calls are numbered: each request belongs to one call, and an answer to a call comes from the port asked. */
  lemma {:induction false} CallsAreUnique(
      sys: System, states: seq<State>, events: seq<Event>, k: nat, a: (nat, int, nat), b: (nat, int, nat))
    requires Run(sys, states, events) && k < |states|
    requires a in states[k].net.portRequests && b in states[k].net.portRequests && a.2 == b.2
    ensures a == b && a.2 < states[k].drv.calls
  {
    hide ManagerStep, NoticeOf, MoveOf;
    if k > 0 {
      if a in states[k - 1].net.portRequests {
        CallsAreUnique(sys, states, events, k - 1, a, a);
      }
      if b in states[k - 1].net.portRequests {
        CallsAreUnique(sys, states, events, k - 1, b, b);
      }
      if a in states[k - 1].net.portRequests && b in states[k - 1].net.portRequests {
        CallsAreUnique(sys, states, events, k - 1, a, b);
      }
    }
  }

  lemma {:induction false} AnswerHasAPort(
      sys: System, states: seq<State>, events: seq<Event>, k: nat, call: nat, ok: bool) returns (h: nat)
    requires Run(sys, states, events) && k < |states| && (call, ok) in states[k].net.portReplies
    ensures h < k && events[h].AtDrivers? && events[h].d.PortRelease? && events[h].d.call == call
    ensures (events[h].d.port, events[h].d.stamp, call) in states[h].net.portRequests
    ensures events[h].d.port < |states[h + 1].drv.ports|
    ensures ok <==> !states[h + 1].drv.ports[events[h].d.port].latched
  {
    hide ManagerStep, NoticeOf, MoveOf;
    if (call, ok) in states[k - 1].net.portReplies {
      h := AnswerHasAPort(sys, states, events, k - 1, call, ok);
    } else {
      h := k - 1;
    }
  }

  lemma {:induction false} RequestsStay(
      sys: System, states: seq<State>, events: seq<Event>, r: (nat, int, nat), i: nat, j: nat)
    requires Run(sys, states, events) && i <= j < |states| && r in states[i].net.portRequests
    ensures r in states[j].net.portRequests
    decreases j
  {
    hide ManagerStep, NoticeOf, MoveOf, DriverStep;
    if i < j {
      RequestsStay(sys, states, events, r, i, j - 1);
    }
  }

  /** The release in progress began at some event `b`, and any call it waits for was made since. */
  lemma {:induction false} JobHasABeginning(sys: System, states: seq<State>, events: seq<Event>, k: nat)
    returns (b: nat)
    requires Run(sys, states, events) && k < |states| && states[k].drv.job.Some?
    ensures JobBegan(states, events, b, k)
    ensures var j := states[k].drv.job.value;
            j.waiting.Some? ==> states[b].drv.calls <= j.waiting.value < states[k].drv.calls
                                && (j.port, j.stamp, j.waiting.value) in states[k].net.portRequests
  {
    hide ManagerStep, NoticeOf, MoveOf;
    if states[k - 1].drv.job.None? {
      b := k - 1;
    } else {
      b := JobHasABeginning(sys, states, events, k - 1);
      ClockGrows(sys, states, events, b, k - 1);
    }
  }

  lemma BeginningIsUnique(states: seq<State>, events: seq<Event>, b: nat, b': nat, k: nat)
    requires |states| == |events| + 1 && k < |states|
    requires JobBegan(states, events, b, k) && JobBegan(states, events, b', k)
    requires states[b].drv.job.None? && states[b'].drv.job.None?
    ensures b == b'
  {}

  /** What the release in progress has established, from its beginning at event `b`. */
  lemma {:induction false} JobProgress(sys: System, states: seq<State>, events: seq<Event>, b: nat, k: nat)
    requires Run(sys, states, events) && k < |states| && JobBegan(states, events, b, k)
    ensures var j := states[k].drv.job.value;
            j.allApplied ==> forall p | 0 <= p < j.port && p < |sys.hasIds| && sys.hasIds[p] ::
                               PortLetGo(states, events, b, k, p, j.stamp)
    decreases k
  {
    hide ManagerStep, ManagerSends, DriverSends, PortLetGo;
    if k > b + 1 {
      var before, after := states[k - 1].drv, states[k].drv;
      var e := events[k - 1];
      JobProgress(sys, states, events, b, k - 1);
      if after.job.value.allApplied {
        JobStepForward(sys, states[k - 1], e);
        forall p | 0 <= p < after.job.value.port && p < |sys.hasIds| && sys.hasIds[p]
          ensures PortLetGo(states, events, b, k, p, after.job.value.stamp)
        {
          if p == before.job.value.port {
            var b' := JobHasABeginning(sys, states, events, k - 1);
            assert states[b'].drv.job.None? by { assert Enabled(sys, states[b'], events[b']); }
            assert states[b].drv.job.None? by { assert Enabled(sys, states[b], events[b]); }
            BeginningIsUnique(states, events, b, b', k - 1);
            var h := HeardMeansLetGo(sys, states, events, b, k - 1);
          }
          LetGoStays(states, events, b, k - 1, p, after.job.value.stamp);
        }
      }
    }
  }

  /** A port with servos is passed, with everything still applied, only on a good answer. */
  lemma JobStepForward(sys: System, s: State, e: Event)
    requires Enabled(sys, s, e) && s.drv.job.Some?
    requires var d := Step(sys, s, e).drv; d.job.Some? && d.job.value.allApplied
    ensures var j, j' := s.drv.job.value, Step(sys, s, e).drv.job.value;
            && j.allApplied && j.port <= j'.port <= j.port + 1 && j'.stamp == j.stamp
            && (j'.port == j.port + 1 && j.port < |sys.hasIds| && sys.hasIds[j.port] ==>
                  e == AtDrivers(RouterHeard(PortAnswered(true))))
  {
    hide ManagerStep, ManagerSends, DriverSends;
  }

  lemma LetGoStays(states: seq<State>, events: seq<Event>, b: nat, k: nat, p: nat, stamp: int)
    requires |states| == |events| + 1 && k + 1 < |states| && PortLetGo(states, events, b, k, p, stamp)
    ensures PortLetGo(states, events, b, k + 1, p, stamp)
  {}

  /** A good answer to the call the router waits for was given during this release, by the port it called. */
  lemma HeardMeansLetGo(sys: System, states: seq<State>, events: seq<Event>, b: nat, k: nat) returns (h: nat)
    requires Run(sys, states, events) && k < |events| && b < k
    requires states[k].drv.job.Some? && states[k].drv.job.value.waiting.Some?
    requires events[k] == AtDrivers(RouterHeard(PortAnswered(true)))
    requires var j := states[k].drv.job.value;
             states[b].drv.calls <= j.waiting.value && (j.port, j.stamp, j.waiting.value) in states[k].net.portRequests
    ensures b < h < k && events[h].AtDrivers? && events[h].d.PortRelease?
    ensures var j, d := states[k].drv.job.value, events[h].d;
            && d.port == j.port && d.stamp == j.stamp && d.call == j.waiting.value
            && d.port < |states[h + 1].drv.ports| && !states[h + 1].drv.ports[d.port].latched
    ensures PortLetGo(states, events, b, k, states[k].drv.job.value.port, states[k].drv.job.value.stamp)
  {
    var j := states[k].drv.job.value;
    var call := j.waiting.value;
    h := AnswerHasAPort(sys, states, events, k, call, true);
    var asked := (events[h].d.port, events[h].d.stamp, call);
    CallsAreUnique(sys, states, events, h, asked, asked);
    if h <= b {
      ClockGrows(sys, states, events, h, b);
      assert false;
    }
    RequestsStay(sys, states, events, asked, h, k);
    CallsAreUnique(sys, states, events, k, asked, (j.port, j.stamp, call));
  }

  /** A router release that began at event `b` and is decided at event `k`.  It succeeds only if every port with servos
      answered unlatched during the release and the router is unlatched too.  No move is forwarded in between.  When it
      fails, latched stays latched and the fence is unchanged; the whole latch is unchanged unless every port answered
      and the stamp was newer than the last authority but not than the fence. */
  lemma RouterReleaseIsAllOrNothing(sys: System, states: seq<State>, events: seq<Event>, k: nat) returns (b: nat)
    requires Run(sys, states, events) && k < |events| && events[k].AtDrivers? && events[k].d.RouterDecide?
    ensures JobBegan(states, events, b, k)
    ensures forall x | b <= x <= k :: !(events[x].AtDrivers? && events[x].d.RouterMove?)
    ensures DecidedWell(states[k].drv, events[k].d.now) ==>
              && !states[k + 1].drv.router.latched
              && forall p | 0 <= p < |sys.hasIds| && sys.hasIds[p] ::
                   PortLetGo(states, events, b, k, p, states[k].drv.job.value.stamp)
    ensures !DecidedWell(states[k].drv, events[k].d.now) ==>
              var l, l' := states[b].drv.router, states[k + 1].drv.router;
              && l'.latched == l.latched && l'.fence == l.fence
              && (l' == l <==> !(states[k].drv.job.value.allApplied
                                 && l.lastAuthority < states[k].drv.job.value.stamp <= l.fence))
  {
    b := JobHasABeginning(sys, states, events, k);
    JobProgress(sys, states, events, b, k);
    StampsArePositive(sys, states, events, k);
    hide ManagerStep, NoticeOf, MoveOf, PortLetGo;
    forall x | b <= x <= k ensures !(events[x].AtDrivers? && events[x].d.RouterMove?) {
      assert Enabled(sys, states[x], events[x]);
    }
  }

  // ---------------------------------------------------------------- the authoritative false

  lemma {:induction false} ReplyHasADecision(
      sys: System, states: seq<State>, events: seq<Event>, k: nat, stamp: int, ok: bool) returns (r: nat)
    requires Run(sys, states, events) && k < |states| && (stamp, ok) in states[k].net.replies
    ensures r < k && events[r].AtDrivers? && events[r].d.RouterDecide?
    ensures states[r].drv.job.Some? && states[r].drv.job.value.stamp == stamp
    ensures ok <==> DecidedWell(states[r].drv, events[r].d.now)
  {
    hide ManagerStep, NoticeOf, MoveOf;
    if (stamp, ok) in states[k - 1].net.replies {
      r := ReplyHasADecision(sys, states, events, k - 1, stamp, ok);
    } else {
      r := k - 1;
    }
  }

  /** Event `r` decided, successfully, a router release with this stamp that began at event `b`: every port with servos
      answered it unlatched in between, and the router let go too. */
  ghost predicate Acknowledged(
      sys: System, states: seq<State>, events: seq<Event>, b: nat, r: nat, stamp: int)
    requires |states| == |events| + 1 && r < |events|
  {
    && events[r].AtDrivers? && events[r].d.RouterDecide? && JobBegan(states, events, b, r)
    && states[r].drv.job.value.stamp == stamp && !states[r + 1].drv.router.latched
    && forall p | 0 <= p < |sys.hasIds| && sys.hasIds[p] :: PortLetGo(states, events, b, r, p, stamp)
  }

  /** A manager's release region is entered only for an acknowledged release. */
  lemma ReleaseWasAcknowledged(sys: System, states: seq<State>, events: seq<Event>, e: nat) returns (b: nat, r: nat)
    requires Run(sys, states, events) && e < |events| && events[e].AtManager? && events[e].m.Release?
    ensures events[e].m.op in states[e].mgr.running && states[e].mgr.running[events[e].m.op].phase.Releasing?
    ensures b < r < e && Acknowledged(sys, states, events, b, r, states[e].mgr.running[events[e].m.op].phase.stamp)
  {
    RunKeepsInv(sys, states, events, e);
    var op := events[e].m.op;
    var stamp := states[e].mgr.running[op].phase.stamp;
    assert (stamp, true) in states[e].net.replies;
    r := ReplyHasADecision(sys, states, events, e, stamp, true);
    b := RouterReleaseIsAllOrNothing(sys, states, events, r);
    hide ManagerStep, DriverStep, PortLetGo;
  }

  /** Every authoritative false after the startup one is published at some event `e` whose region leaves no stop token,
      no fault and no e-stop, and carries the stamp of a release acknowledged between earlier events `b` and `r`. */
  lemma AuthoritativeFalseIsAcknowledged(
      sys: System, states: seq<State>, events: seq<Event>, k: nat, stamp: int) returns (b: nat, r: nat, e: nat)
    requires Run(sys, states, events) && k < |states| && Notice(false, stamp) in states[k].net.notices
    requires stamp != StartupStamp(states[0].mgr.now)
    ensures b < r < e < k && PublishesNotice(sys, states[e], events[e], Notice(false, stamp))
    ensures var after := states[e + 1].mgr.books;
            after.active == {} && after.fault.None? && !after.arb.estop
    ensures Acknowledged(sys, states, events, b, r, stamp)
  {
    e := NoticeHasAPublisher(sys, states, events, k, Notice(false, stamp));
    RunKeepsInv(sys, states, events, e);
    b, r := ReleaseWasAcknowledged(sys, states, events, e);
    PublishedReleaseIsQuiet(sys.config, states[e].mgr, states[e].net, events[e].m);
    hide Acknowledged, PublishesRelease;
  }

  lemma PublishedReleaseIsQuiet(c: Config, m: Manager, net: Net, e: ManagerEvent)
    requires ManagerEnabled(m, net, e) && ManagerInv(m, net) && e.Release? && NoticeOf(c, m, net, e).Some?
    ensures var b := ManagerStep(c, m, net, e).books; b.active == {} && b.fault.None? && !b.arb.estop
  {
    hide Refreshed, TaskExpired, Remembered;
  }

  // ---------------------------------------------------------------- how tokens and the e-stop go, over runs

  /** A token that was held and is gone went at some event `e` in between: either its operation dropped it quietly,
      while another stop, a fault or the e-stop was there, or a release for it was acknowledged. */
  lemma {:induction false} TokenWasReleasedOrDropped(
      sys: System, states: seq<State>, events: seq<Event>, i: nat, j: nat, op: nat) returns (e: nat)
    requires Run(sys, states, events) && i <= j < |states|
    requires op in states[i].mgr.books.active && op !in states[j].mgr.books.active
    ensures i <= e < j && events[e].AtManager? && op in states[e].mgr.books.active
    ensures DropsQuietly(sys.config, states[e].mgr, events[e].m, op)
         || (events[e].m.Release? && events[e].m.op == op && op in states[e].mgr.running
             && states[e].mgr.running[op].phase.Releasing?
             && exists b, r :: 0 <= b < r < e
                 && Acknowledged(sys, states, events, b, r, states[e].mgr.running[op].phase.stamp))
    decreases j
  {
    hide ManagerStep, DriverStep, DropsQuietly, Acknowledged;
    if op in states[j - 1].mgr.books.active {
      e := j - 1;
      RunKeepsInv(sys, states, events, e);
      if events[e].AtManager? {
        TokenGoesExactlyWhen(sys.config, states[e].mgr, states[e].net, events[e].m, op);
        if events[e].m.Release? {
          var b, r := ReleaseWasAcknowledged(sys, states, events, e);
        }
      }
    } else {
      e := TokenWasReleasedOrDropped(sys, states, events, i, j - 1, op);
    }
  }

  /** An e-stop that was on and is off went off at some event `e` in between, at the end of an e-stop release that was
      acknowledged between events `b` and `r`. */
  lemma {:induction false} EstopWasReleased(sys: System, states: seq<State>, events: seq<Event>, i: nat, j: nat)
    returns (b: nat, r: nat, e: nat)
    requires Run(sys, states, events) && i <= j < |states|
    requires states[i].mgr.books.arb.estop && !states[j].mgr.books.arb.estop
    ensures i <= e < j && b < r < e && events[e].AtManager? && events[e].m.Release?
    ensures var running, op := states[e].mgr.running, events[e].m.op;
            && op in running && running[op].origin == ReleaseCallback && running[op].phase.Releasing?
            && Acknowledged(sys, states, events, b, r, running[op].phase.stamp)
    decreases j
  {
    hide ManagerStep, DriverStep, Acknowledged;
    if states[j - 1].mgr.books.arb.estop {
      e := j - 1;
      RunKeepsInv(sys, states, events, e);
      EstopGoesExactlyWhen(sys.config, states[e].mgr, states[e].net, events[e].m);
      b, r := ReleaseWasAcknowledged(sys, states, events, e);
    } else {
      b, r, e := EstopWasReleased(sys, states, events, i, j - 1);
    }
  }

  /** A driver that heard an active notice is not unlatched by any release whose stamp is not newer. */
  lemma OldReleaseCannotUnlatch(
      sys: System, states: seq<State>, events: seq<Event>, who: Driver, n: nat, r: nat, s: int, stamp: int)
    requires Run(sys, states, events) && n < r < |events|
    requires Hears(events[n], who, Notice(true, s)) && HearsRelease(states[r], events[r], who, stamp) && stamp <= s
    ensures HasDriver(states[r].drv, who) && HasDriver(states[r + 1].drv, who)
    ensures LatchOf(states[r].drv, who).latched ==> LatchOf(states[r + 1].drv, who).latched
    ensures LatchOf(states[n + 1].drv, who).latched
  {
    var q := NoticeHasAPublisher(sys, states, events, n, Notice(true, s));
    ActiveNoticeIsAStop(sys, states, events, q, s);
    FenceAfterNotice(sys, states, events, who, n, s);
    FenceGrows(sys, states, events, who, n + 1, r);
    hide ManagerStep, NoticeOf, MoveOf;
  }

  /** From an active notice with stamp `s` on, a driver stays latched for as long as every release it hears has a stamp
      of at most `s`. */
  lemma {:induction false} LatchedUntilANewerRelease(
      sys: System, states: seq<State>, events: seq<Event>, who: Driver, n: nat, k: nat, s: int)
    requires Run(sys, states, events) && n < k < |states| && Hears(events[n], who, Notice(true, s))
    requires forall r, stamp | n < r < k && HearsRelease(states[r], events[r], who, stamp) :: stamp <= s
    ensures HasDriver(states[k].drv, who) && LatchOf(states[k].drv, who).latched
    decreases k
  {
    var r := k - 1;
    if r == n {
      hide ManagerStep, NoticeOf, MoveOf;
    } else {
      LatchedUntilANewerRelease(sys, states, events, who, n, r, s);
      UnlatchingNeedsARelease(sys, states[r], events[r], who);
      forall stamp | HearsRelease(states[r], events[r], who, stamp) ensures LatchOf(states[k].drv, who).latched {
        OldReleaseCannotUnlatch(sys, states, events, who, n, r, s, stamp);
      }
    }
  }

  lemma UnlatchingNeedsARelease(sys: System, s: State, e: Event, who: Driver)
    requires Enabled(sys, s, e) && HasDriver(s.drv, who) && LatchOf(s.drv, who).latched
    ensures HasDriver(Step(sys, s, e).drv, who)
    ensures !LatchOf(Step(sys, s, e).drv, who).latched ==> exists stamp :: HearsRelease(s, e, who, stamp)
  {
    hide ManagerStep, NoticeOf, MoveOf;
    if e.AtDrivers? && !LatchOf(Step(sys, s, e).drv, who).latched {
      assert HearsRelease(s, e, who,
        match e.d
        case RouterNotice(heard, _) => heard.stamp
        case RouterDecide(_) => s.drv.job.value.stamp
        case PortNotice(_, heard, _) => heard.stamp
        case PortRelease(_, asked, _, _) => asked
        case _ => 0);
    }
  }
}
