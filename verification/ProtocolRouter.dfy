/** The router and port driver objects: how each handler uses its latch while it holds its command lock. */
module ProtocolRouter {
  import opened Options
  import opened SafetyLatch

  class BusPortDriver {
    const latch: DriverSafetyLatch

    constructor ()
      ensures fresh(latch) && latch.Valid() && latch.Value() == INITIAL
    {
      latch := new DriverSafetyLatch();
    }

    method HandleDriverSafety(active: bool, stamp: int, now: int) returns (success: bool)
      requires latch.Valid()
      modifies latch
      ensures latch.Valid() && latch.Value() == Observed(old(latch.Value()), active, stamp, now)
      ensures success <==> latch.latched == active
      ensures success && !active ==>
                old(!latch.latched) || (stamp > old(latch.fenceNs) && stamp > old(latch.lastAuthorityNs))
    {
      var changed := latch.ObserveAuthority(active, stamp, now);
      success := latch.latched == active;
    }

    /** A forwarded move: executed when the port's own latch admits it. */
    method OnMove(stamp: int) returns (executed: bool)
      requires latch.Valid()
      modifies latch
      ensures latch.Valid() && latch.Value() == old(latch.Value())
      ensures executed <==> Admits(latch.Value(), stamp)
    {
      executed := latch.Admit(stamp, false, 0);
    }
  }

  /** How a call to a port ends: the service is missing, nothing is heard in time (applied or not), or it answers. */
  datatype PortCall = NotReady | Silent(applied: bool) | Replied

  /** Where a move goes: the port of its servo, and the topic of the servo's protocol there. */
  datatype Route = Route(port: nat, protocol: string)

  class BusProtocolRouter {
    const latch: DriverSafetyLatch
    const ports: seq<BusPortDriver>
    const hasIds: seq<bool>
    const idToPort: map<int, nat>
    const routes: set<Route>

    ghost predicate Valid()
      reads latch, set p | p in ports :: p.latch
    {
      && |hasIds| == |ports|
      && latch.Valid()
      && (forall p | 0 <= p < |ports| :: ports[p].latch.Valid() && ports[p].latch != latch)
      && (forall p, q | 0 <= p < q < |ports| :: ports[p].latch != ports[q].latch)
    }

    constructor (ports: seq<BusPortDriver>, hasIds: seq<bool>, idToPort: map<int, nat>, routes: set<Route>)
      requires |hasIds| == |ports|
      requires forall p | 0 <= p < |ports| :: ports[p].latch.Valid()
      requires forall p, q | 0 <= p < q < |ports| :: ports[p].latch != ports[q].latch
      ensures Valid() && this.ports == ports && this.hasIds == hasIds && latch.Value() == INITIAL
      ensures this.idToPort == idToPort && this.routes == routes
    {
      latch := new DriverSafetyLatch();
      this.ports, this.hasIds, this.idToPort, this.routes := ports, hasIds, idToPort, routes;
    }

    method OnDriverSafety(active: bool, stamp: int, now: int)
      requires Valid()
      modifies latch
      ensures Valid() && latch.Value() == Observed(old(latch.Value()), active, stamp, now)
    {
      var changed := latch.ObserveAuthority(active, stamp, now);
    }

    /** A move for a servo whose protocol, if known, is `protocol`.  It is sent on when it is a bus command, its servo
        is mapped, its protocol known and routed, and the latch admits it. */
    method OnCommand(isBus: bool, servo: int, protocol: Option<string>, stamp: int) returns (sent: Option<Route>)
      requires Valid()
      modifies latch
      ensures Valid() && latch.Value() == old(latch.Value())
      ensures sent.Some? <==>
                && isBus && servo in idToPort && protocol.Some? && Admits(latch.Value(), stamp)
                && Route(idToPort[servo], protocol.value) in routes
      ensures sent.Some? ==> sent == Some(Route(idToPort[servo], protocol.value))
    {
      if !isBus || servo !in idToPort || protocol.None? {
        return None;
      }
      var admitted := latch.Admit(stamp, false, 0);
      if !admitted {
        return None;
      }
      var route := Route(idToPort[servo], protocol.value);
      return if route in routes then Some(route) else None;
    }

    /** Ask one port, which may answer, apply the state without being heard, or not be reached at all. */
    method CallDriverSafety(p: nat, active: bool, stamp: int, now: int, call: PortCall) returns (ok: bool)
      requires Valid() && p < |ports|
      modifies ports[p].latch
      ensures Valid()
      ensures ok ==> call.Replied? && ports[p].latch.latched == active
      ensures call.Replied? && ports[p].latch.latched == active ==> ok
      ensures ports[p].latch.Value() ==
                (if call.Replied? || (call.Silent? && call.applied)
                 then Observed(old(ports[p].latch.Value()), active, stamp, now) else old(ports[p].latch.Value()))
    {
      if call == NotReady {
        return false;
      }
      var answer := false;
      if call.Replied? || call.applied {
        answer := ports[p].HandleDriverSafety(active, stamp, now);
      }
      ok := call.Replied? && answer;
    }

    /** A release unlatches the router last, and only when every port with servos answered unlatched; a stop latches the
        router first.  Every such port is called even after one of them failed. */
    method HandleDriverSafety(active: bool, stamp: int, now: int, calls: seq<PortCall>) returns (success: bool)
      requires Valid() && |calls| == |ports|
      modifies latch, set p | p in ports :: p.latch
      ensures Valid()
      ensures success <==>
                && (forall p | 0 <= p < |ports| && hasIds[p] :: calls[p].Replied? && ports[p].latch.latched == active)
                && latch.latched == active
      ensures active ==> latch.Value() == Observed(old(latch.Value()), true, stamp, now)
      ensures !active && !success ==> latch.latched == old(latch.latched) && latch.fenceNs == old(latch.fenceNs)
      ensures !active && (exists p :: 0 <= p < |ports| && hasIds[p]
                            && !(calls[p].Replied? && !ports[p].latch.latched)) ==>
                latch.Value() == old(latch.Value())
      ensures forall p | 0 <= p < |ports| ::
                ports[p].latch.Value() ==
                  (if hasIds[p] && (calls[p].Replied? || (calls[p].Silent? && calls[p].applied))
                   then Observed(old(ports[p].latch.Value()), active, stamp, now) else old(ports[p].latch.Value()))
    {
      hide Replay;
      if active {
        var changed := latch.ObserveAuthority(true, stamp, now);
      }
      ghost var router := latch.Value();
      var allApplied := true;
      var p := 0;
      while p < |ports|
        invariant 0 <= p <= |ports| && Valid() && latch.Value() == router
        invariant allApplied <==>
                    forall q | 0 <= q < p && hasIds[q] :: calls[q].Replied? && ports[q].latch.latched == active
        invariant forall q | 0 <= q < p ::
                    ports[q].latch.Value() ==
                      (if hasIds[q] && (calls[q].Replied? || (calls[q].Silent? && calls[q].applied))
                       then Observed(old(ports[q].latch.Value()), active, stamp, now) else old(ports[q].latch.Value()))
        invariant forall q | p <= q < |ports| :: ports[q].latch.Value() == old(ports[q].latch.Value())
      {
        if hasIds[p] {
          var ok := CallDriverSafety(p, active, stamp, now, calls[p]);
          allApplied := allApplied && ok;
        }
        p := p + 1;
      }
      if allApplied && !active {
        var changed := latch.ObserveAuthority(false, stamp, now);
      }
      success := allApplied && latch.latched == active;
    }
  }
}
