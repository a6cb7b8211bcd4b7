/** Bounded replay memory: "the last N keys that were recorded".

    The arbitrator evicts before it inserts and the scene gate inserts before it evicts; both are proved to keep
    `LastN` of everything ever recorded, next to a set that agrees with it. */
module ReplayMemory {

  /** The last `n` elements of `s`, or all of them when there are fewer. */
  function LastN<T>(s: seq<T>, n: nat): seq<T> {
    if |s| <= n then s else s[|s| - n..]
  }

  ghost predicate Distinct<T>(s: seq<T>) {
    forall i, j | 0 <= i < j < |s| :: s[i] != s[j]
  }

  /** A queue and a set that remember the same keys. */
  ghost predicate Agrees<T>(queue: seq<T>, keys: set<T>, limit: nat, recorded: seq<T>) {
    && Distinct(queue)
    && (forall k | k in keys :: k in queue)
    && (forall k | k in queue :: k in keys)
    && queue == LastN(recorded, limit)
  }

  /** Recording a new key when the oldest one is dropped only from a full memory. */
  lemma PushKeepsLastN<T>(queue: seq<T>, keys: set<T>, limit: nat, recorded: seq<T>, key: T)
    requires limit > 0 && Agrees(queue, keys, limit, recorded) && key !in keys
    ensures |queue| < limit ==> Agrees(queue + [key], keys + {key}, limit, recorded + [key])
    ensures |queue| >= limit ==>
              queue != [] && Agrees(queue[1..] + [key], keys - {queue[0]} + {key}, limit, recorded + [key])
  {
    if |queue| < limit {
      assert queue == recorded;
    } else {
      assert queue[1..] + [key] == LastN(recorded + [key], limit);
      hide LastN;
      ShiftKeepsKeys(queue, keys, key);
    }
  }

  lemma ShiftKeepsKeys<T>(queue: seq<T>, keys: set<T>, key: T)
    requires queue != [] && Distinct(queue) && key !in keys
    requires (forall k | k in keys :: k in queue) && (forall k | k in queue :: k in keys)
    ensures Distinct(queue[1..] + [key])
    ensures forall k | k in keys - {queue[0]} + {key} :: k in queue[1..] + [key]
    ensures forall k | k in queue[1..] + [key] :: k in keys - {queue[0]} + {key}
  {
    assert queue == [queue[0]] + queue[1..];
    forall k | k in queue[1..] ensures k in keys && k != queue[0] {
      var i :| 0 <= i < |queue| - 1 && queue[1..][i] == k;
      assert queue[i + 1] == k;
    }
    forall k | k in keys && k != queue[0] ensures k in queue[1..] {
      assert k in queue;
    }
  }

  /** The last `n` of a longer record still contain a key recorded fewer than `n` entries from its end. */
  lemma RecentKeyIsKept<T>(recorded: seq<T>, n: nat, i: nat)
    requires i < |recorded| && |recorded| - i <= n
    ensures recorded[i] in LastN(recorded, n)
  {
    if |recorded| > n {
      assert LastN(recorded, n)[i - (|recorded| - n)] == recorded[i];
    }
  }
}
