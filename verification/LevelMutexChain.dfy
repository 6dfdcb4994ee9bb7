/** The mutexes of the level-mutex discipline, the chains that their `previous` pointers form, and the check that a
    chain is a list: a two-speed search for a cycle, then a scan of the levels. */
module LevelMutexChain {
  import opened Common

  const UNLOCKED_LEVEL: nat := 0xFFFF_FFFF

  class LevelMutexInfo {
    const level: nat
    /** The pointer to this mutex, as a number. */
    const address: nat
    var count: nat
    var previous: LevelMutexInfo?

    constructor (l: nat, a: nat)
      requires l < UNLOCKED_LEVEL
      ensures level == l && address == a && count == 0 && previous == null
    {
      level, address, count, previous := l, a, 0, null;
    }
  }

  /** A finite pointer structure, of any shape. */
  ghost predicate Closed(nodes: set<LevelMutexInfo>)
    reads nodes
  {
    forall m | m in nodes :: m.previous == null || m.previous in nodes
  }

  ghost predicate Within(m: LevelMutexInfo?, nodes: set<LevelMutexInfo>) { m == null || m in nodes }

  /** The mutex `k` steps before `m`. */
  ghost function Nth(m: LevelMutexInfo?, k: nat, nodes: set<LevelMutexInfo>): (r: LevelMutexInfo?)
    requires Closed(nodes) && Within(m, nodes)
    reads nodes
    ensures Within(r, nodes)
  {
    if k == 0 then m
    else
      var n := Nth(m, k - 1, nodes);
      if n == null then null else n.previous
  }

  /** The chain from `m` comes to an end. */
  ghost predicate Ends(m: LevelMutexInfo?, nodes: set<LevelMutexInfo>)
    requires Closed(nodes) && Within(m, nodes)
    reads nodes
  {
    exists k :: 0 <= k && Nth(m, k, nodes) == null
  }

  /** The lock after `k` steps has no lower level than the one before it. */
  ghost predicate RisesAt(m: LevelMutexInfo?, k: nat, nodes: set<LevelMutexInfo>)
    requires Closed(nodes) && Within(m, nodes)
    reads nodes
  {
    var n, o := Nth(m, k, nodes), Nth(m, k + 1, nodes);
    n != null && o != null ==> n.level <= o.level
  }

  /** Once ended, a chain stays ended. */
  lemma {:induction false} StaysNull(m: LevelMutexInfo?, j: nat, k: nat, nodes: set<LevelMutexInfo>)
    requires Closed(nodes) && Within(m, nodes) && j <= k && Nth(m, j, nodes) == null
    ensures Nth(m, k, nodes) == null
    decreases k
  {
    if j < k {
      StaysNull(m, j, k - 1, nodes);
    }
  }

  /** From equal places on a chain repeats itself. */
  lemma {:induction false} Repeats(m: LevelMutexInfo?, i: nat, j: nat, d: nat, nodes: set<LevelMutexInfo>)
    requires Closed(nodes) && Within(m, nodes) && Nth(m, i, nodes) == Nth(m, j, nodes)
    ensures Nth(m, i + d, nodes) == Nth(m, j + d, nodes)
    decreases d
  {
    if d > 0 {
      Repeats(m, i, j, d - 1, nodes);
    }
  }

  /** A chain that meets itself never ends. */
  lemma {:induction false} MeetingNeverEnds(m: LevelMutexInfo?, i: nat, j: nat, k: nat, nodes: set<LevelMutexInfo>)
    requires Closed(nodes) && Within(m, nodes) && i < j && Nth(m, i, nodes) == Nth(m, j, nodes) != null
    ensures Nth(m, k, nodes) != null
    decreases k
  {
    if Nth(m, k, nodes) == null {
      if k <= j {
        StaysNull(m, k, j, nodes);
      } else {
        Repeats(m, i, j, k - j, nodes);
        MeetingNeverEnds(m, i, j, i + (k - j), nodes);
      }
    }
  }

  /** On a cycle of length `p` every multiple of `p` steps leads back. */
  lemma {:induction false} GoesRound(m: LevelMutexInfo?, i: nat, p: nat, c: nat, k: nat, nodes: set<LevelMutexInfo>)
    requires Closed(nodes) && Within(m, nodes) && i <= k && Nth(m, i, nodes) == Nth(m, i + p, nodes)
    ensures c * p >= 0 && Nth(m, k + c * p, nodes) == Nth(m, k, nodes)
    decreases c
  {
    if c > 0 {
      GoesRound(m, i, p, c - 1, k, nodes);
      assert c * p == (c - 1) * p + p;
      Repeats(m, i, i + p, k - i + (c - 1) * p, nodes);
    }
  }

  // ---------------------------------------------------------------- a finite chain ends or meets itself

  /** Some place before the `k`th on the chain is `n`. */
  ghost predicate Visits(m: LevelMutexInfo?, k: nat, nodes: set<LevelMutexInfo>, n: LevelMutexInfo)
    requires Closed(nodes) && Within(m, nodes)
    reads nodes
  {
    exists j :: 0 <= j < k && Nth(m, j, nodes) == n
  }

  /** The first `k` places on a chain are different mutexes, or two of them are the same. */
  lemma {:induction false} DifferentOrMeeting(m: LevelMutexInfo?, k: nat, nodes: set<LevelMutexInfo>)
    returns (i: nat, j: nat, seen: set<LevelMutexInfo>)
    requires Closed(nodes) && Within(m, nodes) && (k > 0 ==> Nth(m, k - 1, nodes) != null)
    ensures i < j ==> Nth(m, i, nodes) == Nth(m, j, nodes) != null
    ensures i >= j ==> |seen| == k && seen <= nodes && forall n | n in seen :: Visits(m, k, nodes, n)
    decreases k
  {
    i, j, seen := 0, 0, {};
    if k > 0 {
      i, j, seen := DifferentOrMeeting(m, k - 1, nodes);
      if i >= j {
        var n := Nth(m, k - 1, nodes);
        if n in seen {
          assert Visits(m, k - 1, nodes, n);
          i :| 0 <= i < k - 1 && Nth(m, i, nodes) == n;
          j := k - 1;
        } else {
          forall o | o in seen + {n}
            ensures Visits(m, k, nodes, o)
          {
            assert o == n || Visits(m, k - 1, nodes, o);
          }
          seen := seen + {n};
        }
      }
    }
  }

  lemma EndsOrMeets(m: LevelMutexInfo?, nodes: set<LevelMutexInfo>) returns (i: nat, j: nat)
    requires Closed(nodes) && Within(m, nodes) && !Ends(m, nodes)
    ensures i < j && Nth(m, i, nodes) == Nth(m, j, nodes) != null
  {
    assert Nth(m, |nodes|, nodes) != null;
    var seen;
    i, j, seen := DifferentOrMeeting(m, |nodes| + 1, nodes);
    if i >= j {
      SubsetSize(seen, nodes);
      assert false;
    }
  }

  /** How far the slow pointer can get: to the end of the chain, or to a place where the fast one has come round. */
  lemma SlowBound(m: LevelMutexInfo?, nodes: set<LevelMutexInfo>) returns (bound: nat)
    requires Closed(nodes) && Within(m, nodes)
    ensures Ends(m, nodes) ==> Nth(m, bound, nodes) == null
    ensures !Ends(m, nodes) ==> Nth(m, 2 * bound + 1, nodes) == Nth(m, bound, nodes)
  {
    if Ends(m, nodes) {
      bound :| 0 <= bound && Nth(m, bound, nodes) == null;
    } else {
      var i, j := EndsOrMeets(m, nodes);
      bound := RoundPlace(m, i, j - i, nodes);
    }
  }

  lemma RoundPlace(m: LevelMutexInfo?, i: nat, p: nat, nodes: set<LevelMutexInfo>) returns (k: nat)
    requires Closed(nodes) && Within(m, nodes) && 0 < p && Nth(m, i, nodes) == Nth(m, i + p, nodes)
    ensures Nth(m, 2 * k + 1, nodes) == Nth(m, k, nodes)
  {
    var c := i + 1;
    assert c * p >= c;
    k := c * p - 1;
    GoesRound(m, i, p, c, k, nodes);
    assert k + c * p == 2 * k + 1;
  }

  // ---------------------------------------------------------------- the check

  /** True exactly if the chain from the current mutex ends and levels never fall toward older locks. */
  method IsValidList(current: LevelMutexInfo?, ghost nodes: set<LevelMutexInfo>) returns (valid: bool)
    requires Closed(nodes) && Within(current, nodes)
    ensures valid <==> Ends(current, nodes) && forall k :: 0 <= k ==> RisesAt(current, k, nodes)
  {
    if current == null {
      assert Nth(current, 0, nodes) == null;
      forall k | 0 <= k
        ensures RisesAt(current, k, nodes)
      {
        StaysNull(current, 0, k, nodes);
      }
      return true;
    }
    var ends := ChainEnds(current, nodes);
    if !ends {
      return false;
    }
    valid := LevelsRise(current, nodes);
  }

  /** The first loop: `slow` takes one step for two of `fast`, and a cycle brings them together. */
  method ChainEnds(current: LevelMutexInfo, ghost nodes: set<LevelMutexInfo>) returns (ends: bool)
    requires Closed(nodes) && current in nodes
    ensures ends <==> Ends(current, nodes)
  {
    ghost var bound := SlowBound(current, nodes);
    ghost var k := 0;
    var slow: LevelMutexInfo?, fast: LevelMutexInfo? := current, current;
    while fast != null
      invariant 0 <= k && slow == Nth(current, k, nodes) != null && fast == Nth(current, 2 * k, nodes)
      invariant k <= bound
      decreases bound - k
    {
      fast := fast.previous;
      assert fast == Nth(current, 2 * k + 1, nodes);
      if slow == fast {
        NeverEnds(current, k, 2 * k + 1, nodes);
        return false;
      }
      if fast == null {
        break;
      }
      fast := fast.previous;
      assert fast == Nth(current, 2 * k + 2, nodes);
      if slow == fast {
        NeverEnds(current, k, 2 * k + 2, nodes);
        return false;
      }
      if fast == null {
        break;
      }
      if Nth(current, k + 1, nodes) == null {
        StaysNull(current, k + 1, 2 * k + 2, nodes);
      }
      slow := slow.previous;
      k := k + 1;
      if slow == null {
        break;
      }
    }
    return true;
  }

  lemma NeverEnds(m: LevelMutexInfo?, i: nat, j: nat, nodes: set<LevelMutexInfo>)
    requires Closed(nodes) && Within(m, nodes) && i < j && Nth(m, i, nodes) == Nth(m, j, nodes) != null
    ensures !Ends(m, nodes)
  {
    forall k | 0 <= k
      ensures Nth(m, k, nodes) != null
    {
      MeetingNeverEnds(m, i, j, k, nodes);
    }
  }

  /** The second loop. */
  method LevelsRise(current: LevelMutexInfo, ghost nodes: set<LevelMutexInfo>) returns (rise: bool)
    requires Closed(nodes) && current in nodes && Ends(current, nodes)
    ensures rise <==> forall k :: 0 <= k ==> RisesAt(current, k, nodes)
  {
    ghost var end :| 0 <= end && Nth(current, end, nodes) == null;
    var mutex: LevelMutexInfo?, level := current, current.level;
    ghost var k := 0;
    while mutex != null
      invariant 0 <= k <= end && mutex == Nth(current, k, nodes)
      invariant if k == 0 then level == current.level else
                  Nth(current, k - 1, nodes) != null && level == Nth(current, k - 1, nodes).level
      invariant forall j :: 0 <= j < k - 1 ==> RisesAt(current, j, nodes)
      decreases end - k
    {
      if level > mutex.level {
        assert !RisesAt(current, k - 1, nodes);
        return false;
      }
      assert k > 0 ==> RisesAt(current, k - 1, nodes);
      if k == end {
        assert false;
      }
      level := mutex.level;
      mutex := mutex.previous;
      k := k + 1;
    }
    forall j | 0 <= j
      ensures RisesAt(current, j, nodes)
    {
      if j >= k - 1 {
        StaysNull(current, k, j + 1, nodes);
      }
    }
    return true;
  }
}
