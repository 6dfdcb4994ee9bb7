/** Deadlock freedom of the level-mutex discipline: any number of threads, each of which locks one mutex, or several of
    one level in the order of their addresses, below its current level. */
module LevelMutexDeadlock {
  import opened LevelMutexChain

  datatype Mutex = Mutex(level: nat, address: nat)

  /** `held` is the list of a thread, newest first. `plan` is what is left of the sorted container of a lock call, of
      which `taken` mutexes are locked already; a thread with a plan is blocked until it gets `plan[0]`. */
  datatype Thread = Thread(held: seq<Mutex>, plan: seq<Mutex>, taken: nat)

  type System = map<nat, Thread>

  datatype Move =
    /** The checks of a lock call pass: `PreLockCheck` finds no problem, or `MultiLock` has sorted its container. */
    | Ask(t: nat, wanted: seq<Mutex>)
    | Acquire(t: nat)
    /** The base lock fails or times out, and what the call had locked is undone. */
    | GiveUp(t: nat)
    /** The newest mutex is unlocked for the last time. */
    | Release(t: nat)

  function CurrentLevel(held: seq<Mutex>): nat { if held == [] then UNLOCKED_LEVEL else held[0].level }

  /** Must `a` be locked after `b`? */
  predicate Above(a: Mutex, b: Mutex) { a.level < b.level || (a.level == b.level && a.address > b.address) }

  predicate Climbs(ms: seq<Mutex>) { forall i, j | 0 <= i < j < |ms| :: Above(ms[j], ms[i]) }

  predicate Descends(ms: seq<Mutex>) { forall i, j | 0 <= i < j < |ms| :: Above(ms[i], ms[j]) }

  ghost predicate IsFree(s: System, m: Mutex) { forall u | u in s :: m !in s[u].held }

  ghost predicate Step(s: System, move: Move, s': System) {
    move.t in s &&
    var th := s[move.t];
    match move
    case Ask(t, wanted) =>
      && th.plan == [] && wanted != [] && Climbs(wanted)
      && (forall i | 0 <= i < |wanted| :: wanted[i].level == wanted[0].level)
      && wanted[0].level < CurrentLevel(th.held)
      && s' == s[t := Thread(th.held, wanted, 0)]
    case Acquire(t) =>
      && th.plan != [] && IsFree(s, th.plan[0])
      && s' == s[t := Thread([th.plan[0]] + th.held, th.plan[1..], th.taken + 1)]
    case GiveUp(t) =>
      && th.plan != [] && th.taken <= |th.held|
      && s' == s[t := Thread(th.held[th.taken..], [], 0)]
    case Release(t) =>
      && th.plan == [] && th.held != []
      && s' == s[t := Thread(th.held[1..], [], 0)]
  }

  predicate ThreadOk(th: Thread) {
    && Descends(th.held) && Climbs(th.plan) && th.taken <= |th.held|
    && (th.plan != [] && th.held != [] ==> Above(th.plan[0], th.held[0]))
  }

  /** Nobody else holds what `t` holds. */
  ghost predicate Excludes(s: System, t: nat, u: nat)
    requires t in s && u in s
  {
    t != u ==> forall m :: m in s[t].held ==> m !in s[u].held
  }

  ghost predicate Safe(s: System) {
    && (forall t | t in s :: ThreadOk(s[t]))
    && (forall t, u | t in s && u in s :: Excludes(s, t, u))
  }

  ghost predicate Idle(s: System) { forall t | t in s :: s[t] == Thread([], [], 0) }

  lemma IdleIsSafe(s: System)
    requires Idle(s)
    ensures Safe(s)
  {
  }

  lemma StepKeepsThread(s: System, move: Move, s': System)
    requires Safe(s) && Step(s, move, s')
    ensures ThreadOk(s'[move.t])
  {
    var th, th' := s[move.t], s'[move.t];
    assert ThreadOk(th);
    match move {
      case Ask(t, wanted) => {}
      case Acquire(t) => {
        var m := th.plan[0];
        forall i, j | 0 <= i < j < |th'.held|
          ensures Above(th'.held[i], th'.held[j])
        {
          assert th'.held[j] == th.held[j - 1];
          assert j == 1 || Above(th.held[0], th.held[j - 1]);
        }
        assert th'.plan != [] ==> th'.plan[0] == th.plan[1];
      }
      case GiveUp(t) => {}
      case Release(t) => {}
    }
  }

  /** What a thread holds after a step it held before, or it has just acquired it. */
  lemma HeldBefore(s: System, move: Move, s': System, t: nat, m: Mutex)
    requires Step(s, move, s') && t in s' && m in s'[t].held
    ensures t in s && (m in s[t].held || (move == Acquire(t) && IsFree(s, m)))
  {
  }

  lemma StepKeepsExclusion(s: System, move: Move, s': System, t: nat, u: nat)
    requires Safe(s) && Step(s, move, s') && t in s' && u in s'
    ensures Excludes(s', t, u)
  {
    assert Excludes(s, t, u);
    forall m | t != u && m in s'[t].held
      ensures m !in s'[u].held
    {
      HeldBefore(s, move, s', t, m);
      if m in s'[u].held {
        HeldBefore(s, move, s', u, m);
      }
    }
  }

  lemma StepKeepsSafe(s: System, move: Move, s': System)
    requires Safe(s) && Step(s, move, s')
    ensures Safe(s')
  {
    StepKeepsThread(s, move, s');
    forall t, u | t in s' && u in s'
      ensures Excludes(s', t, u)
    {
      StepKeepsExclusion(s, move, s', t, u);
    }
  }

  ghost predicate IsRun(trace: seq<System>, moves: seq<Move>) {
    && |trace| == |moves| + 1 && Idle(trace[0])
    && forall i {:trigger moves[i]} | 0 <= i < |moves| :: Step(trace[i], moves[i], trace[i + 1])
  }

  lemma {:induction false} RunIsSafe(trace: seq<System>, moves: seq<Move>, i: nat)
    requires IsRun(trace, moves) && i < |trace|
    ensures Safe(trace[i])
    decreases i
  {
    if i == 0 {
      IdleIsSafe(trace[0]);
    } else {
      RunIsSafe(trace, moves, i - 1);
      assert Step(trace[i - 1], moves[i - 1], trace[i - 1 + 1]);
      StepKeepsSafe(trace[i - 1], moves[i - 1], trace[i]);
    }
  }

  // ---------------------------------------------------------------- waiting

  ghost predicate WaitsFor(s: System, t: nat, u: nat) {
    t in s && u in s && s[t].plan != [] && s[t].plan[0] in s[u].held
  }

  /** Along a wait the wanted mutex climbs: a thread that blocks others wants something above all it holds. */
  lemma WaitsClimb(s: System, t: nat, u: nat)
    requires Safe(s) && WaitsFor(s, t, u) && s[u].plan != []
    ensures Above(s[u].plan[0], s[t].plan[0])
  {
    var i :| 0 <= i < |s[u].held| && s[u].held[i] == s[t].plan[0];
    assert ThreadOk(s[u]);
    assert i == 0 || Above(s[u].held[0], s[u].held[i]);
  }

  /** Each thread of `ts` waits for the next one. */
  ghost predicate WaitChain(s: System, ts: seq<nat>) {
    forall i {:trigger ts[i]} | 0 <= i < |ts| - 1 :: WaitsFor(s, ts[i], ts[i + 1])
  }

  lemma {:induction false} ChainClimbs(s: System, ts: seq<nat>, k: nat)
    requires Safe(s) && WaitChain(s, ts) && 0 < k < |ts|
    requires ts[|ts| - 1] in s && s[ts[|ts| - 1]].plan != []
    ensures ts[0] in s && ts[k] in s && s[ts[0]].plan != [] && s[ts[k]].plan != []
    ensures Above(s[ts[k]].plan[0], s[ts[0]].plan[0])
    decreases k
  {
    assert WaitsFor(s, ts[k - 1], ts[k - 1 + 1]);
    assert k < |ts| - 1 ==> WaitsFor(s, ts[k], ts[k + 1]);
    WaitsClimb(s, ts[k - 1], ts[k]);
    if k > 1 {
      ChainClimbs(s, ts, k - 1);
    }
  }

  /** No reachable state has a cycle of threads each waiting for a mutex that the next one holds. */
  lemma NoWaitCycle(trace: seq<System>, moves: seq<Move>, i: nat, ts: seq<nat>)
    requires IsRun(trace, moves) && i < |trace| && |ts| > 1 && ts[0] == ts[|ts| - 1]
    ensures !WaitChain(trace[i], ts)
  {
    if WaitChain(trace[i], ts) {
      RunIsSafe(trace, moves, i);
      assert WaitsFor(trace[i], ts[0], ts[0 + 1]);
      ChainClimbs(trace[i], ts, |ts| - 1);
    }
  }

  // ---------------------------------------------------------------- progress

  lemma {:induction false} HighestWanted(s: System, ts: set<nat>) returns (t: nat)
    requires ts != {} && forall u | u in ts :: u in s && s[u].plan != []
    ensures t in ts && forall u | u in ts :: !Above(s[u].plan[0], s[t].plan[0])
    decreases |ts|
  {
    var first :| first in ts;
    var rest := ts - {first};
    t := first;
    if rest != {} {
      var h := HighestWanted(s, rest);
      t := if Above(s[h].plan[0], s[first].plan[0]) then h else first;
      forall u | u in ts
        ensures !Above(s[u].plan[0], s[t].plan[0])
      {
        assert u == first || u in rest;
        assert u in rest ==> !Above(s[u].plan[0], s[h].plan[0]);
      }
    } else {
      assert ts == {first};
    }
  }

  /** In no reachable state are all threads stuck: if all of them are in lock calls, one can acquire its next mutex. */
  lemma NotAllBlocked(trace: seq<System>, moves: seq<Move>, i: nat) returns (t: nat, s': System)
    requires IsRun(trace, moves) && i < |trace| && |trace[i]| > 0
    requires forall t | t in trace[i] :: trace[i][t].plan != []
    ensures t in trace[i] && Step(trace[i], Acquire(t), s')
  {
    var s := trace[i];
    RunIsSafe(trace, moves, i);
    assert s.Keys != {};
    t := HighestWanted(s, s.Keys);
    forall u | u in s
      ensures s[t].plan[0] !in s[u].held
    {
      if s[t].plan[0] in s[u].held {
        WaitsClimb(s, t, u);
      }
    }
    var th := s[t];
    assert IsFree(s, th.plan[0]);
    s' := s[t := Thread([th.plan[0]] + th.held, th.plan[1..], th.taken + 1)];
  }

  /** Every blocked thread that wants something above what `t` wants is in `higher`. */
  ghost predicate Contains(s: System, t: nat, higher: set<nat>)
    requires t in s && s[t].plan != []
  {
    higher <= s.Keys && forall u | u in s :: s[u].plan != [] && Above(s[u].plan[0], s[t].plan[0]) ==> u in higher
  }

  lemma HolderIsHigher(s: System, t: nat, u: nat, higher: set<nat>)
    requires Safe(s) && WaitsFor(s, t, u) && s[u].plan != [] && Contains(s, t, higher)
    ensures u in higher && Contains(s, u, higher - {u})
  {
  }

  lemma ChainGrows(s: System, t: nat, ts: seq<nat>)
    requires ts != [] && WaitsFor(s, t, ts[0]) && WaitChain(s, ts)
    ensures WaitChain(s, [t] + ts)
  {
  }

  lemma {:induction false} WaitsLeadOut(s: System, t: nat, higher: set<nat>) returns (ts: seq<nat>)
    requires Safe(s) && t in s && s[t].plan != [] && Contains(s, t, higher)
    ensures |ts| > 0 && ts[0] == t && WaitChain(s, ts)
    ensures var last := ts[|ts| - 1]; last in s && (s[last].plan == [] || IsFree(s, s[last].plan[0]))
    decreases |higher|
  {
    ts := [t];
    if !IsFree(s, s[t].plan[0]) {
      var u :| u in s && s[t].plan[0] in s[u].held;
      var rest := [u];
      if s[u].plan != [] {
        HolderIsHigher(s, t, u, higher);
        rest := WaitsLeadOut(s, u, higher - {u});
      }
      ChainGrows(s, t, rest);
      ts := [t] + rest;
    }
  }

  /** From a blocked thread, holder after holder leads to a thread that is not blocked, or that can go on at once. */
  lemma EveryWaitLeadsOut(trace: seq<System>, moves: seq<Move>, i: nat, t: nat)
    requires IsRun(trace, moves) && i < |trace| && t in trace[i] && trace[i][t].plan != []
    ensures exists ts | |ts| > 0 && ts[0] == t && WaitChain(trace[i], ts) ::
              var last := ts[|ts| - 1];
              last in trace[i] && (trace[i][last].plan == [] || IsFree(trace[i], trace[i][last].plan[0]))
  {
    RunIsSafe(trace, moves, i);
    var ts := WaitsLeadOut(trace[i], t, trace[i].Keys);
  }
}
