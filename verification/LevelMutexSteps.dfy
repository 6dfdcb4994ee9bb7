/** The operations on one thread's list of mutexes as steps of the state machine of the level-mutex discipline: the
    guards of the machine are what the operations check, and its invariants give the order that `PostLock` asserts. */
module LevelMutexSteps {
  import opened Common
  import opened LevelMutexChain
  import opened LevelMutex
  import opened MultiLocking
  import D = LevelMutexDeadlock

  function Shown(m: LevelMutexInfo): D.Mutex { D.Mutex(m.level, m.address) }

  function ShownAll(ms: seq<LevelMutexInfo>): (r: seq<D.Mutex>)
    ensures |r| == |ms| && forall i | 0 <= i < |ms| :: r[i] == Shown(ms[i])
  {
    seq(|ms|, i requires 0 <= i < |ms| => Shown(ms[i]))
  }

  /** Thread `id` of the machine has the list `t`, and is in a lock call that still has to lock `plan`. */
  ghost predicate Shows(s: D.System, id: nat, t: ThreadLocks, plan: seq<LevelMutexInfo>, taken: nat)
    reads t
  {
    id in s && s[id] == D.Thread(ShownAll(t.held), ShownAll(plan), taken)
  }

  /** The machine after a step of thread `id`. */
  ghost function Moved(s: D.System, id: nat, t: ThreadLocks, plan: seq<LevelMutexInfo>, taken: nat): (s': D.System)
    reads t
    ensures Shows(s', id, t, plan, taken) && forall u | u in s && u != id :: u in s' && s'[u] == s[u]
  {
    s[id := D.Thread(ShownAll(t.held), ShownAll(plan), taken)]
  }

  // ---------------------------------------------------------------- the checks: Ask

  lemma CurrentLevelShown(t: ThreadLocks)
    requires t.Valid()
    ensures t.CurrentLevel() == D.CurrentLevel(ShownAll(t.held))
  {
  }

  /** The check of one mutex finds no problem exactly if the machine lets the thread ask for it. */
  method AskOne(t: ThreadLocks, m: LevelMutexInfo, ghost s: D.System, ghost id: nat) returns (result: MutexError)
    requires t.Valid() && Shows(s, id, t, [], 0)
    modifies m
    ensures t.Valid() && t.held == old(t.held)
    ensures result == NoProblem <==> D.Step(s, D.Ask(id, [Shown(m)]), Moved(s, id, t, [m], 0))
  {
    CurrentLevelShown(t);
    assert ShownAll([m]) == [Shown(m)];
    result := t.PreLockCheck(m, false);
  }

  /** So it is with a container that has been sorted. */
  lemma AskAll(t: ThreadLocks, ms: seq<LevelMutexInfo>, level: nat, s: D.System, id: nat)
    requires t.Valid() && Shows(s, id, t, [], 0) && ms != [] && Rising(ms) && AtLevel(ms, level)
    ensures level < t.CurrentLevel() <==> D.Step(s, D.Ask(id, ShownAll(ms)), Moved(s, id, t, ms, 0))
  {
    CurrentLevelShown(t);
    var wanted := ShownAll(ms);
    forall i, j | 0 <= i < j < |wanted|
      ensures D.Above(wanted[j], wanted[i])
    {
      assert ms[i].address < ms[j].address;
    }
  }

  // ---------------------------------------------------------------- locking: Acquire

  /** The next mutex of a call may be pushed: the machine's invariant says that it comes after all that is held. */
  lemma NextMayBePushed(t: ThreadLocks, plan: seq<LevelMutexInfo>, taken: nat, s: D.System, id: nat)
    requires t.Valid() && Shows(s, id, t, plan, taken) && D.Safe(s) && plan != []
    requires plan[0].count == 0 && plan[0].previous == null && plan[0].level < UNLOCKED_LEVEL
    ensures t.MayPush(plan[0])
  {
    assert D.ThreadOk(s[id]);
    assert s[id].plan[0] == Shown(plan[0]);
    assert t.held != [] ==> s[id].held[0] == Shown(t.held[0]);
  }

  /** The base mutex grants a mutex that is in nobody's list, or does not answer with success. */
  method AcquireNext(t: ThreadLocks, ghost plan: seq<LevelMutexInfo>, ghost taken: nat, m: LevelMutexInfo,
                     answer: MutexError, ghost s: D.System, ghost id: nat)
    returns (result: MutexError)
    requires t.Valid() && Shows(s, id, t, plan, taken) && D.Safe(s) && plan != [] && m == plan[0]
    requires m.level < UNLOCKED_LEVEL
    requires answer == Success ==> D.IsFree(s, Shown(m)) && m.count == 0 && m.previous == null
    modifies t, m
    ensures t.Valid() && result == answer
    ensures result == Success ==> D.Step(s, D.Acquire(id), Moved(s, id, t, plan[1..], taken + 1))
    ensures result != Success ==> Shows(s, id, t, plan, taken)
  {
    if answer == Success {
      NextMayBePushed(t, plan, taken, s, id);
    }
    ghost var was := t.held;
    result := LockThis(t, m, answer);
    if result == Success {
      assert ShownAll(t.held) == [Shown(m)] + ShownAll(was);
      assert ShownAll(plan)[1..] == ShownAll(plan[1..]);
    }
  }

  // ---------------------------------------------------------------- undoing: GiveUp

  /** A call that is not granted its next mutex undoes what it had locked. */
  method UndoAll(t: ThreadLocks, ms: seq<LevelMutexInfo>, n: nat, ghost rest: seq<LevelMutexInfo>,
                 ghost s: D.System, ghost id: nat)
    requires t.Valid() && n < |ms| && Rising(ms) && LockedOnTop(t, ms, n, rest) && Shows(s, id, t, ms[n..], n)
    modifies t, ms
    ensures t.Valid() && t.held == rest
    ensures D.Step(s, D.GiveUp(id), Moved(s, id, t, [], 0))
  {
    ghost var was := t.held;
    Undo(t, ms, n, rest);
    assert ShownAll(was)[n..] == ShownAll(rest);
  }

  // ---------------------------------------------------------------- unlocking: Release

  /** The last unlock of the newest mutex. */
  method ReleaseNewest(t: ThreadLocks, m: LevelMutexInfo, ghost s: D.System, ghost id: nat)
    requires t.Valid() && m == t.currentMutex && m.count == 1 && Shows(s, id, t, [], 0)
    modifies t, m
    ensures t.Valid()
    ensures D.Step(s, D.Release(id), Moved(s, id, t, [], 0))
  {
    ghost var was := t.held;
    t.PreUnlock(m);
    assert ShownAll(was)[1..] == ShownAll(t.held);
  }
}
