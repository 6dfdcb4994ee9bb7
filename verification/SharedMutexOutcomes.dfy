/** What an operation of the upgrade mutex gives its caller, said by who owns what and not by the word: in every state
    of every run, who gets in, who sleeps and who is refused. */
module SharedMutexOutcomes {
  import opened Common
  import opened SharedMutexSections
  import opened SharedMutexProtocol

  // ---------------------------------------------------------------- owners

  /** Some thread has this role. A writer that still waits for readers has its role already. */
  ghost predicate Somebody(s: System, r: Role) { exists u <- s.threads :: RoleOf(s.threads[u]) == r }

  ghost predicate NobodyOwns(s: System) { forall u <- s.threads :: RoleOf(s.threads[u]) == NoRole }

  ghost predicate OnlyOwns(s: System, t: ThreadId) {
    forall u <- s.threads :: u != t ==> RoleOf(s.threads[u]) == NoRole
  }

  /** As many threads have a share, as readers or as the upgrader, as the count can hold. */
  ghost predicate Full(s: System) { |Holders(s.threads, Reader)| + |Holders(s.threads, Upgrader)| == s.max }

  lemma SomebodyHolds(s: System, r: Role)
    ensures Somebody(s, r) <==> |Holders(s.threads, r)| > 0
  {
    if |Holders(s.threads, r)| > 0 {
      var u :| u in Holders(s.threads, r);
    }
    if Somebody(s, r) {
      var u :| u in s.threads && RoleOf(s.threads[u]) == r;
      assert u in Holders(s.threads, r);
    }
  }

  /** What the word says about the owners. */
  lemma WordOfOwners(s: System)
    requires Safe(s)
    ensures s.flags.writer <==> Somebody(s, Writer)
    ensures s.flags.upgrader <==> Somebody(s, Upgrader)
    ensures s.flags.readers > 0 <==> Somebody(s, Reader) || Somebody(s, Upgrader)
    ensures s.flags.readers == s.max <==> Full(s)
    ensures s.flags == UNLOCKED <==> NobodyOwns(s)
  {
    SomebodyHolds(s, Writer);
    SomebodyHolds(s, Upgrader);
    SomebodyHolds(s, Reader);
    if s.flags == UNLOCKED {
      forall u <- s.threads
        ensures RoleOf(s.threads[u]) == NoRole
      {
        HolderCounted(s, u);
      }
    }
  }

  lemma OnlyHolder(s: System, t: ThreadId, r: Role)
    requires t in s.threads && RoleOf(s.threads[t]) == r
    ensures |Holders(s.threads, r)| == 1 <==> forall u <- s.threads :: u != t ==> RoleOf(s.threads[u]) != r
  {
    var all := Holders(s.threads, r);
    assert t in all;
    if forall u <- s.threads :: u != t ==> RoleOf(s.threads[u]) != r {
      assert all == {t};
    }
    if |all| == 1 {
      SubsetSize({t}, all);
      forall u <- s.threads | u != t
        ensures RoleOf(s.threads[u]) != r
      {
        assert u !in all;
      }
    }
  }

  /** A thread with a share is the only owner exactly if it is the only one counted and no other flag is set. */
  lemma WordOfOnlyOwner(s: System, t: ThreadId)
    requires Safe(s) && t in s.threads
    ensures RoleOf(s.threads[t]) == Reader ==> (s.flags == Flags(false, false, 1) <==> OnlyOwns(s, t))
    ensures RoleOf(s.threads[t]) == Upgrader ==> (s.flags.readers == 1 <==> OnlyOwns(s, t))
    ensures RoleOf(s.threads[t]) == Upgrader ==> s.flags.upgrader && !s.flags.writer
  {
    WordOfOwners(s);
    HolderCounted(s, t);
    OnlyHolder(s, t, RoleOf(s.threads[t]));
    if OnlyOwns(s, t) {
      OthersHaveNone(s, t);
    } else {
      var u :| u in s.threads && u != t && RoleOf(s.threads[u]) != NoRole;
      HolderCounted(s, u);
    }
  }

  lemma OthersHaveNone(s: System, t: ThreadId)
    requires t in s.threads && OnlyOwns(s, t)
    ensures forall r: Role | r != NoRole && r != RoleOf(s.threads[t]) :: Holders(s.threads, r) == {}
  {
  }

  // ---------------------------------------------------------------- what a call comes to

  /** Where the caller of `op` is afterwards. */
  ghost function After(s: System, t: ThreadId, op: Op): Phase {
    match op
    case Lock | TryLockUntil =>
      if Somebody(s, Writer) || Somebody(s, Upgrader) then AtGate1(op, false)
      else if Somebody(s, Reader) then AtGate2(op, false)
      else Running(Writer)
    case TryLock => Running(if NobodyOwns(s) then Writer else NoRole)
    case Unlock => Running(NoRole)
    case LockShared | TryLockSharedUntil =>
      if Somebody(s, Writer) || Full(s) then AtGate1(op, false) else Running(Reader)
    case TryLockShared => Running(if Somebody(s, Writer) || Full(s) then NoRole else Reader)
    case UnlockShared => Running(NoRole)
    case LockUpgrade | TryLockUpgradeUntil =>
      if Somebody(s, Writer) || Somebody(s, Upgrader) || Full(s) then AtGate1(op, false) else Running(Upgrader)
    case TryLockUpgrade =>
      Running(if Somebody(s, Writer) || Somebody(s, Upgrader) || Full(s) then NoRole else Upgrader)
    case UnlockUpgrade => Owing(NoRole)
    case TryUnlockSharedAndLock => Running(if OnlyOwns(s, t) then Writer else Reader)
    case TryUnlockSharedAndLockUntil => if OnlyOwns(s, t) then Running(Writer) else AtGate2(op, false)
    case UnlockAndLockShared => Owing(Reader)
    case TryUnlockSharedAndLockUpgrade =>
      Running(if Somebody(s, Writer) || Somebody(s, Upgrader) then Reader else Upgrader)
    case TryUnlockSharedAndLockUpgradeUntil =>
      if Somebody(s, Writer) || Somebody(s, Upgrader) then AtGate2(op, false) else Running(Upgrader)
    case UnlockUpgradeAndLockShared => Owing(Reader)
    case UnlockUpgradeAndLock => if Somebody(s, Reader) then AtGate2(op, false) else Running(Writer)
    case TryUnlockUpgradeAndLock => Running(if OnlyOwns(s, t) then Writer else Upgrader)
    case TryUnlockUpgradeAndLockUntil => if OnlyOwns(s, t) then Running(Writer) else AtGate2(op, false)
    case UnlockAndLockUpgrade => Owing(Upgrader)
  }

  /** The other readers of an upgrader are all the readers. */
  lemma UpgraderAndReaders(s: System, t: ThreadId)
    requires Safe(s) && t in s.threads && RoleOf(s.threads[t]) == Upgrader
    ensures s.flags.readers == 1 <==> !Somebody(s, Reader)
  {
    HolderCounted(s, t);
    SomebodyHolds(s, Reader);
  }

  lemma NewcomerComesTo(s: System, t: ThreadId, op: Op)
    requires Safe(s) && t in s.threads && InOp(op, s.threads[t]) && CanEnter(op, s.flags) && CallerRole(op) == NoRole
    ensures Enter(op, s.flags, s.max).phase == After(s, t, op)
  {
    WordOfOwners(s);
  }

  lemma ReaderComesTo(s: System, t: ThreadId, op: Op)
    requires Safe(s) && t in s.threads && InOp(op, s.threads[t]) && CanEnter(op, s.flags) && CallerRole(op) == Reader
    ensures Enter(op, s.flags, s.max).phase == After(s, t, op)
  {
    WordOfOwners(s);
    SafeGivesRelies(s, t);
    WordOfOnlyOwner(s, t);
  }

  lemma EnterComesTo(s: System, t: ThreadId, op: Op)
    requires Safe(s) && t in s.threads && InOp(op, s.threads[t]) && CanEnter(op, s.flags)
    ensures Enter(op, s.flags, s.max).phase == After(s, t, op)
  {
    match CallerRole(op)
    case NoRole => NewcomerComesTo(s, t, op);
    case Reader => ReaderComesTo(s, t, op);
    case Upgrader =>
      SafeGivesRelies(s, t);
      WordOfOnlyOwner(s, t);
      UpgraderAndReaders(s, t);
    case Writer =>
  }

  /** The thread that steps is where its section left it. */
  lemma StepsTo(s: System, t: ThreadId, a: Action, s': System)
    requires Safe(s) && Step(s, t, a, s') && !a.Notify?
    ensures t in s'.threads
    ensures a.Call? ==> s'.threads[t] == Enter(a.op, s.flags, s.max).phase
    ensures a.Resume? ==> s'.threads[t] == Recheck(s.threads[t], s.flags, s.max).phase
    ensures a.Expire? ==> s'.threads[t] == GiveUp(s.threads[t], s.flags).phase
  {
    var sec := StepSection(s, t, a, s');
    WakingKeepsHolders(s.threads[t := sec.phase], sec.wake, s'.threads, NoRole);
    SectionStays(s, t, a, sec, s');
  }

  lemma SectionStays(s: System, t: ThreadId, a: Action, sec: Section, s': System)
    requires t in s.threads && IsSection(s, t, a, sec) && Runs(s, t, sec, s') && t in s'.threads
    ensures s'.threads[t] == sec.phase
  {
    if sec.wake != WakeNone {
      assert !Asleep(sec.phase);
    }
  }

  /** In every state of every run a call comes to what the owners allow. */
  lemma CallComesTo(trace: seq<System>, moves: seq<Move>, i: nat)
    requires IsRun(trace, moves) && i < |moves| && moves[i].action.Call?
    ensures var t := moves[i].thread;
            t in trace[i + 1].threads && trace[i + 1].threads[t] == After(trace[i], t, moves[i].action.op)
  {
    var t, a := moves[i].thread, moves[i].action;
    RunIsSafe(trace, moves, i);
    assert Step(trace[i], t, a, trace[i + 1]);
    StepsTo(trace[i], t, a, trace[i + 1]);
    EnterComesTo(trace[i], t, a.op);
  }

  /** A sleeper that wakes comes to the same, but a writer at gate 2 only waits for the shares to go. */
  lemma WakingComesTo(trace: seq<System>, moves: seq<Move>, i: nat)
    requires IsRun(trace, moves) && i < |moves| && moves[i].action.Resume?
    ensures var s, t := trace[i], moves[i].thread;
            && t in s.threads && t in trace[i + 1].threads && (s.threads[t].AtGate1? || s.threads[t].AtGate2?)
            && trace[i + 1].threads[t] ==
               (if s.threads[t].AtGate1? || RoleOf(s.threads[t]) != Writer then After(s, t, s.threads[t].op)
                else if Somebody(s, Reader) || Somebody(s, Upgrader) then AtGate2(s.threads[t].op, false)
                else Running(Writer))
  {
    var s, t, a := trace[i], moves[i].thread, moves[i].action;
    RunIsSafe(trace, moves, i);
    assert Step(s, t, a, trace[i + 1]);
    StepsTo(s, t, a, trace[i + 1]);
    WordOfOwners(s);
    SafeGivesRelies(s, t);
    if s.threads[t].AtGate1? || RoleOf(s.threads[t]) != Writer {
      EnterComesTo(s, t, s.threads[t].op);
    }
  }

  /** Only the timed operations give up, with what they had before the call, and only when they would sleep on. */
  lemma GivingUpComesTo(trace: seq<System>, moves: seq<Move>, i: nat)
    requires IsRun(trace, moves) && i < |moves| && moves[i].action.Expire?
    ensures var s, t := trace[i], moves[i].thread;
            && t in s.threads && t in trace[i + 1].threads && (s.threads[t].AtGate1? || s.threads[t].AtGate2?)
            && var p := s.threads[t];
               && p.op in {TryLockUntil, TryLockSharedUntil, TryLockUpgradeUntil, TryUnlockSharedAndLockUntil,
                           TryUnlockSharedAndLockUpgradeUntil, TryUnlockUpgradeAndLockUntil}
               && trace[i + 1].threads[t] == Running(CallerRole(p.op))
               && (p.AtGate1? || RoleOf(p) != Writer ==> After(s, t, p.op) == AsleepAgain(p))
               && (RoleOf(p) == Writer ==> Somebody(s, Reader))
  {
    var s, t, a := trace[i], moves[i].thread, moves[i].action;
    RunIsSafe(trace, moves, i);
    assert Step(s, t, a, trace[i + 1]);
    StepsTo(s, t, a, trace[i + 1]);
    WordOfOwners(s);
    SafeGivesRelies(s, t);
    if s.threads[t].AtGate1? || RoleOf(s.threads[t]) != Writer {
      EnterComesTo(s, t, s.threads[t].op);
    }
  }

  /** Nothing that one thread does changes what another one has. */
  lemma OthersKeepRoles(trace: seq<System>, moves: seq<Move>, i: nat, u: ThreadId)
    requires IsRun(trace, moves) && i < |moves| && u in trace[i].threads && u != moves[i].thread
    ensures u in trace[i + 1].threads && RoleOf(trace[i + 1].threads[u]) == RoleOf(trace[i].threads[u])
  {
    var s, s', t, a := trace[i], trace[i + 1], moves[i].thread, moves[i].action;
    RunIsSafe(trace, moves, i);
    assert Step(s, t, a, s');
    if !a.Notify? {
      var sec := StepSection(s, t, a, s');
      WakingKeepsHolders(s.threads[t := sec.phase], sec.wake, s'.threads, NoRole);
    }
  }

  lemma CallOnRun(trace: seq<System>, moves: seq<Move>, i: nat, op: Op)
    requires IsRun(trace, moves) && i < |moves| && moves[i].action == Call(op)
    ensures var s, t := trace[i], moves[i].thread;
            && t in s.threads && s.threads[t] == Running(CallerRole(op))
            && t in trace[i + 1].threads && trace[i + 1].threads[t] == After(s, t, op)
            && |Holders(s.threads, Reader)| + |Holders(s.threads, Upgrader)| <= s.max
  {
    RunIsSafe(trace, moves, i);
    assert Step(trace[i], moves[i].thread, moves[i].action, trace[i + 1]);
    CallComesTo(trace, moves, i);
  }

  /** `try_lock` succeeds exactly if nobody has anything, the conversions that do not wait exactly for a sole owner; a
      refused caller has what it had. */
  lemma ExclusiveTriesSucceedExactly(trace: seq<System>, moves: seq<Move>, i: nat, op: Op)
    requires IsRun(trace, moves) && i < |moves| && moves[i].action == Call(op)
    requires op in {TryLock, TryUnlockSharedAndLock, TryUnlockUpgradeAndLock}
    ensures var s, t := trace[i], moves[i].thread;
            && t in s.threads && t in trace[i + 1].threads
            && trace[i + 1].threads[t] ==
               if forall u <- s.threads :: u != t ==> RoleOf(s.threads[u]) == NoRole then Running(Writer)
               else s.threads[t]
  {
    CallOnRun(trace, moves, i, op);
  }

  /** Shared ownership is refused exactly while there is a writer or the count is full. */
  lemma SharedTriesSucceedExactly(trace: seq<System>, moves: seq<Move>, i: nat)
    requires IsRun(trace, moves) && i < |moves| && moves[i].action == Call(TryLockShared)
    ensures var s, t := trace[i], moves[i].thread;
            && t in trace[i + 1].threads
            && trace[i + 1].threads[t] ==
               Running(if (forall u <- s.threads :: RoleOf(s.threads[u]) != Writer) &&
                          |Holders(s.threads, Reader)| + |Holders(s.threads, Upgrader)| < s.max
                       then Reader else NoRole)
  {
    CallOnRun(trace, moves, i, TryLockShared);
  }

  /** Upgrade ownership is refused exactly while there is a writer or an upgrader; a newcomer also needs room. */
  lemma UpgradeTriesSucceedExactly(trace: seq<System>, moves: seq<Move>, i: nat, op: Op)
    requires IsRun(trace, moves) && i < |moves| && moves[i].action == Call(op)
    requires op in {TryLockUpgrade, TryUnlockSharedAndLockUpgrade}
    ensures var s, t := trace[i], moves[i].thread;
            && t in s.threads && t in trace[i + 1].threads
            && trace[i + 1].threads[t] ==
               if (forall u <- s.threads :: RoleOf(s.threads[u]) !in {Writer, Upgrader}) &&
                  (op == TryLockUpgrade ==>
                     |Holders(s.threads, Reader)| + |Holders(s.threads, Upgrader)| < s.max)
               then Running(Upgrader) else s.threads[t]
  {
    CallOnRun(trace, moves, i, op);
  }
}
