/** Any number of threads using one upgrade_mutex: interleavings of critical sections, wakeups and deadlines.
    A run that uses only the operations of shared_mutex is a run of that class (its word has no upgrade flag). */
module SharedMutexProtocol {
  import opened Common
  import opened SharedMutexSections

  type ThreadId = nat
  type Threads = map<ThreadId, Phase>

  /** `max` is the largest count the word can hold: the value of `n_readers_`. */
  datatype System = System(flags: Flags, threads: Threads, max: nat)

  datatype Action = Call(op: Op) | Resume | Expire | Notify

  ghost predicate Init(s: System) {
    && s.max > 0
    && s.flags == UNLOCKED
    && forall t <- s.threads :: s.threads[t] == Running(NoRole)
  }

  // ---------------------------------------------------------------- steps

  predicate SleepsAtGate1(p: Phase) { p.AtGate1? && !p.notified }

  predicate Asleep(p: Phase) { p.AtGate1? || p.AtGate2? }

  predicate SleepsAtGate2(p: Phase) { p.AtGate2? && !p.notified }

  predicate Sleeps(p: Phase, gate2: bool) { if gate2 then SleepsAtGate2(p) else SleepsAtGate1(p) }

  /** The same sleep again, with no notification yet. */
  function AsleepAgain(p: Phase): Phase
    requires Asleep(p)
  {
    if p.AtGate1? then AtGate1(p.op, false) else AtGate2(p.op, false)
  }

  function Woken(p: Phase): Phase {
    match p
    case AtGate1(op, _) => AtGate1(op, true)
    case AtGate2(op, _) => AtGate2(op, true)
    case _ => p
  }

  function WokenAtGate1(threads: Threads): Threads {
    map t <- threads :: if threads[t].AtGate1? then Woken(threads[t]) else threads[t]
  }

  /** `notify_one` wakes some sleeper of the gate, and does nothing when the gate has none. */
  ghost predicate WakesOne(threads: Threads, gate2: bool, threads': Threads) {
    || ((forall t <- threads :: !Sleeps(threads[t], gate2)) && threads' == threads)
    || (exists u <- threads :: Sleeps(threads[u], gate2) && threads' == threads[u := Woken(threads[u])])
  }

  ghost predicate Wakes(threads: Threads, wake: Wake, threads': Threads) {
    match wake
    case WakeNone => threads' == threads
    case WakeAllGate1 => threads' == WokenAtGate1(threads)
    case WakeOneGate1 => WakesOne(threads, false, threads')
    case WakeOneGate2 => WakesOne(threads, true, threads')
  }

  /** Thread `t` runs one critical section. */
  ghost predicate Runs(s: System, t: ThreadId, section: Section, s': System)
    requires t in s.threads
  {
    && s'.max == s.max
    && s'.flags == section.flags
    && Wakes(s.threads[t := section.phase], section.wake, s'.threads)
  }

  ghost predicate Step(s: System, t: ThreadId, a: Action, s': System) {
    && t in s.threads
    && var p := s.threads[t];
       match a
       case Call(op) =>
         p == Running(CallerRole(op)) && CanEnter(op, s.flags) && Runs(s, t, Enter(op, s.flags, s.max), s')
       case Resume =>
         Asleep(p) && CanRecheck(p, s.flags) && Runs(s, t, Recheck(p, s.flags, s.max), s')
       case Expire =>
         && Asleep(p) && IsTimed(p.op) && CanRecheck(p, s.flags)
         && Recheck(p, s.flags, s.max).phase == AsleepAgain(p)
         && Runs(s, t, GiveUp(p, s.flags), s')
       case Notify =>
         && p.Owing?
         && s' == s.(threads := WokenAtGate1(s.threads[t := Running(p.role)]))
  }

  // ---------------------------------------------------------------- counting owners

  ghost function Holders(threads: Threads, r: Role): set<ThreadId> {
    set t | t in threads && RoleOf(threads[t]) == r
  }

  function B2N(b: bool): nat { if b then 1 else 0 }

  lemma HoldersAfterUpdate(threads: Threads, t: ThreadId, p: Phase, r: Role)
    requires t in threads
    ensures |Holders(threads[t := p], r)| + B2N(RoleOf(threads[t]) == r)
         == |Holders(threads, r)| + B2N(RoleOf(p) == r)
  {
    var before, after := Holders(threads, r), Holders(threads[t := p], r);
    assert after - {t} == before - {t};
    assert |before| == |before - {t}| + B2N(t in before);
    assert |after| == |after - {t}| + B2N(t in after);
  }

  /** Wakeups move nobody from one role to another. */
  lemma WakingKeepsHolders(threads: Threads, wake: Wake, threads': Threads, r: Role)
    requires Wakes(threads, wake, threads')
    ensures threads'.Keys == threads.Keys
    ensures Holders(threads', r) == Holders(threads, r)
    ensures forall t <- threads :: t in threads' && threads'[t] in {threads[t], Woken(threads[t])}
  {
  }

  // ---------------------------------------------------------------- the safety invariant

  ghost predicate WellPlaced(p: Phase) {
    && (p.AtGate1? ==> WaitsAtGate1(p.op))
    && (p.AtGate2? ==> Gate2Role(p.op) != NoRole)
    && (p.Owing? ==> p.role != Writer)
  }

  /** The word says exactly who owns what. */
  ghost predicate Accounts(f: Flags, writers: nat, upgraders: nat, readers: nat) {
    && writers == B2N(f.writer)
    && upgraders == B2N(f.upgrader)
    && f.readers == readers + upgraders
    && !(f.writer && f.upgrader)
  }

  ghost predicate Safe(s: System) {
    && s.max > 0
    && Accounts(s.flags, |Holders(s.threads, Writer)|, |Holders(s.threads, Upgrader)|, |Holders(s.threads, Reader)|)
    && s.flags.readers <= s.max
    && (forall t <- s.threads :: WellPlaced(s.threads[t]))
    && (forall t <- s.threads :: s.threads[t] == Running(Writer) ==> s.flags.readers == 0)
  }

  lemma InitIsSafe(s: System)
    requires Init(s)
    ensures Safe(s)
  {
  }

  lemma HolderCounted(s: System, t: ThreadId)
    requires t in s.threads
    ensures |Holders(s.threads, RoleOf(s.threads[t]))| > 0
  {
    assert t in Holders(s.threads, RoleOf(s.threads[t]));
  }

  /** What a critical section of a thread in `p` may do to the word, given what that thread owns. */
  ghost predicate Balanced(p: Phase, f: Flags, sec: Section, max: nat) {
    && WellPlaced(sec.phase)
    && sec.flags.readers <= max
    && !(sec.flags.writer && sec.flags.upgrader)
    && B2N(sec.flags.writer) + B2N(RoleOf(p) == Writer) == B2N(f.writer) + B2N(RoleOf(sec.phase) == Writer)
    && B2N(sec.flags.upgrader) + B2N(RoleOf(p) == Upgrader) == B2N(f.upgrader) + B2N(RoleOf(sec.phase) == Upgrader)
    && sec.flags.readers + B2N(RoleOf(p) in {Reader, Upgrader})
       == f.readers + B2N(RoleOf(sec.phase) in {Reader, Upgrader})
    && (sec.phase == Running(Writer) ==> sec.flags.readers == 0)
    && (f.writer && RoleOf(p) != Writer ==> sec.flags.writer && sec.flags.readers <= f.readers)
  }

  /** The facts about the word that a thread in `p` may rely on. */
  ghost predicate Relies(p: Phase, f: Flags, max: nat) {
    && max > 0
    && WellPlaced(p)
    && f.readers <= max
    && !(f.writer && f.upgrader)
    && (RoleOf(p) == Writer ==> f.writer)
    && (RoleOf(p) == Upgrader ==> f.upgrader)
    && (RoleOf(p) in {Reader, Upgrader} ==> f.readers > 0)
    && (f.upgrader ==> f.readers > 0)
    && (p == Running(Writer) ==> f.readers == 0)
    && (RoleOf(p) == Reader && f.upgrader ==> f.readers > 1)
  }

  /** The caller of `op`, or a thread asleep inside it that tests its condition from the start. */
  predicate InOp(op: Op, p: Phase) {
    p == Running(CallerRole(op)) || (p.AtGate1? && p.op == op) || (p.AtGate2? && p.op == op && Gate2Role(op) != Writer)
  }

  lemma EnterBalanced(op: Op, p: Phase, f: Flags, max: nat)
    requires Relies(p, f, max) && InOp(op, p)
    ensures CanEnter(op, f) && Balanced(p, f, Enter(op, f, max), max)
  {
    if CallerRole(op) == NoRole {
      EnterFromNoRole(op, p, f, max);
    } else {
      EnterFromRole(op, p, f, max);
    }
  }

  lemma EnterFromNoRole(op: Op, p: Phase, f: Flags, max: nat)
    requires Relies(p, f, max) && InOp(op, p) && CallerRole(op) == NoRole
    ensures Balanced(p, f, Enter(op, f, max), max)
  {
  }

  lemma EnterFromRole(op: Op, p: Phase, f: Flags, max: nat)
    requires Relies(p, f, max) && InOp(op, p) && CallerRole(op) != NoRole
    ensures CanEnter(op, f) && Balanced(p, f, Enter(op, f, max), max)
  {
  }

  lemma RecheckBalanced(p: Phase, f: Flags, max: nat)
    requires Relies(p, f, max) && Asleep(p)
    ensures CanRecheck(p, f) && Balanced(p, f, Recheck(p, f, max), max)
  {
  }

  lemma SafeGivesRelies(s: System, t: ThreadId)
    requires Safe(s) && t in s.threads
    ensures Relies(s.threads[t], s.flags, s.max)
  {
    HolderCounted(s, t);
  }

  lemma BalancedKeepsSafe(s: System, t: ThreadId, sec: Section, s': System)
    requires Safe(s) && t in s.threads
    requires Balanced(s.threads[t], s.flags, sec, s.max)
    requires Runs(s, t, sec, s')
    ensures Safe(s')
  {
    var mid := s.threads[t := sec.phase];
    forall r: Role
      ensures |Holders(s'.threads, r)| + B2N(RoleOf(s.threads[t]) == r)
           == |Holders(s.threads, r)| + B2N(RoleOf(sec.phase) == r)
    {
      HoldersAfterUpdate(s.threads, t, sec.phase, r);
      WakingKeepsHolders(mid, sec.wake, s'.threads, r);
    }
    WakingKeepsHolders(mid, sec.wake, s'.threads, NoRole);
    SafeGivesRelies(s, t);
    forall u <- s'.threads | s'.threads[u] == Running(Writer)
      ensures s'.flags.readers == 0
    {
      if u != t {
        SafeGivesRelies(s, u);
        if RoleOf(s.threads[t]) == Writer {
          OnlyOneWriter(s, t, u);
        }
      }
    }
  }

  /** The writer flag admits one thread at a time, owner or still waiting. */
  lemma OnlyOneWriter(s: System, t: ThreadId, u: ThreadId)
    requires Safe(s) && t in s.threads && u in s.threads
    requires RoleOf(s.threads[t]) == RoleOf(s.threads[u]) == Writer
    ensures t == u
  {
    if t != u {
      assert {t, u} <= Holders(s.threads, Writer);
      SubsetSize({t, u}, Holders(s.threads, Writer));
    }
  }

  /** `sec` is the section that the action makes thread `t` run. */
  ghost predicate IsSection(s: System, t: ThreadId, a: Action, sec: Section)
    requires t in s.threads
  {
    var p := s.threads[t];
    match a
    case Call(op) => p == Running(CallerRole(op)) && CanEnter(op, s.flags) && sec == Enter(op, s.flags, s.max)
    case Resume => Asleep(p) && CanRecheck(p, s.flags) && sec == Recheck(p, s.flags, s.max)
    case Expire => Asleep(p) && IsTimed(p.op) && CanRecheck(p, s.flags) && sec == GiveUp(p, s.flags)
    case Notify => false
  }

  /** Every section a step can run is balanced. */
  lemma StepSection(s: System, t: ThreadId, a: Action, s': System) returns (sec: Section)
    requires Safe(s) && Step(s, t, a, s') && !a.Notify?
    ensures Balanced(s.threads[t], s.flags, sec, s.max) && Runs(s, t, sec, s')
    ensures IsSection(s, t, a, sec)
  {
    var p := s.threads[t];
    SafeGivesRelies(s, t);
    match a
    case Call(op) =>
      EnterBalanced(op, p, s.flags, s.max);
      sec := Enter(op, s.flags, s.max);
    case Resume =>
      RecheckBalanced(p, s.flags, s.max);
      sec := Recheck(p, s.flags, s.max);
    case Expire =>
      sec := GiveUp(p, s.flags);
  }

  lemma StepKeepsSafe(s: System, t: ThreadId, a: Action, s': System)
    requires Safe(s) && Step(s, t, a, s')
    ensures Safe(s')
  {
    if a.Notify? {
      var sec := Section(s.flags, Running(s.threads[t].role), WakeAllGate1);
      SafeGivesRelies(s, t);
      BalancedKeepsSafe(s, t, sec, s');
    } else {
      var sec := StepSection(s, t, a, s');
      BalancedKeepsSafe(s, t, sec, s');
    }
  }

  /** The side conditions of a step never stop a thread: every operation its role allows can be called, and every
      sleeper can wake and test its condition again. */
  lemma StepsAreEnabled(s: System, t: ThreadId, a: Action) returns (s': System)
    requires Safe(s) && t in s.threads
    requires a.Call? ==> s.threads[t] == Running(CallerRole(a.op))
    requires a.Resume? ==> Asleep(s.threads[t])
    requires a.Notify? ==> s.threads[t].Owing?
    requires !a.Expire?
    ensures Step(s, t, a, s')
  {
    var p := s.threads[t];
    s' := s;
    SafeGivesRelies(s, t);
    match a
    case Expire =>
    case Call(op) =>
      EnterBalanced(op, p, s.flags, s.max);
      s' := AfterSection(s, t, Enter(op, s.flags, s.max));
    case Resume =>
      RecheckBalanced(p, s.flags, s.max);
      s' := AfterSection(s, t, Recheck(p, s.flags, s.max));
    case Notify =>
      s' := s.(threads := WokenAtGate1(s.threads[t := Running(p.role)]));
  }

  lemma AfterSection(s: System, t: ThreadId, sec: Section) returns (s': System)
    requires t in s.threads
    ensures Runs(s, t, sec, s')
  {
    var mid := s.threads[t := sec.phase];
    var threads' := mid;
    match sec.wake {
      case WakeNone =>
      case WakeAllGate1 => threads' := WokenAtGate1(mid);
      case WakeOneGate1 =>
        if u :| u in mid && Sleeps(mid[u], false) { threads' := mid[u := Woken(mid[u])]; }
      case WakeOneGate2 =>
        if u :| u in mid && Sleeps(mid[u], true) { threads' := mid[u := Woken(mid[u])]; }
    }
    s' := System(sec.flags, threads', s.max);
  }

  // ---------------------------------------------------------------- runs

  datatype Move = Move(thread: ThreadId, action: Action)

  ghost predicate IsRun(trace: seq<System>, moves: seq<Move>) {
    && |trace| == |moves| + 1
    && Init(trace[0])
    && forall i {:trigger moves[i]} | 0 <= i < |moves| :: Step(trace[i], moves[i].thread, moves[i].action, trace[i + 1])
  }

  lemma {:induction false} RunIsSafe(trace: seq<System>, moves: seq<Move>, i: nat)
    requires IsRun(trace, moves) && i < |trace|
    ensures Safe(trace[i])
  {
    if i == 0 {
      InitIsSafe(trace[0]);
    } else {
      RunIsSafe(trace, moves, i - 1);
      StepKeepsSafe(trace[i - 1], moves[i - 1].thread, moves[i - 1].action, trace[i]);
    }
  }

  /** Mutual exclusion in every state of every run: the reader field counts the shared owners and the upgrade
      owner, each flag tells whether one thread is in that role, and an exclusive owner has no company. */
  lemma MutualExclusion(trace: seq<System>, moves: seq<Move>, i: nat)
    requires IsRun(trace, moves) && i < |trace|
    ensures var s := trace[i];
            && s.flags.readers == |Holders(s.threads, Reader)| + |Holders(s.threads, Upgrader)| <= s.max
            && |Holders(s.threads, Writer)| == B2N(s.flags.writer)
            && |Holders(s.threads, Upgrader)| == B2N(s.flags.upgrader)
            && |Holders(s.threads, Writer)| + |Holders(s.threads, Upgrader)| <= 1
            && forall t, u | t in s.threads && u in s.threads && t != u && s.threads[t] == Running(Writer) ::
                 RoleOf(s.threads[u]) == NoRole
  {
    RunIsSafe(trace, moves, i);
    var s := trace[i];
    forall t, u | t in s.threads && u in s.threads && t != u && s.threads[t] == Running(Writer)
      ensures RoleOf(s.threads[u]) == NoRole
    {
      HolderCounted(s, u);
      HolderCounted(s, t);
      if RoleOf(s.threads[u]) == Writer {
        OnlyOneWriter(s, t, u);
      }
    }
  }

  // ---------------------------------------------------------------- wakeups

  /** A writer asleep and un-notified at gate 2 still has readers to wait for. */
  ghost predicate WritersLive(s: System) {
    forall t <- s.threads :: SleepsAtGate2(s.threads[t]) && Gate2Role(s.threads[t].op) == Writer ==> s.flags.readers > 0
  }

  predicate StrandedUnlessFlagged(p: Phase) { SleepsAtGate1(p) && IsExclusiveLocker(p.op) }

  ghost predicate SomeoneOwes(s: System) {
    exists t <- s.threads :: s.threads[t].Owing?
  }

  ghost predicate ExclusiveLockerSleeps(s: System) {
    exists t <- s.threads :: StrandedUnlessFlagged(s.threads[t])
  }

  /** No exclusive locker sleeps at gate 1 without a flag set or a notification on its way. */
  ghost predicate Gate1Live(s: System) {
    ExclusiveLockerSleeps(s) ==> s.flags.writer || s.flags.upgrader || SomeoneOwes(s)
  }

  /** A writer that still waits for readers reaches its deadline. */
  predicate WriterExpires(s: System, t: ThreadId, a: Action) {
    a == Expire && t in s.threads && s.threads[t].AtGate2? && Gate2Role(s.threads[t].op) == Writer
  }

  lemma StepKeepsWritersLive(s: System, t: ThreadId, a: Action, s': System)
    requires Safe(s) && WritersLive(s) && Step(s, t, a, s')
    ensures WritersLive(s')
  {
    StepKeepsSafe(s, t, a, s');
    if !a.Notify? {
      var sec := StepSection(s, t, a, s');
      forall u <- s'.threads | SleepsAtGate2(s'.threads[u]) && Gate2Role(s'.threads[u].op) == Writer
        ensures s'.flags.readers > 0
      {
        SleeperAtGate2(s, t, a, s', sec, u);
      }
    }
  }

  lemma SleeperAtGate2(s: System, t: ThreadId, a: Action, s': System, sec: Section, u: ThreadId)
    requires Safe(s) && WritersLive(s) && Safe(s') && t in s.threads
    requires Balanced(s.threads[t], s.flags, sec, s.max) && Runs(s, t, sec, s') && IsSection(s, t, a, sec)
    requires u in s'.threads && SleepsAtGate2(s'.threads[u]) && Gate2Role(s'.threads[u].op) == Writer
    ensures s'.flags.readers > 0
  {
    SafeGivesRelies(s', u);
    if s'.flags.readers == 0 && u != t {
      SleptBefore(s, t, sec, s', u);
      LastReaderNotifies(s, t, a, s', sec, u);
    }
  }

  /** The section that takes the count to zero under a waiting writer `u` notifies gate 2, where only `u` sleeps. */
  lemma LastReaderNotifies(s: System, t: ThreadId, a: Action, s': System, sec: Section, u: ThreadId)
    requires Safe(s) && Safe(s') && t in s.threads
    requires Balanced(s.threads[t], s.flags, sec, s.max) && Runs(s, t, sec, s')
    requires IsSection(s, t, a, sec)
    requires u in s.threads && u != t && s.flags.readers > 0 && s'.flags.readers == 0
    requires SleepsAtGate2(s.threads[u]) && Gate2Role(s.threads[u].op) == Writer
    ensures u in s'.threads && !SleepsAtGate2(s'.threads[u])
  {
    SafeGivesRelies(s, u);
    SafeGivesRelies(s, t);
    if RoleOf(s.threads[t]) == Writer {
      OnlyOneWriter(s, t, u);
    }
    assert a == Call(UnlockShared) && sec.wake == WakeOneGate2;
    var mid := s.threads[t := sec.phase];
    assert SleepsAtGate2(mid[u]);
    assert Sleeps(mid[u], true);
    var v :| v in mid && Sleeps(mid[v], true) && s'.threads == mid[v := Woken(mid[v])];
    SafeGivesRelies(s', v);
    SafeGivesRelies(s, v);
    OnlyOneWriter(s, u, v);
  }

  lemma StepKeepsGate1Live(s: System, t: ThreadId, a: Action, s': System)
    requires Safe(s) && Gate1Live(s) && Step(s, t, a, s') && !WriterExpires(s, t, a)
    ensures Gate1Live(s')
  {
    if !a.Notify? {
      var sec := StepSection(s, t, a, s');
      forall u <- s'.threads | StrandedUnlessFlagged(s'.threads[u])
        ensures s'.flags.writer || s'.flags.upgrader || SomeoneOwes(s')
      {
        SleeperAtGate1(s, t, a, s', sec, u);
      }
    }
  }

  /** Whoever sleeps un-notified after a section slept before it, or is the thread that ran it. */
  lemma SleptBefore(s: System, t: ThreadId, sec: Section, s': System, u: ThreadId)
    requires t in s.threads && Runs(s, t, sec, s')
    requires u in s'.threads && u != t && (SleepsAtGate1(s'.threads[u]) || SleepsAtGate2(s'.threads[u]))
    ensures u in s.threads && s.threads[u] == s'.threads[u]
    ensures SleepsAtGate1(s'.threads[u]) ==> sec.wake != WakeAllGate1
  {
  }

  lemma SleeperAtGate1(s: System, t: ThreadId, a: Action, s': System, sec: Section, u: ThreadId)
    requires Safe(s) && Gate1Live(s) && t in s.threads && !WriterExpires(s, t, a)
    requires Balanced(s.threads[t], s.flags, sec, s.max) && Runs(s, t, sec, s') && IsSection(s, t, a, sec)
    requires u in s'.threads && StrandedUnlessFlagged(s'.threads[u])
    ensures s'.flags.writer || s'.flags.upgrader || SomeoneOwes(s')
  {
    if u == t {
      assert s'.threads[t] == sec.phase by {
        WakingKeepsHolders(s.threads[t := sec.phase], sec.wake, s'.threads, NoRole);
      }
    } else if !s'.flags.writer && !s'.flags.upgrader {
      SleptBefore(s, t, sec, s', u);
      ClearingTheFlags(s, t, a, s', sec);
    }
  }

  lemma SectionClearsFlags(s: System, t: ThreadId, a: Action, sec: Section)
    requires Safe(s) && t in s.threads && !WriterExpires(s, t, a)
    requires IsSection(s, t, a, sec)
    requires s.flags.writer || s.flags.upgrader
    requires !sec.flags.writer && !sec.flags.upgrader
    ensures sec.wake == WakeAllGate1 || sec.phase.Owing?
  {
  }

  /** A section that leaves both flags clear wakes gate 1, or leaves its thread owing that wakeup, or found them
      clear and then some other thread owes it. */
  lemma ClearingTheFlags(s: System, t: ThreadId, a: Action, s': System, sec: Section)
    requires Safe(s) && Gate1Live(s) && ExclusiveLockerSleeps(s)
    requires t in s.threads && !WriterExpires(s, t, a)
    requires Balanced(s.threads[t], s.flags, sec, s.max) && Runs(s, t, sec, s')
    requires IsSection(s, t, a, sec)
    requires !s'.flags.writer && !s'.flags.upgrader
    ensures sec.wake == WakeAllGate1 || SomeoneOwes(s')
  {
    var mid := s.threads[t := sec.phase];
    WakingKeepsHolders(mid, sec.wake, s'.threads, NoRole);
    if s.flags.writer || s.flags.upgrader {
      SectionClearsFlags(s, t, a, sec);
      assert mid[t] == sec.phase;
    } else {
      var v :| v in s.threads && s.threads[v].Owing?;
      assert s'.threads[v].Owing?;
    }
  }

  /** No exclusive locker at gate 1 and no writer at gate 2 loses its wakeup, in every state of every run in which no
      waiting writer reaches a deadline. */
  lemma {:induction false} NoLostWakeup(trace: seq<System>, moves: seq<Move>, i: nat)
    requires IsRun(trace, moves) && i < |trace|
    requires forall j {:trigger moves[j]} | 0 <= j < |moves| ::
               !WriterExpires(trace[j], moves[j].thread, moves[j].action)
    ensures Gate1Live(trace[i]) && WritersLive(trace[i])
  {
    if i > 0 {
      NoLostWakeup(trace, moves, i - 1);
      RunIsSafe(trace, moves, i - 1);
      StepKeepsGate1Live(trace[i - 1], moves[i - 1].thread, moves[i - 1].action, trace[i]);
      StepKeepsWritersLive(trace[i - 1], moves[i - 1].thread, moves[i - 1].action, trace[i]);
    }
  }

  /** Gate 2 loses no wakeup of a writer on any run, deadlines included. */
  lemma {:induction false} NoLostWakeupForWriters(trace: seq<System>, moves: seq<Move>, i: nat)
    requires IsRun(trace, moves) && i < |trace|
    ensures WritersLive(trace[i])
  {
    if i > 0 {
      NoLostWakeupForWriters(trace, moves, i - 1);
      RunIsSafe(trace, moves, i - 1);
      StepKeepsWritersLive(trace[i - 1], moves[i - 1].thread, moves[i - 1].action, trace[i]);
    }
  }

  /** The deadline of a waiting writer clears the flag and notifies nobody. The wakeups of gate 1 survive it exactly
      when no exclusive locker sleeps there or another thread still owes its notification. */
  lemma WriterExpiryAtGate1(s: System, t: ThreadId, a: Action, s': System)
    requires Safe(s) && Step(s, t, a, s') && WriterExpires(s, t, a)
    ensures Gate1Live(s') <==> !ExclusiveLockerSleeps(s) || SomeoneOwes(s)
  {
    SafeGivesRelies(s, t);
    assert !s'.flags.writer && !s'.flags.upgrader;
    assert forall u <- s.threads :: u != t ==> s'.threads[u] == s.threads[u];
    if u :| u in s.threads && StrandedUnlessFlagged(s.threads[u]) {
      assert StrandedUnlessFlagged(s'.threads[u]);
    }
    if v :| v in s.threads && s.threads[v].Owing? {
      assert s'.threads[v].Owing?;
    }
  }

  /** Whenever a waiting writer reaches its deadline, no exclusive locker sleeps or a notification is on its way. */
  ghost predicate ExpiriesHarmless(trace: seq<System>, moves: seq<Move>)
    requires |trace| == |moves| + 1
  {
    forall j {:trigger moves[j]} | 0 <= j < |moves| && WriterExpires(trace[j], moves[j].thread, moves[j].action) ::
      !ExclusiveLockerSleeps(trace[j]) || SomeoneOwes(trace[j])
  }

  /** No exclusive locker loses its wakeup at gate 1 on a run if and only if every deadline of a waiting writer is
      harmless. */
  lemma NoLostWakeupExactly(trace: seq<System>, moves: seq<Move>)
    requires IsRun(trace, moves)
    ensures (forall i | 0 <= i < |trace| :: Gate1Live(trace[i])) <==> ExpiriesHarmless(trace, moves)
  {
    forall j | 0 <= j < |moves|
      ensures Safe(trace[j]) && Step(trace[j], moves[j].thread, moves[j].action, trace[j + 1])
    {
      RunIsSafe(trace, moves, j);
    }
    if ExpiriesHarmless(trace, moves) {
      forall i | 0 <= i < |trace|
        ensures Gate1Live(trace[i])
      {
        HarmlessExpiriesKeepGate1(trace, moves, i);
      }
    } else {
      var j :| 0 <= j < |moves| && WriterExpires(trace[j], moves[j].thread, moves[j].action) &&
               ExclusiveLockerSleeps(trace[j]) && !SomeoneOwes(trace[j]);
      WriterExpiryAtGate1(trace[j], moves[j].thread, moves[j].action, trace[j + 1]);
      assert !Gate1Live(trace[j + 1]);
    }
  }

  lemma {:induction false} HarmlessExpiriesKeepGate1(trace: seq<System>, moves: seq<Move>, i: nat)
    requires IsRun(trace, moves) && i < |trace| && ExpiriesHarmless(trace, moves)
    ensures Gate1Live(trace[i])
  {
    if i > 0 {
      HarmlessExpiriesKeepGate1(trace, moves, i - 1);
      RunIsSafe(trace, moves, i - 1);
      var s, m := trace[i - 1], moves[i - 1];
      if WriterExpires(s, m.thread, m.action) {
        WriterExpiryAtGate1(s, m.thread, m.action, trace[i]);
      } else {
        StepKeepsGate1Live(s, m.thread, m.action, trace[i]);
      }
    }
  }

  /** A run that loses the wakeup: 0 reads, 1 enters as a timed writer, 2 asks for the lock and sleeps, 1 gives up,
      0 leaves. The word is zero, nobody owes anything, and 2 sleeps on. */
  lemma ExpiryStrandsALocker(max: nat) returns (trace: seq<System>, moves: seq<Move>)
    requires max > 1
    ensures IsRun(trace, moves) && |moves| == 5
    ensures var s := trace[5];
            && s.flags == UNLOCKED
            && s.threads == map[0 := Running(NoRole), 1 := Running(NoRole), 2 := AtGate1(Lock, false)]
            && !Gate1Live(s)
  {
    var idle, holds := Running(NoRole), Running(Reader);
    var waits, sleeps := AtGate2(TryLockUntil, false), AtGate1(Lock, false);
    var s0 := System(UNLOCKED, map[0 := idle, 1 := idle, 2 := idle], max);
    var s1, m1 := s0.(flags := Flags(false, false, 1), threads := s0.threads[0 := holds]), Move(0, Call(LockShared));
    var s2, m2 := s1.(flags := Flags(true, false, 1), threads := s1.threads[1 := waits]), Move(1, Call(TryLockUntil));
    var s3, m3 := s2.(threads := s2.threads[2 := sleeps]), Move(2, Call(Lock));
    var s4, m4 := s3.(flags := Flags(false, false, 1), threads := s3.threads[1 := idle]), Move(1, Expire);
    var s5, m5 := s4.(flags := UNLOCKED, threads := s4.threads[0 := idle]), Move(0, Call(UnlockShared));
    QuietStep(s0, m1, s1);
    QuietStep(s1, m2, s2);
    QuietStep(s2, m3, s3);
    QuietStep(s3, m4, s4);
    QuietStep(s4, m5, s5);
    trace, moves := [s0, s1, s2, s3, s4, s5], [m1, m2, m3, m4, m5];
    assert StrandedUnlessFlagged(s5.threads[2]);
  }

  /** A step that notifies nobody, given by its two states. */
  lemma QuietStep(s: System, m: Move, s': System)
    requires m.thread in s.threads && m.thread in s'.threads && s'.max == s.max
    requires var sec := Section(s'.flags, s'.threads[m.thread], WakeNone); IsSection(s, m.thread, m.action, sec)
    requires m.action.Expire? ==>
               Recheck(s.threads[m.thread], s.flags, s.max).phase == AsleepAgain(s.threads[m.thread])
    requires s'.threads == s.threads[m.thread := s'.threads[m.thread]]
    ensures Step(s, m.thread, m.action, s')
  {
  }

  /** Wakeups of shared lockers are weaker than those of exclusive ones. With the count full, `c` and `d` asleep and
      two owners leaving in turn, only the first departure notifies: `d` sleeps on beside a free place. */
  lemma FullCountStrandsAReader(s: System, a: ThreadId, b: ThreadId, c: ThreadId, d: ThreadId)
    returns (s1: System, s2: System)
    requires Safe(s) && s.flags.readers == s.max > 1 && !s.flags.writer && !SomeoneOwes(s)
    requires a in s.threads && b in s.threads && a != b
    requires s.threads[a] == s.threads[b] == Running(Reader)
    requires c in s.threads && d in s.threads && c != d
    requires s.threads[c] == s.threads[d] == AtGate1(LockShared, false)
    ensures Step(s, a, Call(UnlockShared), s1) && Step(s1, b, Call(UnlockShared), s2)
    ensures s2.threads == s.threads[a := Running(NoRole)][c := AtGate1(LockShared, true)][b := Running(NoRole)]
    ensures SleepsAtGate1(s2.threads[d]) && !SomeoneOwes(s2)
    ensures !s2.flags.writer && s2.flags.readers == s2.max - 2
  {
    var mid := s.threads[a := Running(NoRole)];
    assert Sleeps(mid[c], false);
    s1 := System(s.flags.(readers := s.max - 1), mid[c := Woken(mid[c])], s.max);
    s2 := System(s.flags.(readers := s.max - 2), s1.threads[b := Running(NoRole)], s.max);
    QuietStep(s1, Move(b, Call(UnlockShared)), s2);
  }

  // ---------------------------------------------------------------- progress of a writer

  /** While a writer is entered, only the writer itself ends that: its own release or its own deadline. Nobody else
      clears the flag, and nobody raises the reader count. */
  lemma StepUnderWriter(s: System, t: ThreadId, a: Action, s': System)
    requires Safe(s) && Step(s, t, a, s') && s.flags.writer
    requires s.threads[t] != Running(Writer) && !WriterExpires(s, t, a)
    ensures s'.flags.writer && s'.flags.readers <= s.flags.readers
    ensures a == Call(UnlockShared) ==> s'.flags.readers < s.flags.readers
  {
    if !a.Notify? {
      var sec := StepSection(s, t, a, s');
      SafeGivesRelies(s, t);
    }
  }

  /** Thread `w` has entered as the writer and waits at gate 2 for the readers to leave. */
  predicate AwaitsLastReader(s: System, w: ThreadId) {
    w in s.threads && s.threads[w].AtGate2? && Gate2Role(s.threads[w].op) == Writer
  }

  /** While thread `w` waits for readers, over any stretch of any run, the reader count never rises. */
  lemma {:induction false} WriterProgress(trace: seq<System>, moves: seq<Move>, i: nat, j: nat, w: ThreadId)
    requires IsRun(trace, moves) && i <= j < |trace|
    requires forall k {:trigger AwaitsLastReader(trace[k], w)} | i <= k <= j :: AwaitsLastReader(trace[k], w)
    ensures trace[j].flags.readers <= trace[i].flags.readers
  {
    if i < j {
      WriterProgress(trace, moves, i, j - 1, w);
      RunIsSafe(trace, moves, j - 1);
      assert AwaitsLastReader(trace[j - 1], w) && AwaitsLastReader(trace[j], w);
      StepBesideWriter(trace[j - 1], moves[j - 1].thread, moves[j - 1].action, trace[j], w);
    }
  }

  /** Once that count is zero, `w` has been notified, and its next turn makes it the exclusive owner. */
  lemma WriterGetsIn(trace: seq<System>, moves: seq<Move>, i: nat, w: ThreadId)
    requires IsRun(trace, moves) && i < |trace| && AwaitsLastReader(trace[i], w)
    ensures trace[i].flags.writer
    ensures var s := trace[i];
            s.flags.readers == 0 ==>
              && s.threads[w].notified
              && Recheck(s.threads[w], s.flags, s.max) == Section(s.flags, Running(Writer), WakeNone)
  {
    RunIsSafe(trace, moves, i);
    SafeGivesRelies(trace[i], w);
    NoLostWakeupForWriters(trace, moves, i);
  }

  lemma StepBesideWriter(s: System, t: ThreadId, a: Action, s': System, w: ThreadId)
    requires Safe(s) && Step(s, t, a, s')
    requires AwaitsLastReader(s, w) && AwaitsLastReader(s', w)
    ensures s'.flags.readers <= s.flags.readers
  {
    SafeGivesRelies(s, w);
    if RoleOf(s.threads[t]) == Writer {
      OnlyOneWriter(s, t, w);
      assert !WriterExpires(s, t, a);
    }
    StepUnderWriter(s, t, a, s');
  }

  // ---------------------------------------------------------------- shared_mutex

  /** The operations of shared_mutex. */
  predicate IsPlain(op: Op) {
    op in {Lock, TryLock, TryLockUntil, Unlock, LockShared, TryLockShared, TryLockSharedUntil, UnlockShared}
  }

  ghost predicate UsesPlainOps(s: System) {
    && !s.flags.upgrader
    && forall t <- s.threads ::
         && s.threads[t] != Running(Upgrader)
         && !s.threads[t].Owing?
         && (Asleep(s.threads[t]) ==> IsPlain(s.threads[t].op))
  }

  /** Under the operations of shared_mutex the upgrade flag stays clear, so the tests of `lock` reduce to the single
      flag that class tests, and no thread ever owes a notification. */
  lemma {:induction false} PlainRunsHaveOneFlag(trace: seq<System>, moves: seq<Move>, i: nat)
    requires IsRun(trace, moves) && i < |trace|
    requires forall j | 0 <= j < |moves| :: moves[j].action.Call? ==> IsPlain(moves[j].action.op)
    ensures UsesPlainOps(trace[i])
  {
    if i > 0 {
      PlainRunsHaveOneFlag(trace, moves, i - 1);
      RunIsSafe(trace, moves, i - 1);
      var s, t, a := trace[i - 1], moves[i - 1].thread, moves[i - 1].action;
      StepKeepsPlainOps(s, t, a, trace[i]);
    }
  }

  lemma StepKeepsPlainOps(s: System, t: ThreadId, a: Action, s': System)
    requires Safe(s) && UsesPlainOps(s) && Step(s, t, a, s')
    requires a.Call? ==> IsPlain(a.op)
    ensures UsesPlainOps(s')
  {
    if !a.Notify? {
      var sec := StepSection(s, t, a, s');
      WakingKeepsHolders(s.threads[t := sec.phase], sec.wake, s'.threads, NoRole);
      PlainSection(s, t, a, sec);
    }
  }

  lemma PlainSection(s: System, t: ThreadId, a: Action, sec: Section)
    requires UsesPlainOps(s) && t in s.threads && IsSection(s, t, a, sec)
    requires a.Call? ==> IsPlain(a.op)
    ensures !sec.flags.upgrader && sec.phase != Running(Upgrader) && !sec.phase.Owing?
    ensures Asleep(sec.phase) ==> IsPlain(sec.phase.op)
  {
  }
}
