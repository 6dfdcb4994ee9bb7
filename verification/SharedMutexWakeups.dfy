/** The sleepers that the gates treat worse than exclusive lockers and pending writers: the timed conversions at gate 2,
    which nobody ever notifies, and the shared and upgrade lockers at gate 1, which a full count can strand. */
module SharedMutexWakeups {
  import opened Common
  import opened SharedMutexSections
  import opened SharedMutexProtocol

  // ---------------------------------------------------------------- conversions at gate 2 are never notified

  /** A thread asleep at gate 2 with a share of its own, inside one of the timed conversions. */
  predicate IsConverter(p: Phase) { p.AtGate2? && Gate2Role(p.op) != Writer }

  ghost predicate ConvertersUnnotified(s: System) {
    forall t <- s.threads :: IsConverter(s.threads[t]) ==> !s.threads[t].notified
  }

  /** Two threads with shares make two readers. */
  lemma TwoShares(s: System, t: ThreadId, u: ThreadId)
    requires Safe(s) && t in s.threads && u in s.threads && t != u
    requires RoleOf(s.threads[t]) in {Reader, Upgrader} && RoleOf(s.threads[u]) in {Reader, Upgrader}
    ensures s.flags.readers >= 2
    ensures !(RoleOf(s.threads[t]) == RoleOf(s.threads[u]) == Upgrader)
  {
    HolderCounted(s, t);
    HolderCounted(s, u);
    if RoleOf(s.threads[t]) == RoleOf(s.threads[u]) {
      assert {t, u} <= Holders(s.threads, RoleOf(s.threads[t]));
      SubsetSize({t, u}, Holders(s.threads, RoleOf(s.threads[t])));
    }
  }

  /** The one notification of gate 2 comes from the last reader under a writer: no conversion is asleep then. */
  lemma StepKeepsUnnotified(s: System, t: ThreadId, a: Action, s': System)
    requires Safe(s) && ConvertersUnnotified(s) && Step(s, t, a, s')
    ensures ConvertersUnnotified(s')
  {
    if !a.Notify? {
      var sec := StepSection(s, t, a, s');
      forall u <- s'.threads | IsConverter(s'.threads[u])
        ensures !s'.threads[u].notified
      {
        StaysUnnotified(s, t, a, s', sec, u);
      }
    }
  }

  lemma Gate2Notifier(s: System, t: ThreadId, a: Action, sec: Section)
    requires Safe(s) && t in s.threads && IsSection(s, t, a, sec) && sec.wake == WakeOneGate2
    ensures a == Call(UnlockShared) && s.threads[t] == Running(Reader) && s.flags.readers == 1
  {
    SafeGivesRelies(s, t);
  }

  /** No other wakeup reaches gate 2. */
  lemma Gate2Unmoved(threads: Threads, wake: Wake, threads': Threads, u: ThreadId)
    requires Wakes(threads, wake, threads') && wake != WakeOneGate2 && u in threads'
    ensures u in threads && (threads'[u].AtGate2? || threads[u].AtGate2? ==> threads'[u] == threads[u])
  {
  }

  lemma StaysUnnotified(s: System, t: ThreadId, a: Action, s': System, sec: Section, u: ThreadId)
    requires Safe(s) && ConvertersUnnotified(s) && t in s.threads
    requires IsSection(s, t, a, sec) && Runs(s, t, sec, s') && u in s'.threads && IsConverter(s'.threads[u])
    ensures !s'.threads[u].notified
  {
    var mid := s.threads[t := sec.phase];
    if sec.wake == WakeOneGate2 {
      Gate2Notifier(s, t, a, sec);
      WakingKeepsHolders(mid, sec.wake, s'.threads, NoRole);
      assert u != t && IsConverter(s.threads[u]);
      TwoShares(s, t, u);
      assert false;
    } else {
      Gate2Unmoved(mid, sec.wake, s'.threads, u);
      if u == t {
        SleepsUnnotified(s, t, a, sec);
      }
    }
  }

  lemma SleepsUnnotified(s: System, t: ThreadId, a: Action, sec: Section)
    requires t in s.threads && IsSection(s, t, a, sec) && sec.phase.AtGate2?
    ensures !sec.phase.notified
  {
  }

  /** In every state of every run: a conversion asleep at gate 2 has not been notified. It wakes by its deadline, or
      spuriously. */
  lemma {:induction false} ConvertersNeverNotified(trace: seq<System>, moves: seq<Move>, i: nat)
    requires IsRun(trace, moves) && i < |trace|
    ensures ConvertersUnnotified(trace[i])
  {
    if i > 0 {
      ConvertersNeverNotified(trace, moves, i - 1);
      RunIsSafe(trace, moves, i - 1);
      StepKeepsUnnotified(trace[i - 1], moves[i - 1].thread, moves[i - 1].action, trace[i]);
    }
  }

  // ---------------------------------------------------------------- when one of them sleeps on for nothing

  /** An un-notified sleeper of gate 2 whose test would succeed. */
  predicate SleepsForNothing(p: Phase, f: Flags, max: nat) {
    SleepsAtGate2(p) && CanRecheck(p, f) && !Recheck(p, f, max).phase.AtGate2?
  }

  ghost predicate NobodySleepsForNothing(s: System) {
    forall u <- s.threads :: !SleepsForNothing(s.threads[u], s.flags, s.max)
  }

  /** Does the action of `t` let a sleeper of this operation in: does it leave the upgrader as the only reader, the
      reader as the only owner, or neither flag set? */
  ghost predicate LetsIn(s: System, t: ThreadId, a: Action, op: Op) {
    match op
    case TryUnlockUpgradeAndLockUntil =>
      a == Call(UnlockShared) && s.flags.readers == 2
    case TryUnlockSharedAndLockUntil =>
      || (a == Call(UnlockShared) && s.flags == Flags(false, false, 2))
      || (a == Call(UnlockUpgrade) && s.flags.readers == 2)
      || (WriterExpires(s, t, a) && s.flags.readers == 1)
    case TryUnlockSharedAndLockUpgradeUntil =>
      a in {Call(UnlockUpgrade), Call(UnlockUpgradeAndLockShared)} || WriterExpires(s, t, a)
    case _ => false
  }

  /** The action lets somebody in who sleeps at gate 2. */
  ghost predicate LetsSomebodyIn(s: System, t: ThreadId, a: Action) {
    exists u <- s.threads :: u != t && SleepsAtGate2(s.threads[u]) && LetsIn(s, t, a, s.threads[u].op)
  }

  lemma SectionLetsIn(s: System, t: ThreadId, a: Action, sec: Section, u: ThreadId)
    requires Safe(s) && t in s.threads && u in s.threads && u != t && IsSection(s, t, a, sec)
    requires IsConverter(s.threads[u]) && !SleepsForNothing(s.threads[u], s.flags, s.max) && SleepsAtGate2(s.threads[u])
    ensures SleepsForNothing(s.threads[u], sec.flags, s.max) <==> LetsIn(s, t, a, s.threads[u].op)
  {
    SafeGivesRelies(s, t);
    SafeGivesRelies(s, u);
    if RoleOf(s.threads[t]) in {Reader, Upgrader} {
      TwoShares(s, t, u);
    }
  }

  /** From a state in which nobody sleeps at gate 2 for nothing, a step leads to another one exactly if it lets nobody
      in. */
  lemma StepLetsIn(s: System, t: ThreadId, a: Action, s': System)
    requires Safe(s) && ConvertersUnnotified(s) && WritersLive(s) && NobodySleepsForNothing(s) && Step(s, t, a, s')
    ensures NobodySleepsForNothing(s') <==> !LetsSomebodyIn(s, t, a)
  {
    StepKeepsWritersLive(s, t, a, s');
    StepKeepsUnnotified(s, t, a, s');
    if !a.Notify? {
      var sec := StepSection(s, t, a, s');
      forall u <- s'.threads
        ensures SleepsForNothing(s'.threads[u], s'.flags, s'.max) <==>
                  u != t && SleepsAtGate2(s.threads[u]) && LetsIn(s, t, a, s.threads[u].op)
      {
        SleeperAfter(s, t, a, s', sec, u);
      }
    }
  }

  lemma SleeperAfter(s: System, t: ThreadId, a: Action, s': System, sec: Section, u: ThreadId)
    requires Safe(s) && ConvertersUnnotified(s) && NobodySleepsForNothing(s) && t in s.threads && u in s'.threads
    requires WritersLive(s') && ConvertersUnnotified(s') && Balanced(s.threads[t], s.flags, sec, s.max)
    requires IsSection(s, t, a, sec) && Runs(s, t, sec, s')
    ensures u in s.threads
    ensures SleepsForNothing(s'.threads[u], s'.flags, s'.max) <==>
              u != t && SleepsAtGate2(s.threads[u]) && LetsIn(s, t, a, s.threads[u].op)
  {
    var mid := s.threads[t := sec.phase];
    WakingKeepsHolders(mid, sec.wake, s'.threads, NoRole);
    if u == t {
      FreshSleeper(s, t, a, sec);
    } else if IsConverter(s.threads[u]) {
      SectionLetsIn(s, t, a, sec, u);
    }
  }

  /** Who has just gone to sleep at gate 2 has found its test to fail. */
  lemma FreshSleeper(s: System, t: ThreadId, a: Action, sec: Section)
    requires Safe(s) && t in s.threads && IsSection(s, t, a, sec)
    ensures !SleepsForNothing(sec.phase, sec.flags, s.max)
  {
    SafeGivesRelies(s, t);
  }

  ghost predicate NobodyIsLetIn(trace: seq<System>, moves: seq<Move>)
    requires |trace| == |moves| + 1
  {
    forall j {:trigger moves[j]} | 0 <= j < |moves| :: !LetsSomebodyIn(trace[j], moves[j].thread, moves[j].action)
  }

  /** On a run nobody ever sleeps at gate 2 for nothing if and only if no step of it lets such a sleeper in. */
  lemma NobodySleepsForNothingExactly(trace: seq<System>, moves: seq<Move>)
    requires IsRun(trace, moves)
    ensures (forall i | 0 <= i < |trace| :: NobodySleepsForNothing(trace[i])) <==>
            NobodyIsLetIn(trace, moves)
  {
    if NobodyIsLetIn(trace, moves) {
      forall i | 0 <= i < |trace|
        ensures NobodySleepsForNothing(trace[i])
      {
        NobodyLetIn(trace, moves, i);
      }
    } else {
      var j :| 0 <= j < |moves| && LetsSomebodyIn(trace[j], moves[j].thread, moves[j].action);
      if NobodySleepsForNothing(trace[j]) {
        ReachedStep(trace, moves, j);
        StepLetsIn(trace[j], moves[j].thread, moves[j].action, trace[j + 1]);
        assert !NobodySleepsForNothing(trace[j + 1]);
      }
    }
  }

  lemma ReachedStep(trace: seq<System>, moves: seq<Move>, j: nat)
    requires IsRun(trace, moves) && j < |moves|
    ensures Safe(trace[j]) && ConvertersUnnotified(trace[j]) && WritersLive(trace[j])
    ensures Step(trace[j], moves[j].thread, moves[j].action, trace[j + 1])
  {
    RunIsSafe(trace, moves, j);
    ConvertersNeverNotified(trace, moves, j);
    NoLostWakeupForWriters(trace, moves, j);
  }

  lemma {:induction false} NobodyLetIn(trace: seq<System>, moves: seq<Move>, i: nat)
    requires IsRun(trace, moves) && i < |trace|
    requires NobodyIsLetIn(trace, moves)
    ensures NobodySleepsForNothing(trace[i])
  {
    if i > 0 {
      NobodyLetIn(trace, moves, i - 1);
      ReachedStep(trace, moves, i - 1);
      StepLetsIn(trace[i - 1], moves[i - 1].thread, moves[i - 1].action, trace[i]);
    }
  }

  /** A run that lets a sleeper in and tells it nothing: 0 is the upgrader, 1 reads, 0 asks for exclusive ownership
      until a deadline and sleeps, 1 leaves. Nobody owes anything, and 0 sleeps on though its test would succeed. */
  lemma UpgraderSleepsForNothing(max: nat) returns (trace: seq<System>, moves: seq<Move>)
    requires max > 1
    ensures IsRun(trace, moves) && |moves| == 4
    ensures var s := trace[4];
            && s.flags == Flags(false, true, 1) && s.threads.Keys == {0, 1} && !SomeoneOwes(s)
            && s.threads[0] == AtGate2(TryUnlockUpgradeAndLockUntil, false)
            && Recheck(s.threads[0], s.flags, s.max) == Section(WRITTEN, Running(Writer), WakeNone)
            && !NobodySleepsForNothing(s)
  {
    var idle, sleeps := Running(NoRole), AtGate2(TryUnlockUpgradeAndLockUntil, false);
    var s0 := System(UNLOCKED, map[0 := idle, 1 := idle], max);
    var s1 := s0.(flags := Flags(false, true, 1), threads := s0.threads[0 := Running(Upgrader)]);
    var s2 := s1.(flags := Flags(false, true, 2), threads := s1.threads[1 := Running(Reader)]);
    var m1, m2 := Move(0, Call(LockUpgrade)), Move(1, Call(LockShared));
    var s3, m3 := s2.(threads := s2.threads[0 := sleeps]), Move(0, Call(TryUnlockUpgradeAndLockUntil));
    var s4, m4 := s3.(flags := Flags(false, true, 1), threads := s3.threads[1 := idle]), Move(1, Call(UnlockShared));
    assert Init(s0);
    QuietStep(s0, m1, s1);
    QuietStep(s1, m2, s2);
    QuietStep(s2, m3, s3);
    LeavesQuietly(s3, 1, s4);
    trace, moves := [s0, s1, s2, s3, s4], [m1, m2, m3, m4];
    assert SleepsForNothing(s4.threads[0], s4.flags, s4.max);
  }

  /** A reader that leaves when nobody sleeps at gate 1 and no writer is entered wakes nobody. */
  lemma LeavesQuietly(s: System, t: ThreadId, s': System)
    requires t in s.threads && s.threads[t] == Running(Reader) && s.flags.readers > 0 && !s.flags.writer
    requires forall u <- s.threads :: !SleepsAtGate1(s.threads[u])
    requires s' == System(s.flags.(readers := s.flags.readers - 1), s.threads[t := Running(NoRole)], s.max)
    ensures Step(s, t, Call(UnlockShared), s')
  {
    assert forall u <- s'.threads :: !Sleeps(s'.threads[u], false);
  }

  // ---------------------------------------------------------------- all sleepers of gate 1

  /** What keeps a sleeper of gate 1 out: a flag, and a full count unless it wants exclusive ownership. */
  predicate StaysOut(f: Flags, op: Op, max: nat) {
    || f.writer
    || (f.upgrader && op !in {LockShared, TryLockSharedUntil})
    || (f.readers == max && !IsExclusiveLocker(op))
  }

  /** It is exactly what sends it back to sleep there when it wakes. */
  lemma StaysOutMeans(op: Op, f: Flags, max: nat)
    requires WaitsAtGate1(op)
    ensures StaysOut(f, op, max) <==> Recheck(AtGate1(op, true), f, max).phase == AtGate1(op, false)
  {
  }

  /** Whoever sleeps un-notified at gate 1 would be sent back to sleep, or a notification is on its way. */
  ghost predicate SleepersLive(s: System) {
    forall u <- s.threads :: SleepsAtGate1(s.threads[u]) ==> StaysOut(s.flags, s.threads[u].op, s.max) || SomeoneOwes(s)
  }

  /** Some sleeper of gate 1 is not woken, though nothing keeps it out under `f`. */
  ghost predicate PassedOver(s: System, s': System, f: Flags) {
    exists u <- s.threads ::
      && u in s'.threads && SleepsAtGate1(s.threads[u]) && SleepsAtGate1(s'.threads[u])
      && !StaysOut(f, s.threads[u].op, s.max)
  }

  /** The step strands a sleeper of gate 1 whom nobody will notify: a reader leaves while the count is full and no
      writer is entered, or a writer gives up. */
  ghost predicate Strands(s: System, t: ThreadId, a: Action, s': System) {
    && !SomeoneOwes(s)
    && (|| (a == Call(UnlockShared) && 0 < s.flags.readers == s.max && !s.flags.writer
            && PassedOver(s, s', s.flags.(readers := s.max - 1)))
        || (WriterExpires(s, t, a) && PassedOver(s, s', s.flags.(writer := false))))
  }

  /** Any other section that ends what kept a sleeper out wakes gate 1 or leaves its thread owing that wakeup. */
  lemma SectionOpensGate1(s: System, t: ThreadId, a: Action, sec: Section, op: Op)
    requires Safe(s) && t in s.threads && IsSection(s, t, a, sec) && WaitsAtGate1(op)
    requires StaysOut(s.flags, op, s.max) && !StaysOut(sec.flags, op, s.max)
    ensures || sec.wake == WakeAllGate1 || sec.phase.Owing?
            || (a == Call(UnlockShared) && s.flags.readers == s.max && !s.flags.writer)
            || WriterExpires(s, t, a)
  {
    SafeGivesRelies(s, t);
  }

  lemma KeptOutSleeper(s: System, t: ThreadId, a: Action, sec: Section)
    requires Safe(s) && t in s.threads && IsSection(s, t, a, sec) && sec.phase.AtGate1?
    ensures StaysOut(sec.flags, sec.phase.op, s.max)
  {
    SafeGivesRelies(s, t);
  }

  /** What the two stranding actions do to the word, to the threads they do not wake, and to what is owed. */
  lemma StrandingSection(s: System, t: ThreadId, a: Action, sec: Section)
    requires Safe(s) && t in s.threads && IsSection(s, t, a, sec)
    ensures a == Call(UnlockShared) ==> 0 < s.flags.readers && sec.flags == s.flags.(readers := s.flags.readers - 1)
    ensures WriterExpires(s, t, a) ==> sec.flags == s.flags.(writer := false)
    ensures a == Call(UnlockShared) || WriterExpires(s, t, a) ==> sec.phase == Running(NoRole)
  {
    SafeGivesRelies(s, t);
  }

  lemma SleeperStaysLive(s: System, t: ThreadId, a: Action, s': System, sec: Section, u: ThreadId)
    requires Safe(s) && SleepersLive(s) && t in s.threads && !Strands(s, t, a, s')
    requires Balanced(s.threads[t], s.flags, sec, s.max) && Runs(s, t, sec, s') && IsSection(s, t, a, sec)
    requires u in s'.threads && SleepsAtGate1(s'.threads[u])
    ensures StaysOut(s'.flags, s'.threads[u].op, s.max) || SomeoneOwes(s')
  {
    var mid := s.threads[t := sec.phase];
    WakingKeepsHolders(mid, sec.wake, s'.threads, NoRole);
    if u == t {
      KeptOutSleeper(s, t, a, sec);
    } else if v :| v in s.threads && s.threads[v].Owing? {
      StillOwes(s, t, a, s', sec, v);
    } else if !StaysOut(s'.flags, s'.threads[u].op, s.max) {
      SleptBefore(s, t, sec, s', u);
      SafeGivesRelies(s, u);
      SectionOpensGate1(s, t, a, sec, s.threads[u].op);
      StrandingSection(s, t, a, sec);
      assert mid[t] == sec.phase;
    }
  }

  /** A thread that owes a notification can do nothing else. */
  lemma StillOwes(s: System, t: ThreadId, a: Action, s': System, sec: Section, v: ThreadId)
    requires t in s.threads && IsSection(s, t, a, sec) && Runs(s, t, sec, s') && v in s.threads && s.threads[v].Owing?
    ensures v in s'.threads && s'.threads[v].Owing?
  {
    WakingKeepsHolders(s.threads[t := sec.phase], sec.wake, s'.threads, NoRole);
  }

  /** A stranding step leaves the sleeper that it passes over without hope. */
  lemma StrandedAfter(s: System, t: ThreadId, a: Action, s': System, sec: Section)
    requires Safe(s) && t in s.threads && Strands(s, t, a, s') && Runs(s, t, sec, s') && IsSection(s, t, a, sec)
    ensures !SleepersLive(s')
  {
    StrandingSection(s, t, a, sec);
    WakingKeepsHolders(s.threads[t := sec.phase], sec.wake, s'.threads, NoRole);
    var u :| u in s.threads && u in s'.threads && SleepsAtGate1(s.threads[u]) && SleepsAtGate1(s'.threads[u]) &&
             !StaysOut(s'.flags, s.threads[u].op, s.max);
    assert SleepsAtGate1(s'.threads[u]);
    assert !SomeoneOwes(s');
  }

  /** From a state in which no sleeper of gate 1 has lost its wakeup, a step leads to another one exactly if it strands
      nobody. */
  lemma StepStrands(s: System, t: ThreadId, a: Action, s': System)
    requires Safe(s) && SleepersLive(s) && Step(s, t, a, s')
    ensures SleepersLive(s') <==> !Strands(s, t, a, s')
  {
    if !a.Notify? {
      var sec := StepSection(s, t, a, s');
      if Strands(s, t, a, s') {
        StrandedAfter(s, t, a, s', sec);
      } else {
        forall u <- s'.threads | SleepsAtGate1(s'.threads[u])
          ensures StaysOut(s'.flags, s'.threads[u].op, s'.max) || SomeoneOwes(s')
        {
          SleeperStaysLive(s, t, a, s', sec, u);
        }
      }
    }
  }

  /** On a run no sleeper of gate 1, shared, upgrade or exclusive, loses its wakeup if and only if no step strands
      one. */
  lemma SleepersLiveExactly(trace: seq<System>, moves: seq<Move>)
    requires IsRun(trace, moves)
    ensures (forall i | 0 <= i < |trace| :: SleepersLive(trace[i])) <==> NobodyStranded(trace, moves)
  {
    if NobodyStranded(trace, moves) {
      forall i | 0 <= i < |trace|
        ensures SleepersLive(trace[i])
      {
        SleepersStayLive(trace, moves, i);
      }
    } else {
      var j :| 0 <= j < |moves| && Strands(trace[j], moves[j].thread, moves[j].action, trace[j + 1]);
      if SleepersLive(trace[j]) {
        ReachedStep(trace, moves, j);
        StepStrands(trace[j], moves[j].thread, moves[j].action, trace[j + 1]);
        assert !SleepersLive(trace[j + 1]);
      }
    }
  }

  ghost predicate NobodyStranded(trace: seq<System>, moves: seq<Move>)
    requires |trace| == |moves| + 1
  {
    forall j {:trigger moves[j]} | 0 <= j < |moves| ::
      !Strands(trace[j], moves[j].thread, moves[j].action, trace[j + 1])
  }

  lemma {:induction false} SleepersStayLive(trace: seq<System>, moves: seq<Move>, i: nat)
    requires IsRun(trace, moves) && i < |trace| && NobodyStranded(trace, moves)
    ensures SleepersLive(trace[i])
  {
    if i > 0 {
      SleepersStayLive(trace, moves, i - 1);
      ReachedStep(trace, moves, i - 1);
      StepStrands(trace[i - 1], moves[i - 1].thread, moves[i - 1].action, trace[i]);
    }
  }

  /** `u` and `v` sleep at gate 1, and nothing keeps `u` out once a reader has left. */
  predicate Rivals(s: System, u: ThreadId, v: ThreadId) {
    && u in s.threads && v in s.threads && u != v && s.max > 0
    && SleepsAtGate1(s.threads[u]) && SleepsAtGate1(s.threads[v])
    && !StaysOut(s.flags.(readers := s.max - 1), s.threads[u].op, s.max)
  }

  /** The state of a reader about to leave a full count, with nobody owing a notification. */
  ghost predicate LeavesFull(s: System, t: ThreadId) {
    && Safe(s) && t in s.threads && s.threads[t] == Running(Reader)
    && s.flags.readers == s.max && !s.flags.writer && !SomeoneOwes(s)
  }

  lemma RivalOfStranded(s: System, t: ThreadId, s': System) returns (u: ThreadId, v: ThreadId)
    requires LeavesFull(s, t) && Step(s, t, Call(UnlockShared), s') && Strands(s, t, Call(UnlockShared), s')
    ensures Rivals(s, u, v)
  {
    var mid := s.threads[t := Running(NoRole)];
    u :| u in s.threads && u in s'.threads && SleepsAtGate1(s.threads[u]) && SleepsAtGate1(s'.threads[u]) &&
         !StaysOut(s.flags.(readers := s.max - 1), s.threads[u].op, s.max);
    assert Sleeps(mid[u], false);
    v :| v in mid && Sleeps(mid[v], false) && s'.threads == mid[v := Woken(mid[v])];
  }

  lemma RivalIsStranded(s: System, t: ThreadId, u: ThreadId, v: ThreadId) returns (s': System)
    requires LeavesFull(s, t) && Rivals(s, u, v)
    ensures Step(s, t, Call(UnlockShared), s') && Strands(s, t, Call(UnlockShared), s')
  {
    var mid := s.threads[t := Running(NoRole)];
    assert Sleeps(mid[v], false);
    s' := System(s.flags.(readers := s.max - 1), mid[v := Woken(mid[v])], s.max);
    assert SleepsAtGate1(s'.threads[u]);
  }

  /** Before a reader leaves a full count: somebody can be stranded exactly if two sleep at gate 1 and nothing keeps one
      of them out any more, because the one notification may go to the other. */
  lemma DepartureCanStrand(s: System, t: ThreadId)
    requires LeavesFull(s, t)
    ensures (exists s' :: Step(s, t, Call(UnlockShared), s') && Strands(s, t, Call(UnlockShared), s')) <==>
            (exists u, v :: Rivals(s, u, v))
  {
    if s' :| Step(s, t, Call(UnlockShared), s') && Strands(s, t, Call(UnlockShared), s') {
      var u, v := RivalOfStranded(s, t, s');
    }
    if u, v :| Rivals(s, u, v) {
      var s' := RivalIsStranded(s, t, u, v);
    }
  }

  // ---------------------------------------------------------------- a full count strands a reader

  function FirstThreads(total: nat): (s: set<ThreadId>)
    ensures forall i: nat :: i in s <==> i < total
  {
    if total == 0 then {} else FirstThreads(total - 1) + {total - 1}
  }

  /** The first `n` of the threads are readers, the others idle. */
  function Crowd(n: nat, total: nat): Threads {
    map i <- FirstThreads(total) :: if i < n then Running(Reader) else Running(NoRole)
  }

  lemma {:induction false} ReadersEnter(n: nat, max: nat) returns (trace: seq<System>, moves: seq<Move>)
    requires 0 < max && n <= max
    ensures IsRun(trace, moves) && |moves| == n && trace[n] == System(Flags(false, false, n), Crowd(n, max + 2), max)
    decreases n
  {
    var s := System(Flags(false, false, n), Crowd(n, max + 2), max);
    if n == 0 {
      trace, moves := [s], [];
    } else {
      trace, moves := ReadersEnter(n - 1, max);
      var before, m := trace[n - 1], Move(n - 1, Call(LockShared));
      assert s.threads == before.threads[n - 1 := Running(Reader)];
      QuietStep(before, m, s);
      trace, moves := Extended(trace, moves, m, s);
    }
  }

  lemma Extended(trace: seq<System>, moves: seq<Move>, m: Move, s: System)
    returns (trace': seq<System>, moves': seq<Move>)
    requires IsRun(trace, moves) && Step(trace[|moves|], m.thread, m.action, s)
    ensures trace' == trace + [s] && moves' == moves + [m] && IsRun(trace', moves')
  {
    trace', moves' := trace + [s], moves + [m];
    forall i {:trigger moves'[i]} | 0 <= i < |moves'|
      ensures Step(trace'[i], moves'[i].thread, moves'[i].action, trace'[i + 1])
    {
      assert i < |moves| ==> moves'[i] == moves[i];
    }
  }

  /** The count is full and two more readers are asleep. */
  lemma FullAndWaiting(max: nat) returns (trace: seq<System>, moves: seq<Move>)
    requires max > 1
    ensures IsRun(trace, moves) && |moves| == max + 2
    ensures var asleep := AtGate1(LockShared, false);
            trace[max + 2]
            == System(Flags(false, false, max), Crowd(max, max + 2)[max := asleep][max + 1 := asleep], max)
  {
    trace, moves := ReadersEnter(max, max);
    var s0 := trace[max];
    var s1 := s0.(threads := s0.threads[max := AtGate1(LockShared, false)]);
    var s2 := s1.(threads := s1.threads[max + 1 := AtGate1(LockShared, false)]);
    QuietStep(s0, Move(max, Call(LockShared)), s1);
    trace, moves := Extended(trace, moves, Move(max, Call(LockShared)), s1);
    QuietStep(s1, Move(max + 1, Call(LockShared)), s2);
    trace, moves := Extended(trace, moves, Move(max + 1, Call(LockShared)), s2);
  }

  /** A run for every size of the count: it is filled, two more readers sleep, two owners leave. The first departure
      notifies one sleeper, the second nobody: the other sleeps on beside free places and no flag. */
  lemma FullCountStrandsOnRun(max: nat) returns (trace: seq<System>, moves: seq<Move>)
    requires max > 1
    ensures IsRun(trace, moves) && |moves| == max + 4
    ensures var s := trace[max + 4];
            && s.flags == Flags(false, false, max - 2) && s.max == max && !SomeoneOwes(s) && !SleepersLive(s)
            && max + 1 in s.threads && s.threads[max + 1] == AtGate1(LockShared, false)
  {
    trace, moves := FullAndWaiting(max);
    var s2 := trace[max + 2];
    RunIsSafe(trace, moves, max + 2);
    var s3, s4 := FullCountStrandsAReader(s2, 0, 1, max, max + 1);
    trace, moves := Extended(trace, moves, Move(0, Call(UnlockShared)), s3);
    trace, moves := Extended(trace, moves, Move(1, Call(UnlockShared)), s4);
    assert SleepsAtGate1(s4.threads[max + 1]);
  }
}
