/** One thread's list of locked mutexes, and the operations that lock and unlock one mutex or several. What the base
    mutex of a policy answers is a parameter: a mutex that is granted is in nobody's list. */
module LevelMutex {
  import opened Common
  import opened LevelMutexChain

  datatype MutexError =
    | Success | NoProblem | WrongLevel | LevelTooHigh | LevelTooLow | TryFailed | NullMutexPointer | DuplicateMutex
    | EmptyContainer | AlreadyLocked | WasntLocked | NotRecentLock | NotLockedByThread | MultiUnlockFailed | TimedOut
    | OtherError

  /** Is `a` locked after `b` by the discipline: at a lower level, or at the same one with a higher address? */
  ghost predicate Over(a: LevelMutexInfo, b: LevelMutexInfo) {
    a.level < b.level || (a.level == b.level && a.address > b.address)
  }

  ghost predicate InOrder(held: seq<LevelMutexInfo>) {
    forall i, j {:trigger Over(held[i], held[j])} | 0 <= i < j < |held| :: Over(held[i], held[j])
  }

  ghost predicate LinkAt(held: seq<LevelMutexInfo>, i: nat)
    requires i < |held|
    reads held`previous
  {
    held[i].previous == if i + 1 < |held| then held[i + 1] else null
  }

  ghost predicate Linked(current: LevelMutexInfo?, held: seq<LevelMutexInfo>)
    reads held`previous
  {
    && (if held == [] then current == null else current == held[0])
    && forall i | 0 <= i < |held| :: LinkAt(held, i)
  }

  ghost predicate AllLocked(held: seq<LevelMutexInfo>)
    reads held
  {
    forall i | 0 <= i < |held| :: held[i].count > 0 && held[i].level < UNLOCKED_LEVEL
  }

  ghost predicate NoNull(ms: seq<LevelMutexInfo?>) { forall i | 0 <= i < |ms| :: ms[i] != null }

  class ThreadLocks {
    var currentMutex: LevelMutexInfo?
    /** The mutexes in the list, newest first. */
    ghost var held: seq<LevelMutexInfo>

    ghost predicate Valid()
      reads this, held
    {
      Linked(currentMutex, held) && InOrder(held) && AllLocked(held)
    }

    function CurrentLevel(): nat
      reads this
    {
      if currentMutex == null then UNLOCKED_LEVEL else currentMutex.level
    }

    /** The mutexes at the current level are the newest `n`. */
    ghost predicate IsGroup(n: nat)
      reads this
    {
      && n <= |held|
      && (forall i | 0 <= i < n :: held[i].level == CurrentLevel())
      && (forall i | n <= i < |held| :: held[i].level != CurrentLevel())
    }

    /** Nothing about `m` has changed. */
    static twostate predicate Kept(m: LevelMutexInfo)
      reads m
    {
      m.count == old(m.count) && m.previous == old(m.previous)
    }

    constructor ()
      ensures Valid() && held == []
    {
      currentMutex, held := null, [];
    }

    // ---------------------------------------------------------------- walks along the list

    method CountMutexesAtCurrentLevel() returns (count: nat)
      requires Valid()
      ensures IsGroup(count) && (held != [] ==> count > 0)
    {
      var mutex := currentMutex;
      if mutex == null {
        return 0;
      }
      count := 0;
      var level := mutex.level;
      while mutex != null
        invariant count <= |held| && mutex == if count < |held| then held[count] else null
        invariant forall i | 0 <= i < count :: held[i].level == level
        decreases |held| - count
      {
        if level != mutex.level {
          break;
        }
        assert LinkAt(held, count);
        mutex := mutex.previous;
        count := count + 1;
      }
      forall i | count <= i < |held|
        ensures held[i].level != level
      {
        assert i == count || Over(held[count], held[i]);
        assert Over(held[0], held[count]);
      }
    }

    method IsLockedByCurrentThread(m: LevelMutexInfo) returns (locked: bool)
      requires Valid()
      ensures locked <==> m in held
    {
      if m.count == 0 {
        return false;
      }
      var mutex := currentMutex;
      ghost var k := 0;
      while mutex != null
        invariant 0 <= k <= |held| && mutex == if k < |held| then held[k] else null
        invariant m !in held[..k]
        decreases |held| - k
      {
        if m == mutex {
          return true;
        }
        assert LinkAt(held, k);
        mutex := mutex.previous;
        k := k + 1;
      }
      assert held[..k] == held;
      return false;
    }

    ghost function Newest(n: nat): seq<LevelMutexInfo>
      reads this
    {
      if n < |held| then held[..n] else held
    }

    method IsRecentLock(m: LevelMutexInfo, count: nat) returns (recent: bool)
      requires Valid()
      ensures recent <==> m in Newest(count)
    {
      if count == 0 {
        return false;
      }
      var mutex, left := currentMutex, count;
      while left > 0
        invariant 0 <= left <= count && count - left <= |held|
        invariant mutex == if count - left < |held| then held[count - left] else null
        invariant m !in held[..count - left]
        decreases left
      {
        if mutex == null {
          assert held[..count - left] == held;
          return false;
        }
        if m == mutex {
          return true;
        }
        assert LinkAt(held, count - left);
        mutex := mutex.previous;
        left := left - 1;
      }
      assert Newest(count) == held[..count];
      return false;
    }

    /** The mutexes of the list as a pointer structure. */
    ghost function Nodes(): set<LevelMutexInfo>
      reads this
    {
      set m | m in held
    }

    lemma {:induction false} ListedAt(k: nat)
      requires Valid()
      ensures Closed(Nodes()) && Within(currentMutex, Nodes())
      ensures Nth(currentMutex, k, Nodes()) == if k < |held| then held[k] else null
      decreases k
    {
      forall m | m in Nodes()
        ensures m.previous == null || m.previous in Nodes()
      {
        var i :| 0 <= i < |held| && held[i] == m;
        assert LinkAt(held, i);
      }
      if k > 0 {
        ListedAt(k - 1);
        assert k - 1 < |held| ==> LinkAt(held, k - 1);
      }
    }

    /** The assertion with which the operations begin holds for every list that they leave. */
    method CheckList() returns (valid: bool)
      requires Valid()
      ensures valid
    {
      ListedAt(|held|);
      forall k | 0 <= k
        ensures RisesAt(currentMutex, k, Nodes())
      {
        ListedAt(k);
        ListedAt(k + 1);
        assert k + 1 < |held| ==> Over(held[k], held[k + 1]);
      }
      valid := IsValidList(currentMutex, Nodes());
    }

    // ---------------------------------------------------------------- the list changes at its head

    ghost predicate MayPush(m: LevelMutexInfo)
      reads this, m
    {
      && m.count == 0 && m.previous == null && m.level < UNLOCKED_LEVEL
      && (held != [] ==> Over(m, held[0]))
    }

    method PostLock(m: LevelMutexInfo)
      requires Valid() && MayPush(m)
      modifies this, m
      ensures Valid() && held == [m] + old(held) && m.count == 1
    {
      ghost var was := held;
      m.count := 1;
      m.previous := currentMutex;
      currentMutex := m;
      held := [m] + held;
      forall i | 0 <= i < |held|
        ensures LinkAt(held, i)
      {
        assert i > 0 ==> LinkAt(was, i - 1);
      }
      forall i, j | 0 <= i < j < |held|
        ensures Over(held[i], held[j])
      {
        assert i > 0 ==> Over(was[i - 1], was[j - 1]);
        assert j > 1 ==> Over(was[0], was[j - 1]);
      }
    }

    method PreUnlock(m: LevelMutexInfo)
      requires Valid() && m == currentMutex && m.count == 1
      modifies this, m
      ensures Valid() && held == old(held)[1..] && m.count == 0 && m.previous == null
    {
      ghost var was := held;
      assert LinkAt(was, 0);
      currentMutex := m.previous;
      m.previous := null;
      m.count := 0;
      held := held[1..];
      forall i | 0 <= i < |held|
        ensures LinkAt(held, i)
      {
        assert Over(was[0], was[i + 1]) && was[i + 1] != m;
        assert old(LinkAt(was, i + 1));
      }
      forall i, j | 0 <= i < j < |held|
        ensures Over(held[i], held[j])
      {
        assert Over(was[i + 1], was[j + 1]);
      }
      assert forall j | 0 < j < |was| :: Over(was[0], was[j]) && was[j] != m;
    }

    // ---------------------------------------------------------------- the checks of one lock call

    ghost predicate InGroup(m: LevelMutexInfo?)
      reads this
    {
      m != null && m in held && m.level == CurrentLevel()
    }

    /** No problem means that the mutex is below the current level; success, that it was locked once more. */
    method PreLockCheck(m: LevelMutexInfo, forTryLock: bool) returns (result: MutexError)
      requires Valid()
      modifies m
      ensures Valid() && m.previous == old(m.previous)
      ensures result in {NoProblem, Success, AlreadyLocked, LevelTooHigh}
      ensures result == NoProblem <==> m.level < CurrentLevel() && !(forTryLock && old(m.count) > 0)
      ensures result == Success <==> InGroup(m)
      ensures result == AlreadyLocked <==> forTryLock && m.level <= CurrentLevel() && old(m.count) > 0 && m !in held
      ensures m.count == old(m.count) + if result == Success then 1 else 0
      ensures result == NoProblem ==> m !in held
    {
      var currentLevel := CurrentLevel();
      LevelsOfHeld();
      if currentLevel < m.level {
        return LevelTooHigh;
      }
      var lockedByThisThread := IsLockedByCurrentThread(m);
      if !lockedByThisThread && forTryLock && m.count > 0 {
        return AlreadyLocked;
      }
      if currentLevel == m.level {
        if lockedByThisThread {
          m.count := m.count + 1;
          return Success;
        } else {
          return LevelTooHigh;
        }
      }
      return NoProblem;
    }

    lemma LevelsOfHeld()
      requires Valid()
      ensures forall m | m in held :: CurrentLevel() <= m.level < UNLOCKED_LEVEL
    {
      assert forall j | 0 < j < |held| :: Over(held[0], held[j]);
    }

    method PreUnlockCheck(m: LevelMutexInfo) returns (result: MutexError)
      requires Valid()
      modifies m
      ensures Valid() && m.previous == old(m.previous)
      ensures result == NoProblem <==> InGroup(m) && old(m.count) == 1
      ensures result == Success <==> InGroup(m) && old(m.count) > 1
      ensures result == WasntLocked <==> old(m.count) == 0
      ensures result == LevelTooLow <==> old(m.count) > 0 && CurrentLevel() > m.level
      ensures result == LevelTooHigh <==> old(m.count) > 0 && CurrentLevel() < m.level
      ensures result == NotLockedByThread <==> old(m.count) > 0 && CurrentLevel() == m.level && m !in held
      ensures m.count == old(m.count) - if result == Success then 1 else 0
    {
      if m.count == 0 {
        return WasntLocked;
      }
      var currentLevel := CurrentLevel();
      if currentLevel > m.level {
        return LevelTooLow;
      }
      if currentLevel < m.level {
        return LevelTooHigh;
      }
      var lockedByThisThread := IsLockedByCurrentThread(m);
      if !lockedByThisThread {
        return NotLockedByThread;
      }
      if 1 < m.count {
        m.count := m.count - 1;
        return Success;
      }
      return NoProblem;
    }

    /** What the base mutex may answer when this thread asks for `m`: it is not granted while it is in a list. */
    ghost predicate CanAnswer(m: LevelMutexInfo, answer: MutexError)
      reads this, m
    {
      m.level < UNLOCKED_LEVEL && (answer == Success && m !in held ==> m.count == 0 && m.previous == null)
    }

    /** A lock call succeeds at a lower level if the mutex is granted, at the current one if the mutex is held. */
    method Lock(m: LevelMutexInfo, answer: MutexError) returns (result: MutexError)
      requires Valid() && CanAnswer(m, answer)
      modifies this, m
      ensures Valid()
      ensures result == Success <==> old(InGroup(m) || (m.level < CurrentLevel() && answer == Success))
      ensures old(m.level < CurrentLevel()) ==> result == answer
      ensures old(!InGroup(m) && m.level >= CurrentLevel()) ==> result == LevelTooHigh
      ensures result == Success && old(m !in held) ==> held == [m] + old(held) && m.count == 1
      ensures result == Success && old(m in held) ==>
                held == old(held) && m.count == old(m.count) + 1 && m.previous == old(m.previous)
      ensures result != Success ==> held == old(held) && currentMutex == old(currentMutex) && Kept(m)
    {
      LevelsOfHeld();
      result := PreLockCheck(m, false);
      if result != NoProblem {
        return;
      }
      result := answer;
      if result != Success {
        return;
      }
      PostLock(m);
    }

    /** As `Lock`, but a mutex that is locked elsewhere is left alone. */
    method TryLock(m: LevelMutexInfo, answer: MutexError) returns (result: MutexError)
      requires Valid() && CanAnswer(m, answer)
      modifies this, m
      ensures Valid()
      ensures result == Success <==>
                old(InGroup(m) || (m.level < CurrentLevel() && m.count == 0 && answer == Success))
      ensures old(m.level < CurrentLevel() && m.count == 0) ==> result == answer
      ensures old(m.level <= CurrentLevel() && m.count > 0 && m !in held) ==> result == AlreadyLocked
      ensures old(m.level > CurrentLevel() || (m.level == CurrentLevel() && m.count == 0)) ==> result == LevelTooHigh
      ensures result == Success && old(m !in held) ==> held == [m] + old(held) && m.count == 1
      ensures result == Success && old(m in held) ==>
                held == old(held) && m.count == old(m.count) + 1 && m.previous == old(m.previous)
      ensures result != Success ==> held == old(held) && currentMutex == old(currentMutex) && Kept(m)
    {
      LevelsOfHeld();
      result := PreLockCheck(m, true);
      if result != NoProblem {
        return;
      }
      result := answer;
      if result != Success {
        return;
      }
      PostLock(m);
    }

    /** Undoes one lock of a mutex at the current level. `None` says that the program stops at the assertion of
        `PreUnlock` that the mutex is the newest; that is so exactly for a member of the group that was locked once
        and is not. A base mutex that does not unlock is put back. */
    method Unlock(m: LevelMutexInfo, answer: MutexError) returns (result: Option<MutexError>)
      requires Valid()
      modifies this, m
      ensures Valid()
      ensures result == None <==> old(InGroup(m) && m.count == 1 && m != currentMutex)
      ensures result == Some(Success) <==>
                old(InGroup(m) && (m.count > 1 || (m.count == 1 && m == currentMutex && answer == Success)))
      ensures old(m.count == 1 && m == currentMutex) ==> result == Some(answer)
      ensures old(m.count == 0) ==> result == Some(WasntLocked)
      ensures old(m.count > 0 && m.level < CurrentLevel()) ==> result == Some(LevelTooLow)
      ensures old(m.count > 0 && m.level > CurrentLevel()) ==> result == Some(LevelTooHigh)
      ensures old(m.count > 0 && m.level == CurrentLevel() && m !in held) ==> result == Some(NotLockedByThread)
      ensures result == Some(Success) && old(m.count) > 1 ==>
                held == old(held) && m.count == old(m.count) - 1 && m.previous == old(m.previous)
      ensures result == Some(Success) && old(m.count) == 1 ==>
                old(held) == [m] + held && m.count == 0 && m.previous == null
      ensures result != Some(Success) ==> held == old(held) && currentMutex == old(currentMutex) && Kept(m)
    {
      var check := PreUnlockCheck(m);
      if check != NoProblem {
        return Some(check);
      }
      if m != currentMutex {
        return None;
      }
      check := ReleaseNewest(m, answer);
      return Some(check);
    }

    method ReleaseNewest(m: LevelMutexInfo, answer: MutexError) returns (result: MutexError)
      requires Valid() && m == currentMutex && m.count == 1
      modifies this, m
      ensures Valid() && result == answer
      ensures result == Success ==> old(held) == [m] + held && m.count == 0 && m.previous == null
      ensures result != Success ==> held == old(held) && currentMutex == old(currentMutex) && Kept(m)
    {
      ghost var was := held;
      assert LinkAt(was, 0);
      assert m.level < UNLOCKED_LEVEL && (|was| > 1 ==> Over(was[0], was[1]));
      PreUnlock(m);
      result := answer;
      if result != Success {
        PostLock(m);
        assert held == was;
        assert LinkAt(held, 0);
      }
    }

    // ---------------------------------------------------------------- does a container list the newest locks?

    /** The container lists, without nulls or repeats, precisely the mutexes held at the current level. */
    ghost predicate Matches(mutexes: seq<LevelMutexInfo?>)
      reads this
    {
      && mutexes != [] && NoNull(mutexes) && Distinct(mutexes)
      && (forall i | 0 <= i < |mutexes| :: InGroup(mutexes[i]))
      && (forall k | 0 <= k < |held| && held[k].level == CurrentLevel() :: held[k] in mutexes)
    }

    /** A matching container is as long as the group. */
    lemma MatchingSize(mutexes: seq<LevelMutexInfo?>, n: nat)
      requires Valid() && IsGroup(n) && Matches(mutexes)
      ensures n == |mutexes|
    {
      HeldDistinct();
      var group := held[..n];
      forall m | m in mutexes
        ensures m in group
      {
        var i :| 0 <= i < |held| && held[i] == m;
        assert i < n && group[i] == m;
      }
      forall m | m in group
        ensures m in mutexes
      {
        var i :| 0 <= i < n && group[i] == m;
        assert held[i] == m;
      }
      assert Elements<LevelMutexInfo?>(group) == Elements(mutexes);
      DistinctSize<LevelMutexInfo?>(mutexes);
      DistinctSize<LevelMutexInfo?>(group);
    }

    /** As many different recent locks at the current level as there are of them are all of them. */
    lemma SizeMatches(mutexes: seq<LevelMutexInfo?>, n: nat)
      requires Valid() && IsGroup(n) && n == |mutexes| > 0 && NoNull(mutexes) && Distinct(mutexes)
      requires forall i | 0 <= i < n :: mutexes[i] in Newest(n)
      ensures Matches(mutexes)
    {
      HeldDistinct();
      var group := held[..n];
      assert Newest(n) == group;
      forall i | 0 <= i < n
        ensures InGroup(mutexes[i])
      {
        var j :| 0 <= j < n && group[j] == mutexes[i];
        assert held[j] == mutexes[i];
      }
      DistinctSize<LevelMutexInfo?>(mutexes);
      DistinctSize<LevelMutexInfo?>(group);
      var inGroup, listed := Elements<LevelMutexInfo?>(group), Elements(mutexes);
      assert listed <= inGroup;
      SubsetSize(listed, inGroup);
      forall k | 0 <= k < |held| && held[k].level == CurrentLevel()
        ensures held[k] in mutexes
      {
        assert group[k] in inGroup;
      }
    }

    lemma HeldDistinct()
      requires Valid()
      ensures forall n | 0 <= n <= |held| :: Distinct(held[..n])
    {
      assert forall i, j | 0 <= i < j < |held| :: Over(held[i], held[j]) && held[i] != held[j];
    }

    lemma GroupExists() returns (n: nat)
      requires Valid()
      ensures IsGroup(n)
    {
      n := 0;
      while n < |held| && held[n].level == CurrentLevel()
        invariant n <= |held| && forall i | 0 <= i < n :: held[i].level == CurrentLevel()
      {
        n := n + 1;
      }
      forall i | n <= i < |held|
        ensures held[i].level != CurrentLevel()
      {
        assert i == n || Over(held[n], held[i]);
        assert n == 0 || Over(held[0], held[n]);
      }
    }

    static method IsUniqueMutex(mutexes: seq<LevelMutexInfo?>, at: nat) returns (unique: bool)
      requires at < |mutexes|
      ensures unique <==> mutexes[at] !in mutexes[at + 1..]
    {
      var i := at + 1;
      while i != |mutexes|
        invariant at < i <= |mutexes| && mutexes[at] !in mutexes[at + 1..i]
        decreases |mutexes| - i
      {
        if mutexes[i] == mutexes[at] {
          assert mutexes[at + 1..][i - at - 1] == mutexes[at];
          return false;
        }
        i := i + 1;
      }
      assert mutexes[at + 1..i] == mutexes[at + 1..];
      return true;
    }

    /** Mutexes have real levels. */
    static ghost predicate Leveled(mutexes: seq<LevelMutexInfo?>) {
      forall i | 0 <= i < |mutexes| :: mutexes[i] != null ==> mutexes[i].level < UNLOCKED_LEVEL
    }

    /** No element after position `i` equals the one there. */
    static ghost predicate LaterDiffer(mutexes: seq<LevelMutexInfo?>, i: nat)
      requires i < |mutexes|
    {
      mutexes[i] !in mutexes[i + 1..]
    }

    static lemma AllLaterDiffer(mutexes: seq<LevelMutexInfo?>)
      ensures (forall i | 0 <= i < |mutexes| :: LaterDiffer(mutexes, i)) <==> Distinct(mutexes)
    {
      if forall i | 0 <= i < |mutexes| :: LaterDiffer(mutexes, i) {
        forall i, j | 0 <= i < j < |mutexes|
          ensures mutexes[i] != mutexes[j]
        {
          assert LaterDiffer(mutexes, i);
          assert mutexes[i + 1..][j - i - 1] == mutexes[j];
        }
      }
    }

    /** What the code of a refused container says is wrong with it. */
    ghost predicate Refuses(result: MutexError, mutexes: seq<LevelMutexInfo?>)
      reads this
    {
      match result
      case EmptyContainer => mutexes == []
      case NullMutexPointer => !NoNull(mutexes)
      case WrongLevel => held != [] && exists m: LevelMutexInfo | m in mutexes :: m.level != CurrentLevel()
      case NotRecentLock => exists m: LevelMutexInfo | m in mutexes :: m !in Newest(|mutexes|)
      case DuplicateMutex => !Distinct(mutexes)
      case LevelTooHigh =>
        && NoNull(mutexes) && Distinct(mutexes)
        && (forall i | 0 <= i < |mutexes| :: InGroup(mutexes[i]))
        && exists m: LevelMutexInfo | m in held :: m.level == CurrentLevel() && m !in mutexes
      case _ => false
    }

    /** The checks of element `i`. */
    method CheckElement(mutexes: seq<LevelMutexInfo?>, i: nat) returns (result: MutexError)
      requires Valid() && Leveled(mutexes) && i < |mutexes|
      ensures result == Success ==>
                InGroup(mutexes[i]) && mutexes[i] in Newest(|mutexes|) && LaterDiffer(mutexes, i)
      ensures result != Success ==> result != EmptyContainer && Refuses(result, mutexes)
      ensures result != Success ==>
                !InGroup(mutexes[i]) || mutexes[i] !in Newest(|mutexes|) || !LaterDiffer(mutexes, i)
    {
      var mutex := mutexes[i];
      if mutex == null {
        return NullMutexPointer;
      }
      var currentLevel := CurrentLevel();
      assert mutex in mutexes;
      if currentLevel != mutex.level {
        return if currentLevel == UNLOCKED_LEVEL then NotRecentLock else WrongLevel;
      }
      var recent := IsRecentLock(mutex, |mutexes|);
      if !recent {
        return NotRecentLock;
      }
      var unique := IsUniqueMutex(mutexes, i);
      if !unique {
        AllLaterDiffer(mutexes);
        return DuplicateMutex;
      }
      return Success;
    }

    method DoMutexesMatchContainer(mutexes: seq<LevelMutexInfo?>) returns (result: MutexError)
      requires Valid() && Leveled(mutexes)
      ensures result == Success <==> Matches(mutexes)
      ensures result != Success ==> Refuses(result, mutexes)
    {
      var count := |mutexes|;
      if count == 0 {
        return EmptyContainer;
      }
      var i := 0;
      while i != count
        invariant 0 <= i <= count
        invariant forall j | 0 <= j < i ::
          InGroup(mutexes[j]) && mutexes[j] in Newest(count) && LaterDiffer(mutexes, j)
        decreases count - i
      {
        result := CheckElement(mutexes, i);
        if result != Success {
          MatchingPass(mutexes, i);
          return;
        }
        i := i + 1;
      }
      AllLaterDiffer(mutexes);
      var found := CountMutexesAtCurrentLevel();
      if count != found {
        MissingMember(mutexes, found);
        return LevelTooHigh;
      }
      SizeMatches(mutexes, count);
      return Success;
    }

    /** Every element of a matching container passes its checks. */
    lemma MatchingPass(mutexes: seq<LevelMutexInfo?>, i: nat)
      requires Valid() && i < |mutexes|
      ensures Matches(mutexes) ==> InGroup(mutexes[i]) && mutexes[i] in Newest(|mutexes|) && LaterDiffer(mutexes, i)
    {
      if Matches(mutexes) {
        var size := GroupExists();
        MatchingSize(mutexes, size);
        MatchingAreNewest(mutexes);
        AllLaterDiffer(mutexes);
      }
    }

    /** Different members of the group that are not as many as it has leave one out. */
    lemma MissingMember(mutexes: seq<LevelMutexInfo?>, n: nat)
      requires Valid() && IsGroup(n) && n != |mutexes| && NoNull(mutexes) && Distinct(mutexes)
      requires forall i | 0 <= i < |mutexes| :: InGroup(mutexes[i])
      ensures exists m: LevelMutexInfo | m in held :: m.level == CurrentLevel() && m !in mutexes
    {
      HeldDistinct();
      var group := held[..n];
      var inGroup, listed := Elements<LevelMutexInfo?>(group), Elements(mutexes);
      DistinctSize<LevelMutexInfo?>(mutexes);
      DistinctSize<LevelMutexInfo?>(group);
      forall m | m in listed
        ensures m in inGroup
      {
        assert InGroup(m);
        var k :| 0 <= k < |held| && held[k] == m;
        assert group[k] == m;
      }
      SubsetSize(listed, inGroup);
      assert inGroup != listed && !(inGroup <= listed);
      var m :| m in inGroup && m !in listed;
      assert m in held && m.level == CurrentLevel();
    }

    lemma MatchingAreNewest(mutexes: seq<LevelMutexInfo?>)
      requires Valid() && Matches(mutexes) && IsGroup(|mutexes|)
      ensures forall i | 0 <= i < |mutexes| :: mutexes[i] in Newest(|mutexes|)
    {
    }
  }
}
