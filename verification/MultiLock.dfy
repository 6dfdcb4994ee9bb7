/** Locking and unlocking several mutexes of one level: all or nothing, and undone by its inverse. */
module MultiLocking {
  import opened Common
  import opened LevelMutexChain
  import opened LevelMutex

  type Answers = map<LevelMutexInfo, MutexError>

  /** Pointers identify mutexes. */
  ghost predicate AddressesIdentify(mutexes: seq<LevelMutexInfo?>) {
    forall i, j | 0 <= i < |mutexes| && 0 <= j < |mutexes| && mutexes[i] != null && mutexes[j] != null ::
      mutexes[i].address == mutexes[j].address ==> mutexes[i] == mutexes[j]
  }

  ghost predicate Rising(ms: seq<LevelMutexInfo>) { forall i, j | 0 <= i < j < |ms| :: ms[i].address < ms[j].address }

  ghost predicate AtLevel(ms: seq<LevelMutexInfo>, level: nat) { forall i | 0 <= i < |ms| :: ms[i].level == level }

  /** The first `n` mutexes were locked last, one after the other. */
  ghost predicate Piled(held: seq<LevelMutexInfo>, ms: seq<LevelMutexInfo>, n: nat) {
    n <= |ms| && n <= |held| && forall j | 0 <= j < n :: held[n - 1 - j] == ms[j]
  }

  // ---------------------------------------------------------------- one mutex of a container

  method LockThis(t: ThreadLocks, m: LevelMutexInfo, answer: MutexError) returns (result: MutexError)
    requires t.Valid() && (answer == Success ==> t.MayPush(m))
    modifies t, m
    ensures t.Valid() && result == answer
    ensures result == Success ==> t.held == [m] + old(t.held) && m.count == 1
    ensures result != Success ==>
              t.held == old(t.held) && t.currentMutex == old(t.currentMutex) && ThreadLocks.Kept(m)
  {
    if answer != Success {
      return answer;
    }
    t.PostLock(m);
    return Success;
  }

  /** `None` says that the program stops at the assertion of `PreUnlock` that the mutex is the newest. */
  method UnlockThis(t: ThreadLocks, m: LevelMutexInfo, answer: MutexError) returns (result: Option<MutexError>)
    requires t.Valid() && m in t.held
    modifies t, m
    ensures t.Valid() && (result == None <==> old(m.count == 1 && m != t.currentMutex))
    ensures result == None ==> t.held == old(t.held) && t.currentMutex == old(t.currentMutex) && ThreadLocks.Kept(m)
    ensures result != None ==> m.count == old(m.count) - 1
    ensures old(m.count) > 1 ==> result == Some(Success) && t.held == old(t.held) && m.previous == old(m.previous)
    ensures result != None && old(m.count) == 1 ==>
              result == Some(answer) && t.held == old(t.held)[1..] && m.previous == null
  {
    if 1 < m.count {
      m.count := m.count - 1;
      return Some(Success);
    }
    if m != t.currentMutex {
      return None;
    }
    t.PreUnlock(m);
    return Some(answer);
  }

  // ---------------------------------------------------------------- locking in order, or not at all

  /** What the base mutexes may answer this thread: a mutex that is in a list is not granted. */
  ghost predicate CanAnswerAll(t: ThreadLocks, ms: seq<LevelMutexInfo>, answers: Answers)
    reads t, ms
  {
    forall i | 0 <= i < |ms| :: ms[i] in answers && t.CanAnswer(ms[i], answers[ms[i]])
  }

  ghost predicate AllGranted(ms: seq<LevelMutexInfo>, n: nat, answers: Answers)
    requires n <= |ms|
  {
    forall i | 0 <= i < n :: ms[i] in answers && answers[ms[i]] == Success
  }

  /** The first `n` mutexes have been locked once each on top of `rest`. */
  ghost predicate LockedOnTop(t: ThreadLocks, ms: seq<LevelMutexInfo>, n: nat, rest: seq<LevelMutexInfo>)
    reads t, ms
  {
    && Piled(t.held, ms, n) && |t.held| == n + |rest| && t.held[n..] == rest
    && forall j | 0 <= j < n :: ms[j].count == 1
  }

  lemma PileGrows(held: seq<LevelMutexInfo>, ms: seq<LevelMutexInfo>, n: nat, rest: seq<LevelMutexInfo>)
    requires n < |ms| && Piled(held, ms, n) && |held| == n + |rest| && held[n..] == rest
    ensures var after := [ms[n]] + held; Piled(after, ms, n + 1) && after[n + 1..] == rest
  {
  }

  /** Locks the next mutex in the order of the addresses, if it is granted. */
  method LockNext(t: ThreadLocks, ms: seq<LevelMutexInfo>, i: nat, level: nat, ghost rest: seq<LevelMutexInfo>,
                  answer: MutexError)
    returns (result: MutexError)
    requires t.Valid() && i < |ms| && Rising(ms) && AtLevel(ms, level) && LockedOnTop(t, ms, i, rest)
    requires level < UNLOCKED_LEVEL && (rest != [] ==> level < rest[0].level)
    requires answer == Success ==> ms[i].count == 0 && ms[i].previous == null
    modifies t, ms[i]
    ensures t.Valid() && result == answer
    ensures result == Success ==> LockedOnTop(t, ms, i + 1, rest)
    ensures result != Success ==> LockedOnTop(t, ms, i, rest) && ThreadLocks.Kept(ms[i])
  {
    assert t.held != [] ==> t.held[0] == if i > 0 then ms[i - 1] else rest[0];
    PileGrows(t.held, ms, i, rest);
    result := LockThis(t, ms[i], answer);
  }

  /** Locks mutexes in the order of their addresses until one is not granted. */
  method LockWhileGranted(t: ThreadLocks, ms: seq<LevelMutexInfo>, level: nat, answers: Answers)
    returns (result: MutexError, n: nat)
    requires t.Valid() && Rising(ms) && AtLevel(ms, level) && level < t.CurrentLevel()
    requires CanAnswerAll(t, ms, answers)
    modifies t, ms
    ensures t.Valid() && n <= |ms| && LockedOnTop(t, ms, n, old(t.held)) && AllGranted(ms, n, answers)
    ensures forall j | n <= j < |ms| :: ThreadLocks.Kept(ms[j])
    ensures if result == Success then n == |ms| else n < |ms| && ms[n] in answers && answers[ms[n]] == result
  {
    ghost var was := t.held;
    t.LevelsOfHeld();
    assert forall i | 0 <= i < |ms| :: ms[i] !in was && ms[i].level == level;
    result, n := Success, 0;
    while n < |ms|
      invariant 0 <= n <= |ms| && t.Valid() && LockedOnTop(t, ms, n, was)
      invariant AllGranted(ms, n, answers) && result == Success
      invariant forall j | n <= j < |ms| :: ThreadLocks.Kept(ms[j])
    {
      result := LockNext(t, ms, n, level, was, answers[ms[n]]);
      if result != Success {
        return;
      }
      n := n + 1;
    }
  }

  method UndoNext(t: ThreadLocks, ms: seq<LevelMutexInfo>, k: nat, ghost rest: seq<LevelMutexInfo>)
    requires t.Valid() && Rising(ms) && k < |ms| && LockedOnTop(t, ms, k + 1, rest)
    modifies t, ms[k]
    ensures t.Valid() && LockedOnTop(t, ms, k, rest) && ms[k].count == 0 && ms[k].previous == null
  {
    ghost var was := t.held;
    assert was[0] == ms[k];
    var answer := UnlockThis(t, ms[k], Success);
    forall j | 0 <= j < k
      ensures t.held[k - 1 - j] == ms[j]
    {
      assert was[k - j] == ms[j];
    }
  }

  /** Unlocks the first `n` mutexes, which were locked one after the other, in the opposite order. */
  method Undo(t: ThreadLocks, ms: seq<LevelMutexInfo>, n: nat, ghost rest: seq<LevelMutexInfo>)
    requires t.Valid() && Rising(ms) && n <= |ms| && LockedOnTop(t, ms, n, rest)
    modifies t, ms
    ensures t.Valid() && t.held == rest
    ensures forall i | 0 <= i < n :: ms[i].count == 0 && ms[i].previous == null
    ensures forall i | n <= i < |ms| :: ThreadLocks.Kept(ms[i])
  {
    var k := n;
    while k > 0
      invariant 0 <= k <= n && t.Valid() && LockedOnTop(t, ms, k, rest)
      invariant forall i | n <= i < |ms| :: ThreadLocks.Kept(ms[i])
      invariant forall i | k <= i < n :: ms[i].count == 0 && ms[i].previous == null
    {
      k := k - 1;
      UndoNext(t, ms, k, rest);
    }
  }

  /** Locks all the mutexes, in the order of their addresses, or none: if one is not granted, those before it are
      unlocked again. */
  method LockInOrder(t: ThreadLocks, ms: seq<LevelMutexInfo>, level: nat, answers: Answers) returns (result: MutexError)
    requires t.Valid() && Rising(ms) && AtLevel(ms, level) && level < t.CurrentLevel()
    requires CanAnswerAll(t, ms, answers)
    modifies t, ms
    ensures t.Valid()
    ensures result == Success <==> AllGranted(ms, |ms|, answers)
    ensures result != Success ==> exists m | m in ms && m in answers :: result == answers[m]
    ensures result == Success ==> LockedOnTop(t, ms, |ms|, old(t.held))
    ensures result != Success ==> t.held == old(t.held) && forall i | 0 <= i < |ms| :: ThreadLocks.Kept(ms[i])
  {
    t.LevelsOfHeld();
    ghost var was := t.held;
    var n;
    result, n := LockWhileGranted(t, ms, level, answers);
    if result != Success {
      Undo(t, ms, n, was);
    }
  }

  // ---------------------------------------------------------------- sorting

  ghost function Members(ms: seq<LevelMutexInfo?>): set<LevelMutexInfo?> { Elements(ms) }

  method FindPlace(ms: seq<LevelMutexInfo>, m: LevelMutexInfo) returns (k: nat)
    requires Rising(ms) && forall i | 0 <= i < |ms| :: ms[i].address != m.address
    ensures k <= |ms|
    ensures forall i | 0 <= i < k :: ms[i].address < m.address
    ensures forall i | k <= i < |ms| :: m.address < ms[i].address
  {
    k := 0;
    while k < |ms| && ms[k].address < m.address
      invariant k <= |ms| && forall i | 0 <= i < k :: ms[i].address < m.address
    {
      k := k + 1;
    }
  }

  lemma InsertMember(ms: seq<LevelMutexInfo>, k: nat, m: LevelMutexInfo)
    requires k <= |ms|
    ensures Members(ms[..k] + [m] + ms[k..]) == Members(ms) + {m}
  {
  }

  /** The mutexes of a container in the order of their addresses. */
  method Sorted(mutexes: seq<LevelMutexInfo?>) returns (ms: seq<LevelMutexInfo>)
    requires NoNull(mutexes) && Distinct(mutexes) && AddressesIdentify(mutexes)
    ensures Rising(ms) && |ms| == |mutexes| && Members(ms) == Members(mutexes)
  {
    ms := [];
    var i := 0;
    while i < |mutexes|
      invariant 0 <= i <= |mutexes| && Rising(ms) && |ms| == i && Members(ms) == Members(mutexes[..i])
    {
      var m := mutexes[i];
      forall j | 0 <= j < |ms|
        ensures ms[j].address != m.address
      {
        assert ms[j] in Members(mutexes[..i]);
        var k :| 0 <= k < i && mutexes[..i][k] == ms[j];
        assert mutexes[k] == ms[j];
      }
      var k := FindPlace(ms, m);
      InsertMember(ms, k, m);
      assert mutexes[..i + 1] == mutexes[..i] + [m];
      ms := ms[..k] + [m] + ms[k..];
      i := i + 1;
    }
    assert mutexes[..i] == mutexes;
  }

  // ---------------------------------------------------------------- locking a container

  /** No nulls, no repeats, one level. */
  ghost predicate Uniform(mutexes: seq<LevelMutexInfo?>) {
    && mutexes != [] && NoNull(mutexes) && Distinct(mutexes)
    && forall i | 0 <= i < |mutexes| :: mutexes[i].level == mutexes[0].level
  }

  /** Some mutex of the container has another level than the first. */
  ghost predicate Mixed(mutexes: seq<LevelMutexInfo?>) {
    exists i :: 0 < i < |mutexes| && mutexes[0] != null && mutexes[i] != null && mutexes[i].level != mutexes[0].level
  }

  /** The code of a refused container tells what is wrong with it: first what the first element shows, then the others,
      then the mutex that was not granted. */
  ghost predicate Explains(result: MutexError, mutexes: seq<LevelMutexInfo?>, currentLevel: nat, answers: Answers) {
    if mutexes == [] then result == EmptyContainer
    else if mutexes[0] == null then result == NullMutexPointer
    else if mutexes[0] in mutexes[1..] then result == DuplicateMutex
    else if currentLevel <= mutexes[0].level then result == LevelTooHigh
    else if !Uniform(mutexes) then
      || (result == NullMutexPointer && !NoNull(mutexes))
      || (result == WrongLevel && Mixed(mutexes))
      || (result == DuplicateMutex && !Distinct(mutexes))
    else exists m | m in mutexes && m in answers :: result == answers[m]
  }

  /** The checks of all elements but the first. */
  method CheckOthers(mutexes: seq<LevelMutexInfo?>) returns (result: MutexError)
    requires mutexes != [] && mutexes[0] != null && ThreadLocks.LaterDiffer(mutexes, 0)
    ensures result == Success <==> Uniform(mutexes)
    ensures result in {Success, NullMutexPointer, WrongLevel, DuplicateMutex}
    ensures result == NullMutexPointer ==> !NoNull(mutexes)
    ensures result == WrongLevel ==> Mixed(mutexes)
    ensures result == DuplicateMutex ==> !Distinct(mutexes)
  {
    ThreadLocks.AllLaterDiffer(mutexes);
    var i := 1;
    while i != |mutexes|
      invariant 1 <= i <= |mutexes|
      invariant forall j | 0 <= j < i ::
        mutexes[j] != null && mutexes[j].level == mutexes[0].level && ThreadLocks.LaterDiffer(mutexes, j)
      decreases |mutexes| - i
    {
      if mutexes[i] == null {
        return NullMutexPointer;
      }
      if mutexes[i].level != mutexes[0].level {
        return WrongLevel;
      }
      var unique := ThreadLocks.IsUniqueMutex(mutexes, i);
      if !unique {
        return DuplicateMutex;
      }
      i := i + 1;
    }
    return Success;
  }

  method IncrementAll(t: ThreadLocks, mutexes: seq<LevelMutexInfo?>)
    requires t.Valid() && NoNull(mutexes) && Distinct(mutexes)
    modifies set m: LevelMutexInfo | m in mutexes
    ensures t.Valid()
    ensures forall i | 0 <= i < |mutexes| ::
              mutexes[i].count == old(mutexes[i].count) + 1 && mutexes[i].previous == old(mutexes[i].previous)
  {
    var i := 0;
    while i != |mutexes|
      invariant 0 <= i <= |mutexes| && t.Valid()
      invariant forall j | 0 <= j < |mutexes| ::
        && mutexes[j].count == old(mutexes[j].count) + (if j < i then 1 else 0)
        && mutexes[j].previous == old(mutexes[j].previous)
      decreases |mutexes| - i
    {
      assert mutexes[i] in mutexes;
      mutexes[i].count := mutexes[i].count + 1;
      i := i + 1;
    }
  }

  ghost predicate CanAnswerFor(t: ThreadLocks, mutexes: seq<LevelMutexInfo?>, answers: Answers)
    reads t, set m: LevelMutexInfo | m in mutexes
  {
    forall i | 0 <= i < |mutexes| && mutexes[i] != null ::
      mutexes[i] in answers && t.CanAnswer(mutexes[i], answers[mutexes[i]])
  }

  ghost predicate GrantedFor(mutexes: seq<LevelMutexInfo?>, answers: Answers) {
    forall i | 0 <= i < |mutexes| && mutexes[i] != null :: mutexes[i] in answers && answers[mutexes[i]] == Success
  }

  /** The container can be locked anew: one level, below the current one, and every mutex is granted. */
  ghost predicate LocksAnew(t: ThreadLocks, mutexes: seq<LevelMutexInfo?>, answers: Answers)
    reads t
  {
    Uniform(mutexes) && mutexes[0].level < t.CurrentLevel() && GrantedFor(mutexes, answers)
  }

  /** All or nothing: the mutexes go on top of the list, locked once each, or those at the current level are locked once
      more, or nothing has changed. */
  method MultiLock(t: ThreadLocks, mutexes: seq<LevelMutexInfo?>, answers: Answers) returns (result: MutexError)
    requires t.Valid() && ThreadLocks.Leveled(mutexes)
    requires AddressesIdentify(mutexes) && CanAnswerFor(t, mutexes, answers)
    modifies t, set m: LevelMutexInfo | m in mutexes
    ensures t.Valid()
    ensures result == Success <==> old(LocksAnew(t, mutexes, answers) || t.Matches(mutexes))
    ensures result != Success ==> Explains(result, mutexes, old(t.CurrentLevel()), answers)
    ensures old(LocksAnew(t, mutexes, answers)) ==>
              && |t.held| == |mutexes| + |old(t.held)| && t.held[|mutexes|..] == old(t.held)
              && forall i | 0 <= i < |mutexes| :: mutexes[i] in t.held[..|mutexes|] && mutexes[i].count == 1
    ensures old(t.Matches(mutexes)) ==>
              && t.held == old(t.held)
              && forall i | 0 <= i < |mutexes| ::
                   mutexes[i].count == old(mutexes[i].count) + 1 && mutexes[i].previous == old(mutexes[i].previous)
    ensures result != Success ==>
              && t.held == old(t.held)
              && forall i | 0 <= i < |mutexes| && mutexes[i] != null :: ThreadLocks.Kept(mutexes[i])
  {
    if mutexes == [] {
      return EmptyContainer;
    }
    if mutexes[0] == null {
      return NullMutexPointer;
    }
    var unique := ThreadLocks.IsUniqueMutex(mutexes, 0);
    if !unique {
      ThreadLocks.AllLaterDiffer(mutexes);
      assert !ThreadLocks.LaterDiffer(mutexes, 0);
      return DuplicateMutex;
    }
    var checkLevel, currentLevel := mutexes[0].level, t.CurrentLevel();
    if currentLevel < checkLevel {
      return LevelTooHigh;
    }
    if currentLevel == checkLevel {
      result := t.DoMutexesMatchContainer(mutexes);
      if result != Success {
        return if currentLevel == UNLOCKED_LEVEL then result else LevelTooHigh;
      }
      IncrementAll(t, mutexes);
      return Success;
    }
    result := CheckOthers(mutexes);
    if result != Success {
      return;
    }
    result := LockUniform(t, mutexes, answers);
  }

  lemma SameMembers(ms: seq<LevelMutexInfo>, mutexes: seq<LevelMutexInfo?>)
    requires Members(ms) == Members(mutexes)
    ensures forall i | 0 <= i < |ms| :: ms[i] in mutexes
    ensures forall i | 0 <= i < |mutexes| :: mutexes[i] in ms
  {
    assert forall i | 0 <= i < |ms| :: ms[i] in Members(mutexes);
    assert forall i | 0 <= i < |mutexes| :: mutexes[i] in Members(ms);
  }

  lemma SortedForm(t: ThreadLocks, ms: seq<LevelMutexInfo>, mutexes: seq<LevelMutexInfo?>, answers: Answers)
    requires Members(ms) == Members(mutexes) && Uniform(mutexes) && CanAnswerFor(t, mutexes, answers)
    ensures AtLevel(ms, mutexes[0].level) && CanAnswerAll(t, ms, answers)
    ensures AllGranted(ms, |ms|, answers) <==> GrantedFor(mutexes, answers)
  {
    SameMembers(ms, mutexes);
    forall i | 0 <= i < |ms|
      ensures exists j :: 0 <= j < |mutexes| && mutexes[j] == ms[i]
    {
      assert ms[i] in mutexes;
    }
    forall i | 0 <= i < |mutexes|
      ensures exists j :: 0 <= j < |ms| && ms[j] == mutexes[i]
    {
      assert mutexes[i] in ms;
    }
  }

  lemma PiledMembers(held: seq<LevelMutexInfo>, ms: seq<LevelMutexInfo>, m: LevelMutexInfo?)
    requires Piled(held, ms, |ms|) && m in ms
    ensures m in held[..|ms|]
  {
  }

  /** Sorts a container that has passed the checks, and locks it. */
  method LockUniform(t: ThreadLocks, mutexes: seq<LevelMutexInfo?>, answers: Answers) returns (result: MutexError)
    requires t.Valid() && Uniform(mutexes) && mutexes[0].level < t.CurrentLevel()
    requires AddressesIdentify(mutexes) && CanAnswerFor(t, mutexes, answers)
    modifies t, set m: LevelMutexInfo | m in mutexes
    ensures t.Valid()
    ensures result == Success <==> GrantedFor(mutexes, answers)
    ensures exists m | m in mutexes && m in answers :: result == answers[m]
    ensures result == Success ==>
              && |t.held| == |mutexes| + |old(t.held)| && t.held[|mutexes|..] == old(t.held)
              && forall i | 0 <= i < |mutexes| :: mutexes[i] in t.held[..|mutexes|] && mutexes[i].count == 1
    ensures result != Success ==>
              t.held == old(t.held) && forall i | 0 <= i < |mutexes| :: ThreadLocks.Kept(mutexes[i])
  {
    var ms := Sorted(mutexes);
    SameMembers(ms, mutexes);
    SortedForm(t, ms, mutexes, answers);
    result := LockInOrder(t, ms, mutexes[0].level, answers);
    forall i | 0 <= i < |mutexes|
      ensures exists j :: 0 <= j < |ms| && ms[j] == mutexes[i]
      ensures result == Success ==> mutexes[i] in t.held[..|mutexes|]
    {
      assert mutexes[i] in ms;
      if result == Success {
        PiledMembers(t.held, ms, mutexes[i]);
      }
    }
  }
}
