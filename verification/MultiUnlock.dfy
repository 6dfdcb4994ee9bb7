/** Unlocking a container: when it can be done, what it leaves, and why nested locking and unlocking changes nothing. */
module MultiUnlocking {
  import opened Common
  import opened LevelMutexChain
  import opened LevelMutex
  import opened MultiLocking

  /** No mutex of a group has been locked again without the older ones of the group: its counts, newest first. */
  ghost predicate Nested(counts: seq<nat>) {
    forall i, j | 0 <= i < j < |counts| && counts[i] > 1 :: counts[j] > 1
  }

  // ---------------------------------------------------------------- unlocking a container

  ghost function Counts(held: seq<LevelMutexInfo>, n: nat): (counts: seq<nat>)
    requires n <= |held|
    reads held
    ensures |counts| == n && forall i | 0 <= i < n :: counts[i] == held[i].count
  {
    seq(n, i requires 0 <= i < n reads held => held[i].count)
  }

  lemma {:induction false} RisingUnique(a: seq<LevelMutexInfo>, b: seq<LevelMutexInfo>)
    requires Rising(a) && Rising(b) && Members(a) == Members(b) && |a| == |b|
    ensures a == b
    decreases |a|
  {
    if a != [] {
      var x := a[|a| - 1];
      assert x in Members(a);
      assert x in b;
      var last := b[|b| - 1];
      assert last in Members(b);
      assert last in a;
      assert x == last;
      InitMembers(a);
      InitMembers(b);
      RisingUnique(a[..|a| - 1], b[..|b| - 1]);
      assert a == a[..|a| - 1] + [x] && b == b[..|b| - 1] + [x];
    }
  }

  lemma InitMembers(a: seq<LevelMutexInfo>)
    requires a != [] && Rising(a)
    ensures Members(a[..|a| - 1]) == Members(a) - {a[|a| - 1]}
  {
  }

  /** The newest `n`, oldest first. */
  ghost function OldestFirst(held: seq<LevelMutexInfo>, n: nat): (s: seq<LevelMutexInfo>)
    requires n <= |held|
    ensures |s| == n && forall k | 0 <= k < n :: s[k] == held[n - 1 - k]
  {
    seq(n, k requires 0 <= k < n <= |held| => held[n - 1 - k])
  }

  lemma OldestFirstRises(t: ThreadLocks, n: nat)
    requires t.Valid() && t.IsGroup(n)
    ensures Rising(OldestFirst(t.held, n))
  {
    assert forall i, j | 0 <= i < j < n :: Over(t.held[i], t.held[j]);
  }

  lemma OldestFirstMembers(t: ThreadLocks, mutexes: seq<LevelMutexInfo?>, n: nat)
    requires t.Valid() && t.IsGroup(n) && t.Matches(mutexes)
    ensures Members(OldestFirst(t.held, n)) == Members(mutexes)
  {
    var group := OldestFirst(t.held, n);
    forall m | m in Members(mutexes)
      ensures m in Members(group)
    {
      var i :| 0 <= i < |mutexes| && mutexes[i] == m;
      assert t.InGroup(mutexes[i]);
      var k :| 0 <= k < |t.held| && t.held[k] == m;
      assert group[n - 1 - k] == m;
    }
    forall m | m in Members(group)
      ensures m in Members(mutexes)
    {
      var k :| 0 <= k < n && group[k] == m;
      assert t.held[n - 1 - k] in mutexes;
    }
  }

  /** The sorted container of a matching group is the group, oldest first. */
  lemma SortedGroup(t: ThreadLocks, mutexes: seq<LevelMutexInfo?>, ms: seq<LevelMutexInfo>)
    requires t.Valid() && t.Matches(mutexes) && Rising(ms) && Members(ms) == Members(mutexes) && |ms| == |mutexes|
    ensures Piled(t.held, ms, |ms|)
  {
    var n := t.GroupExists();
    t.MatchingSize(mutexes, n);
    OldestFirstRises(t, n);
    OldestFirstMembers(t, mutexes, n);
    RisingUnique(ms, OldestFirst(t.held, n));
  }

  /** Of the group `was[..|counts|]` with these counts, the newest `p` have been unlocked and the newest `r` have
      left. */
  ghost predicate Unlocked(t: ThreadLocks, was: seq<LevelMutexInfo>, counts: seq<nat>, p: nat, r: nat)
    reads t, was
  {
    && r <= p <= |counts| <= |was| && t.held == was[r..]
    && forall j {:trigger UnlockedAt(was, counts, p, r, j)} | 0 <= j < |counts| :: UnlockedAt(was, counts, p, r, j)
  }

  ghost predicate UnlockedAt(was: seq<LevelMutexInfo>, counts: seq<nat>, p: nat, r: nat, j: nat)
    requires j < |counts| <= |was|
    reads was[j]
  {
    && was[j].count + (if j < p then 1 else 0) == counts[j]
    && (j < r ==> counts[j] == 1 && was[j].previous == null)
    && (r <= j < p ==> counts[j] > 1)
  }

  lemma StartsUnlocked(t: ThreadLocks, n: nat)
    requires n <= |t.held|
    ensures Unlocked(t, t.held, Counts(t.held, n), 0, 0)
  {
  }

  lemma UnlockedMeans(t: ThreadLocks, was: seq<LevelMutexInfo>, counts: seq<nat>, p: nat, r: nat)
    requires Unlocked(t, was, counts, p, r)
    ensures forall j | 0 <= j < p :: was[j].count + 1 == counts[j]
    ensures forall j | p <= j < |counts| :: was[j].count == counts[j]
    ensures forall j | 0 <= j < r :: counts[j] == 1 && was[j].previous == null
    ensures forall j | r <= j < p :: counts[j] > 1
  {
    forall j | 0 <= j < |counts|
      ensures if j < p then was[j].count + 1 == counts[j] else was[j].count == counts[j]
      ensures (j < r ==> counts[j] == 1 && was[j].previous == null) && (r <= j < p ==> counts[j] > 1)
    {
      assert UnlockedAt(was, counts, p, r, j);
    }
  }

  /** Unlocks the next member, or stops: at one that was locked once while a newer one is still in the list. */
  method UnlockNext(t: ThreadLocks, m: LevelMutexInfo, answer: MutexError,
                    ghost was: seq<LevelMutexInfo>, ghost counts: seq<nat>, ghost p: nat, ghost r: nat)
    returns (result: Option<MutexError>, ghost r': nat)
    requires t.Valid() && Unlocked(t, was, counts, p, r) && p < |counts| && m == was[p] && InOrder(was)
    modifies t, m
    ensures t.Valid() && (result == None <==> counts[p] == 1 && r < p)
    ensures result == None ==> Unlocked(t, was, counts, p, r) && r' == r && m.count == 1 && m != t.currentMutex
    ensures result != None ==> Unlocked(t, was, counts, p + 1, r')
    ensures result != None ==>
              if counts[p] == 1 then r' == p + 1 && result == Some(answer) else r' == r && result == Some(Success)
  {
    assert t.held[p - r] == m;
    assert forall j | 0 <= j < |was| && j != p :: was[j] != m by {
      assert forall j | 0 <= j < p :: Over(was[j], was[p]);
      assert forall j | p < j < |was| :: Over(was[p], was[j]);
    }
    assert t.currentMutex == was[r] && UnlockedAt(was, counts, p, r, p);
    assert r < p ==> UnlockedAt(was, counts, p, r, r);
    result := UnlockThis(t, m, answer);
    r' := if counts[p] == 1 && result != None then p + 1 else r;
    ghost var p' := if result == None then p else p + 1;
    forall j | 0 <= j < |counts|
      ensures UnlockedAt(was, counts, p', r', j)
    {
      assert old(UnlockedAt(was, counts, p, r, j));
    }
  }

  lemma GrantedGrows(ms: seq<LevelMutexInfo>, p: nat, answers: Answers)
    requires p < |ms| && ms[p] in answers
    ensures AllGranted(ms, p + 1, answers) <==> AllGranted(ms, p, answers) && answers[ms[p]] == Success
  {
  }

  /** The newest `p` members have been unlocked, and `failed` tells whether all their base mutexes did. */
  ghost predicate Through(t: ThreadLocks, was: seq<LevelMutexInfo>, counts: seq<nat>, p: nat, r: nat, failed: bool,
                          answers: Answers)
    reads t, was
  {
    Unlocked(t, was, counts, p, r) && (failed <==> !AllGranted(was, r, answers))
  }

  /** The run has stopped at member `p` of the group: it was locked once, and is not the newest mutex. */
  ghost predicate StoppedAt(t: ThreadLocks, was: seq<LevelMutexInfo>, counts: seq<nat>, p: nat, r: nat)
    reads t, was
  {
    r < p < |counts| && Unlocked(t, was, counts, p, r) && was[p].count == 1 && was[p] != t.currentMutex
  }

  /** One turn of the loop: remembers whether a base mutex did not unlock. */
  method UnlockTurn(t: ThreadLocks, m: LevelMutexInfo, answers: Answers, failed: bool,
                    ghost was: seq<LevelMutexInfo>, ghost counts: seq<nat>, ghost p: nat, ghost r: nat)
    returns (stopped: bool, failed': bool, ghost r': nat)
    requires t.Valid() && Through(t, was, counts, p, r, failed, answers)
    requires p < |counts| && m == was[p] && m in answers && InOrder(was)
    modifies t, m
    ensures t.Valid() && (stopped ==> r' == r && StoppedAt(t, was, counts, p, r))
    ensures !stopped ==> Through(t, was, counts, p + 1, r', failed', answers)
  {
    GrantedGrows(was, p, answers);
    var result;
    result, r' := UnlockNext(t, m, answers[m], was, counts, p, r);
    stopped, failed' := result == None, failed || result != Some(Success);
  }

  /** Unlocks a group, newest first, until it is through or has to stop. */
  method UnlockGroup(t: ThreadLocks, ms: seq<LevelMutexInfo>, answers: Answers,
                     ghost was: seq<LevelMutexInfo>, ghost counts: seq<nat>)
    returns (stopped: bool, failed: bool, p: nat, ghost removed: nat)
    requires t.Valid() && |counts| == |ms| && Unlocked(t, was, counts, 0, 0)
    requires Piled(was, ms, |ms|) && InOrder(was) && forall i | 0 <= i < |ms| :: ms[i] in answers
    modifies t, ms
    ensures t.Valid() && (stopped ==> StoppedAt(t, was, counts, p, removed))
    ensures !stopped ==> Unlocked(t, was, counts, |ms|, removed) && (failed <==> !AllGranted(was, removed, answers))
  {
    failed, p, removed := false, 0, 0;
    while p < |ms|
      invariant 0 <= p <= |ms| && t.Valid() && Through(t, was, counts, p, removed, failed, answers)
    {
      stopped, failed, removed := UnlockAt(t, ms, p, answers, failed, was, counts, removed);
      if stopped {
        return;
      }
      p := p + 1;
    }
    stopped := false;
  }

  /** The turn of the `p`-th newest member. */
  method UnlockAt(t: ThreadLocks, ms: seq<LevelMutexInfo>, p: nat, answers: Answers, failed: bool,
                  ghost was: seq<LevelMutexInfo>, ghost counts: seq<nat>, ghost r: nat)
    returns (stopped: bool, failed': bool, ghost r': nat)
    requires t.Valid() && |counts| == |ms| && Through(t, was, counts, p, r, failed, answers) && p < |ms|
    requires Piled(was, ms, |ms|) && InOrder(was) && forall i | 0 <= i < |ms| :: ms[i] in answers
    modifies t, ms
    ensures t.Valid() && (stopped ==> r' == r && StoppedAt(t, was, counts, p, r))
    ensures !stopped ==> Through(t, was, counts, p + 1, r', failed', answers)
  {
    var i := |ms| - 1 - p;
    assert was[|ms| - 1 - i] == ms[i];
    stopped, failed', r' := UnlockTurn(t, ms[i], answers, failed, was, counts, p, r);
  }

  lemma StoppedIsNotNested(t: ThreadLocks, was: seq<LevelMutexInfo>, counts: seq<nat>, p: nat, r: nat)
    requires StoppedAt(t, was, counts, p, r)
    ensures !Nested(counts)
  {
    assert UnlockedAt(was, counts, p, r, r) && UnlockedAt(was, counts, p, r, p);
  }

  lemma ThroughIsNested(t: ThreadLocks, was: seq<LevelMutexInfo>, counts: seq<nat>, r: nat)
    requires Unlocked(t, was, counts, |counts|, r)
    ensures Nested(counts)
  {
    UnlockedMeans(t, was, counts, |counts|, r);
  }

  /** Sorts and unlocks a matching container. It gets through exactly if the counts are nested. */
  method UnlockMatching(t: ThreadLocks, mutexes: seq<LevelMutexInfo?>, answers: Answers)
    returns (stopped: bool, failed: bool, ghost removed: nat)
    requires t.Valid() && t.Matches(mutexes) && AddressesIdentify(mutexes) && |mutexes| <= |t.held|
    requires forall i | 0 <= i < |mutexes| && mutexes[i] != null :: mutexes[i] in answers
    modifies t, set m: LevelMutexInfo | m in mutexes
    ensures t.Valid() && (stopped <==> !Nested(old(Counts(t.held, |mutexes|))))
    ensures stopped ==> exists p :: StoppedAt(t, old(t.held), old(Counts(t.held, |mutexes|)), p, removed)
    ensures !stopped ==>
              && Unlocked(t, old(t.held), old(Counts(t.held, |mutexes|)), |mutexes|, removed)
              && (failed <==> !AllGranted(old(t.held), removed, answers))
  {
    var ms := Sorted(mutexes);
    SortedGroup(t, mutexes, ms);
    SameMembers(ms, mutexes);
    ghost var was, counts := t.held, Counts(t.held, |mutexes|);
    StartsUnlocked(t, |mutexes|);
    var p;
    stopped, failed, p, removed := UnlockGroup(t, ms, answers, was, counts);
    if stopped {
      StoppedIsNotNested(t, was, counts, p, removed);
    } else {
      ThroughIsNested(t, was, counts, removed);
    }
  }

  /** Takes one lock off every mutex of a matching container, and those that were locked once off the list; `removed` is
      their number. `None` says that the program stops at an assertion of `PreUnlock`: exactly if the counts are not
      nested, at a member that was locked once and is not the newest mutex. Other containers are left alone. */
  method MultiUnlock(t: ThreadLocks, mutexes: seq<LevelMutexInfo?>, answers: Answers)
    returns (result: Option<MutexError>, ghost removed: nat)
    requires t.Valid() && ThreadLocks.Leveled(mutexes) && AddressesIdentify(mutexes)
    requires forall i | 0 <= i < |mutexes| && mutexes[i] != null :: mutexes[i] in answers
    modifies t, set m: LevelMutexInfo | m in mutexes
    ensures t.Valid()
    ensures !old(t.Matches(mutexes)) ==>
              && result.Some? && result.value !in {Success, MultiUnlockFailed}
              && t.Refuses(result.value, mutexes) && t.held == old(t.held)
              && forall i | 0 <= i < |mutexes| && mutexes[i] != null :: ThreadLocks.Kept(mutexes[i])
    ensures old(t.Matches(mutexes)) ==> |mutexes| <= |old(t.held)|
    ensures old(t.Matches(mutexes)) ==> (result == None <==> !Nested(old(Counts(t.held, |mutexes|))))
    ensures result == None ==> exists p :: StoppedAt(t, old(t.held), old(Counts(t.held, |mutexes|)), p, removed)
    ensures old(t.Matches(mutexes)) && result != None ==>
              && Unlocked(t, old(t.held), old(Counts(t.held, |mutexes|)), |mutexes|, removed)
              && result == Some(if AllGranted(old(t.held), removed, answers) then Success else MultiUnlockFailed)
  {
    removed := 0;
    var check := t.DoMutexesMatchContainer(mutexes);
    if check != Success {
      return Some(check), 0;
    }
    ghost var n := t.GroupExists();
    t.MatchingSize(mutexes, n);
    var stopped, failed;
    stopped, failed, removed := UnlockMatching(t, mutexes, answers);
    result := if stopped then None else Some(if failed then MultiUnlockFailed else Success);
  }

  // ---------------------------------------------------------------- nested calls

  /** The members of a container that was just locked are the newest of the list, and no others. */
  lemma NewestAreMembers(t: ThreadLocks, mutexes: seq<LevelMutexInfo?>, k: nat)
    requires t.Valid() && Distinct(mutexes) && |mutexes| <= |t.held| && k < |mutexes|
    requires forall i | 0 <= i < |mutexes| :: mutexes[i] in t.held[..|mutexes|]
    ensures t.held[k] in mutexes
  {
    var group := t.held[..|mutexes|];
    t.HeldDistinct();
    DistinctSize<LevelMutexInfo?>(mutexes);
    DistinctSize<LevelMutexInfo?>(group);
    assert Members(mutexes) <= Members(group);
    SubsetSize(Members(mutexes), Members(group));
    assert group[k] in Members(group);
  }

  lemma LockedAnewMatches(t: ThreadLocks, mutexes: seq<LevelMutexInfo?>, rest: seq<LevelMutexInfo>)
    requires t.Valid() && Uniform(mutexes) && |t.held| == |mutexes| + |rest| && t.held[|mutexes|..] == rest
    requires forall i | 0 <= i < |mutexes| :: mutexes[i] in t.held[..|mutexes|]
    requires rest != [] ==> mutexes[0].level < rest[0].level
    ensures t.Matches(mutexes)
  {
    var n := |mutexes|;
    forall k | 0 <= k < n
      ensures t.held[k] in mutexes && t.held[k].level == mutexes[0].level
    {
      NewestAreMembers(t, mutexes, k);
    }
    forall k | n <= k < |t.held|
      ensures t.held[k].level != t.CurrentLevel()
    {
      assert t.held[n] == rest[0];
      assert k == n || Over(t.held[n], t.held[k]);
    }
  }

  /** A call of `MultiLock` that, if it succeeds, is followed by more such calls and then by `MultiUnlock`. */
  datatype Nest = Nest(mutexes: seq<LevelMutexInfo?>, answers: Answers, body: seq<Nest>)

  /** All containers are made of `all`, and only mutexes of `free` are granted. */
  ghost predicate Playable(nest: Nest, all: set<LevelMutexInfo>, free: set<LevelMutexInfo>)
    decreases nest
  {
    && ThreadLocks.Leveled(nest.mutexes) && AddressesIdentify(nest.mutexes)
    && (forall i | 0 <= i < |nest.mutexes| && nest.mutexes[i] != null ::
         && nest.mutexes[i] in all && nest.mutexes[i] in nest.answers
         && (nest.answers[nest.mutexes[i]] == Success ==> nest.mutexes[i] in free))
    && forall i | 0 <= i < |nest.body| :: Playable(nest.body[i], all, free)
  }

  ghost predicate NobodyElses(t: ThreadLocks, free: set<LevelMutexInfo>)
    reads t, free
  {
    forall m | m in free :: m in t.held || (m.count == 0 && m.previous == null)
  }

  /** The container was just locked anew, on top of `rest`. */
  ghost predicate JustLocked(t: ThreadLocks, mutexes: seq<LevelMutexInfo?>, rest: seq<LevelMutexInfo>)
    reads t, set m: LevelMutexInfo | m in mutexes
  {
    && Uniform(mutexes) && |t.held| == |mutexes| + |rest| && t.held[|mutexes|..] == rest
    && (rest != [] ==> mutexes[0].level < rest[0].level)
    && forall i | 0 <= i < |mutexes| :: mutexes[i] in t.held[..|mutexes|] && mutexes[i].count == 1
  }

  /** The container is the group, and was locked again. */
  ghost predicate LockedAgain(t: ThreadLocks, mutexes: seq<LevelMutexInfo?>)
    reads t, set m: LevelMutexInfo | m in mutexes
  {
    t.Matches(mutexes) && forall i | 0 <= i < |mutexes| :: mutexes[i].count > 1
  }

  lemma NestedEitherWay(t: ThreadLocks, mutexes: seq<LevelMutexInfo?>, rest: seq<LevelMutexInfo>)
    requires t.Valid() && (JustLocked(t, mutexes, rest) || LockedAgain(t, mutexes))
    ensures t.Matches(mutexes) && |mutexes| <= |t.held| && Nested(Counts(t.held, |mutexes|))
    ensures forall k | 0 <= k < |mutexes| :: t.held[k] in mutexes
    ensures forall i | 0 <= i < |mutexes| :: mutexes[i] in t.held[..|mutexes|]
  {
    if JustLocked(t, mutexes, rest) {
      LockedAnewMatches(t, mutexes, rest);
    }
    var n := t.GroupExists();
    t.MatchingSize(mutexes, n);
    t.MatchingAreNewest(mutexes);
    assert t.Newest(n) == t.held[..n];
    forall k | 0 <= k < |mutexes|
      ensures t.held[k] in mutexes
    {
      NewestAreMembers(t, mutexes, k);
    }
  }

  /** `MultiUnlock` undoes the last `MultiLock`. */
  method UnlockBack(t: ThreadLocks, mutexes: seq<LevelMutexInfo?>, answers: Answers,
                    ghost anew: bool, ghost rest: seq<LevelMutexInfo>)
    requires t.Valid() && ThreadLocks.Leveled(mutexes) && AddressesIdentify(mutexes)
    requires forall i | 0 <= i < |mutexes| && mutexes[i] != null :: mutexes[i] in answers
    requires if anew then JustLocked(t, mutexes, rest) else LockedAgain(t, mutexes)
    modifies t, set m: LevelMutexInfo | m in mutexes
    ensures t.Valid() && NoNull(mutexes) && t.held == if anew then rest else old(t.held)
    ensures forall i | 0 <= i < |mutexes| :: mutexes[i].count == old(mutexes[i].count) - 1
    ensures anew ==> forall i | 0 <= i < |mutexes| :: mutexes[i].previous == null
    ensures !anew ==> forall i | 0 <= i < |mutexes| :: mutexes[i].previous == old(mutexes[i].previous)
  {
    NestedEitherWay(t, mutexes, rest);
    ghost var was := t.held;
    ghost var counts := Counts(was, |mutexes|);
    var result, removed := MultiUnlock(t, mutexes, answers);
    UnlockedMeans(t, was, counts, |mutexes|, removed);
    assert forall k | 0 <= k < |mutexes| :: was[k] in mutexes;
    forall i | 0 <= i < |mutexes|
      ensures exists k :: 0 <= k < |mutexes| && was[k] == mutexes[i]
    {
      assert mutexes[i] in was[..|mutexes|];
    }
    if anew {
      assert removed == |mutexes|;
    } else {
      assert removed == 0;
      forall k | 0 <= k < |mutexes|
        ensures was[k].previous == old(was[k].previous)
      {
        assert LinkAt(was, k) && old(LinkAt(was, k));
      }
    }
  }

  lemma GrantedAreFree(t: ThreadLocks, mutexes: seq<LevelMutexInfo?>, answers: Answers)
    requires t.Valid() && LocksAnew(t, mutexes, answers) && CanAnswerFor(t, mutexes, answers)
    ensures forall i | 0 <= i < |mutexes| ::
              mutexes[i] !in t.held && mutexes[i].count == 0 && mutexes[i].previous == null
  {
    t.LevelsOfHeld();
  }

  /** The first call of a nest, and what it leaves for the last one to undo. */
  method LockFor(t: ThreadLocks, mutexes: seq<LevelMutexInfo?>, answers: Answers, ghost all: set<LevelMutexInfo>)
    returns (result: MutexError, ghost anew: bool)
    requires t.Valid() && ThreadLocks.Leveled(mutexes)
    requires AddressesIdentify(mutexes) && CanAnswerFor(t, mutexes, answers)
    modifies t, set m: LevelMutexInfo | m in mutexes
    ensures t.Valid() && (result == Success ==> NoNull(mutexes))
    ensures result != Success ==> t.held == old(t.held) && forall m | m in all :: ThreadLocks.Kept(m)
    ensures result == Success && anew ==>
              && JustLocked(t, mutexes, old(t.held))
              && forall i | 0 <= i < |mutexes| :: old(mutexes[i].count) == 0 && old(mutexes[i].previous) == null
    ensures result == Success && !anew ==>
              && t.held == old(t.held) && LockedAgain(t, mutexes)
              && forall i | 0 <= i < |mutexes| ::
                   mutexes[i].count == old(mutexes[i].count) + 1 && mutexes[i].previous == old(mutexes[i].previous)
  {
    anew := LocksAnew(t, mutexes, answers);
    t.LevelsOfHeld();
    if anew {
      GrantedAreFree(t, mutexes, answers);
    }
    result := MultiLock(t, mutexes, answers);
    if result != Success {
      forall m | m in all
        ensures ThreadLocks.Kept(m)
      {
        assert m in mutexes ==> exists i :: 0 <= i < |mutexes| && mutexes[i] == m;
      }
    }
  }

  lemma StillNobodyElses(t: ThreadLocks, mutexes: seq<LevelMutexInfo?>, rest: seq<LevelMutexInfo>,
                         free: set<LevelMutexInfo>)
    requires JustLocked(t, mutexes, rest) || (LockedAgain(t, mutexes) && t.held == rest)
    requires forall m | m in free && m !in mutexes :: m in rest || (m.count == 0 && m.previous == null)
    ensures NobodyElses(t, free)
  {
  }

  /** Any properly nested run of locking and unlocking containers, whatever is granted, leaves the list, the counts and
      the links as they were. */
  method Play(t: ThreadLocks, nest: Nest, all: set<LevelMutexInfo>, ghost free: set<LevelMutexInfo>)
    requires t.Valid() && Playable(nest, all, free) && free <= all && NobodyElses(t, free)
    modifies t, all
    ensures t.Valid() && t.held == old(t.held) && forall m | m in all :: ThreadLocks.Kept(m)
    decreases nest, 2
  {
    ghost var was := t.held;
    var result;
    ghost var anew;
    result, anew := LockFor(t, nest.mutexes, nest.answers, all);
    if result == Success {
      StillNobodyElses(t, nest.mutexes, was, free);
      PlayLocked(t, nest, all, free, anew, was);
      forall m | m in all
        ensures ThreadLocks.Kept(m)
      {
        assert m in nest.mutexes ==> exists i :: 0 <= i < |nest.mutexes| && nest.mutexes[i] == m;
      }
    }
  }

  method PlayLocked(t: ThreadLocks, nest: Nest, all: set<LevelMutexInfo>, ghost free: set<LevelMutexInfo>,
                    ghost anew: bool, ghost rest: seq<LevelMutexInfo>)
    requires t.Valid() && Playable(nest, all, free) && free <= all && NobodyElses(t, free)
    requires if anew then JustLocked(t, nest.mutexes, rest) else LockedAgain(t, nest.mutexes)
    modifies t, all
    ensures t.Valid() && NoNull(nest.mutexes) && t.held == if anew then rest else old(t.held)
    ensures forall m | m in all && m !in nest.mutexes :: ThreadLocks.Kept(m)
    ensures forall i | 0 <= i < |nest.mutexes| ::
              && nest.mutexes[i].count == old(nest.mutexes[i].count) - 1
              && nest.mutexes[i].previous == if anew then null else old(nest.mutexes[i].previous)
    decreases nest, 1
  {
    PlayAll(t, nest, all, free);
    UnlockBack(t, nest.mutexes, nest.answers, anew, rest);
  }

  method PlayAll(t: ThreadLocks, nest: Nest, all: set<LevelMutexInfo>, ghost free: set<LevelMutexInfo>)
    requires t.Valid() && Playable(nest, all, free) && free <= all && NobodyElses(t, free)
    modifies t, all
    ensures t.Valid() && t.held == old(t.held) && forall m | m in all :: ThreadLocks.Kept(m)
    decreases nest, 0
  {
    var i := 0;
    while i < |nest.body|
      invariant 0 <= i <= |nest.body| && t.Valid() && t.held == old(t.held)
      invariant forall m | m in all :: ThreadLocks.Kept(m)
    {
      Play(t, nest.body[i], all, free);
      i := i + 1;
    }
  }

  // ---------------------------------------------------------------- runs that stop

  /** Two mutexes of one level, locked together: the one with the higher address is the newest. */
  method LockTwo() returns (t: ThreadLocks, a: LevelMutexInfo, b: LevelMutexInfo)
    ensures fresh(t) && fresh(a) && fresh(b) && t.Valid()
    ensures a.level == b.level == 1 && a.address == 10 && b.address == 20
    ensures t.held == [b, a] && a.count == b.count == 1
  {
    a := new LevelMutexInfo(1, 10);
    b := new LevelMutexInfo(1, 20);
    t := new ThreadLocks();
    LockPair(t, a, b);
  }

  method LockPair(t: ThreadLocks, a: LevelMutexInfo, b: LevelMutexInfo)
    requires t.Valid() && t.held == [] && a.level == b.level == 1 && a.address < b.address
    requires a.count == b.count == 0 && a.previous == b.previous == null
    modifies t, a, b
    ensures t.Valid() && t.held == [b, a] && a.count == b.count == 1
  {
    var answers := map[a := Success, b := Success];
    var mutexes: seq<LevelMutexInfo?> := [a, b];
    assert LocksAnew(t, mutexes, answers);
    var result := MultiLock(t, mutexes, answers);
    HigherFirst(t, a, b, mutexes);
    assert mutexes[0] == a && mutexes[1] == b;
  }

  lemma HigherFirst(t: ThreadLocks, a: LevelMutexInfo, b: LevelMutexInfo, mutexes: seq<LevelMutexInfo?>)
    requires t.Valid() && |t.held| == 2 && a.level == b.level && a.address < b.address && mutexes == [a, b]
    requires forall i | 0 <= i < 2 :: mutexes[i] in t.held[..2]
    ensures t.held == [b, a]
  {
    assert mutexes[0] in t.held[..2] && mutexes[1] in t.held[..2];
    assert Over(t.held[0], t.held[1]);
  }

  /** The newer of the two is locked once more on its own. */
  method RelockNewer() returns (t: ThreadLocks, a: LevelMutexInfo, b: LevelMutexInfo)
    ensures fresh(t) && fresh(a) && fresh(b) && t.Valid()
    ensures a.level == b.level == 1 && a.address == 10 && b.address == 20
    ensures t.held == [b, a] && a.count == 1 && b.count == 2
  {
    t, a, b := LockTwo();
    assert t.held[0] == b && t.held[1] == a;
    var again := t.Lock(b, Success);
  }

  /** Then unlocking the container stops at the older one. */
  method RelockedMemberStopsMultiUnlock() returns (result: Option<MutexError>)
    ensures result == None
  {
    var t, a, b := RelockNewer();
    assert t.held[0] == b && t.held[1] == a;
    ghost var counts := Counts(t.held, 2);
    assert counts[0] == 2 && counts[1] == 1 && !Nested(counts);
    var mutexes: seq<LevelMutexInfo?> := [a, b];
    ghost var removed;
    result, removed := MultiUnlock(t, mutexes, map[a := Success, b := Success]);
  }

  /** The older of the two is unlocked on its own. */
  method OlderMemberStopsUnlock() returns (result: Option<MutexError>)
    ensures result == None
  {
    var t, a, b := LockTwo();
    assert t.held[0] == b && t.held[1] == a;
    result := t.Unlock(a, Success);
  }
}
