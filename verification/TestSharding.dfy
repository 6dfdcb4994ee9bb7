/** Google Test's choice of the tests to run, and why running it once per shard splits the tests evenly. What the name
    filters answer is part of a test. */
module TestSharding {
  import opened Common

  /** The environment's request to run one shard of so many. */
  datatype Shard = Shard(total: nat, index: nat)

  // ---------------------------------------------------------------- which runnable tests are on which shard

  /** How many of the first `k` tests are runnable. */
  function Rank(runnable: seq<bool>, k: nat): (r: nat)
    requires k <= |runnable|
    ensures r <= k
  {
    if k == 0 then 0 else Rank(runnable, k - 1) + if runnable[k - 1] then 1 else 0
  }

  predicate ShouldRunTestOnShard(shard: Shard, testId: nat)
    requires shard.total > 0
  {
    testId % shard.total == shard.index
  }

  /** Is test `k` chosen? Runnable tests are dealt out in turn. */
  predicate Chosen(runnable: seq<bool>, k: nat, shard: Option<Shard>)
    requires k < |runnable| && (shard.Some? ==> shard.value.total > 0)
  {
    runnable[k] && (shard == None || ShouldRunTestOnShard(shard.value, Rank(runnable, k)))
  }

  function CountChosen(runnable: seq<bool>, k: nat, shard: Option<Shard>): nat
    requires k <= |runnable| && (shard.Some? ==> shard.value.total > 0)
  {
    if k == 0 then 0 else CountChosen(runnable, k - 1, shard) + if Chosen(runnable, k - 1, shard) then 1 else 0
  }

  /** Every runnable test is on exactly one shard, any other on none. */
  lemma ExactlyOneShard(runnable: seq<bool>, k: nat, total: nat)
    requires k < |runnable| && total > 0
    ensures runnable[k] <==> exists i :: 0 <= i < total && Chosen(runnable, k, Some(Shard(total, i)))
    ensures forall i, j | 0 <= i < total && 0 <= j < total &&
                          Chosen(runnable, k, Some(Shard(total, i))) && Chosen(runnable, k, Some(Shard(total, j))) ::
              i == j
  {
    if runnable[k] {
      var i := Rank(runnable, k) % total;
      assert Chosen(runnable, k, Some(Shard(total, i)));
    }
  }

  lemma {:induction false} RankCounts(runnable: seq<bool>, k: nat)
    requires k <= |runnable|
    ensures Rank(runnable, k) == |set j | 0 <= j < k && runnable[j]|
    decreases k
  {
    if k > 0 {
      RankCounts(runnable, k - 1);
      var before := set j | 0 <= j < k - 1 && runnable[j];
      assert (set j | 0 <= j < k && runnable[j]) == before + if runnable[k - 1] then {k - 1} else {};
    }
  }

  /** The runnable tests are dealt out in turn: the first to shard 0, the next to shard 1, and so on. */
  lemma DealtInTurn(runnable: seq<bool>, k: nat, shard: Shard)
    requires k < |runnable| && shard.index < shard.total
    ensures Chosen(runnable, k, Some(shard)) <==>
              runnable[k] && |set j | 0 <= j < k && runnable[j]| % shard.total == shard.index
  {
    RankCounts(runnable, k);
  }

  lemma NextTurn(r: nat, total: nat)
    requires total > 0
    ensures r % total == total - 1 ==> (r + 1) / total == r / total + 1 && (r + 1) % total == 0
    ensures r % total < total - 1 ==> (r + 1) / total == r / total && (r + 1) % total == r % total + 1
  {
    var q, m := r / total, r % total;
    assert r == q * total + m;
    if m == total - 1 {
      assert r + 1 == (q + 1) * total;
      DivideBack(q + 1, 0, total);
    } else {
      DivideBack(q, m + 1, total);
    }
  }

  lemma DivideBack(q: nat, m: nat, total: nat)
    requires m < total
    ensures (q * total + m) / total == q && (q * total + m) % total == m
  {
    var n: int, t: int := q * total + m, total;
    var d: int := n / t - q;
    assert d * t == m - n % t;
    assert d >= 1 ==> d * t >= t;
    assert d <= -1 ==> d * t <= -t;
  }

  /** A shard gets a full share, and one more while the remainder lasts. */
  lemma {:induction false} ShardSize(runnable: seq<bool>, k: nat, shard: Shard)
    requires k <= |runnable| && shard.index < shard.total
    ensures CountChosen(runnable, k, Some(shard)) ==
            Rank(runnable, k) / shard.total + if shard.index < Rank(runnable, k) % shard.total then 1 else 0
    decreases k
  {
    if k > 0 {
      ShardSize(runnable, k - 1, shard);
      NextTurn(Rank(runnable, k - 1), shard.total);
    }
  }

  /** The sizes of two shards differ by at most one. */
  lemma ShardsAreEven(runnable: seq<bool>, total: nat, i: nat, j: nat)
    requires i < total && j < total
    ensures CountChosen(runnable, |runnable|, Some(Shard(total, i)))
         <= CountChosen(runnable, |runnable|, Some(Shard(total, j))) + 1
  {
    ShardSize(runnable, |runnable|, Shard(total, i));
    ShardSize(runnable, |runnable|, Shard(total, j));
  }

  function SumOfShards(runnable: seq<bool>, k: nat, total: nat, n: nat): nat
    requires k <= |runnable| && n <= total && total > 0
  {
    if n == 0 then 0 else SumOfShards(runnable, k, total, n - 1) + CountChosen(runnable, k, Some(Shard(total, n - 1)))
  }

  lemma {:induction false} OneMore(runnable: seq<bool>, k: nat, total: nat, n: nat)
    requires 0 < k <= |runnable| && n <= total && total > 0
    ensures SumOfShards(runnable, k, total, n) == SumOfShards(runnable, k - 1, total, n) +
            if runnable[k - 1] && Rank(runnable, k - 1) % total < n then 1 else 0
    decreases n
  {
    if n > 0 {
      OneMore(runnable, k, total, n - 1);
    }
  }

  /** Over all shards the runnable tests are run, each once. */
  lemma {:induction false} ShardsAddUp(runnable: seq<bool>, k: nat, total: nat)
    requires k <= |runnable| && total > 0
    ensures SumOfShards(runnable, k, total, total) == Rank(runnable, k)
    decreases k
  {
    if k == 0 {
      NoTestsNoSum(runnable, total, total);
    } else {
      ShardsAddUp(runnable, k - 1, total);
      OneMore(runnable, k, total, total);
    }
  }

  lemma {:induction false} NoTestsNoSum(runnable: seq<bool>, total: nat, n: nat)
    requires n <= total && total > 0
    ensures SumOfShards(runnable, 0, total, n) == 0
    decreases n
  {
    if n > 0 {
      NoTestsNoSum(runnable, total, n - 1);
    }
  }

  // ---------------------------------------------------------------- marking the tests

  class TestInfo {
    /** Do the filters find this test disabled, and does it match the user's filter? */
    const nameDisabled: bool
    const nameMatches: bool
    var isDisabled: bool
    var matchesFilter: bool
    var shouldRun: bool

    constructor (disabled: bool, matches: bool)
      ensures nameDisabled == disabled && nameMatches == matches && !shouldRun
    {
      nameDisabled, nameMatches := disabled, matches;
      isDisabled, matchesFilter, shouldRun := false, false, false;
    }
  }

  class TestCase {
    const tests: seq<TestInfo>
    var shouldRun: bool

    constructor (ts: seq<TestInfo>)
      ensures tests == ts && !shouldRun
    {
      tests, shouldRun := ts, false;
    }
  }

  predicate IsRunnable(t: TestInfo, alsoRunDisabled: bool) { (alsoRunDisabled || !t.nameDisabled) && t.nameMatches }

  /** All tests, in the order of their registration. */
  function AllTests(cases: seq<TestCase>): seq<TestInfo> {
    if cases == [] then [] else AllTests(cases[..|cases| - 1]) + cases[|cases| - 1].tests
  }

  /** The place of the first test of case `i` among all. */
  ghost function Start(cases: seq<TestCase>, i: nat): nat
    requires i <= |cases|
  {
    |AllTests(cases[..i])|
  }

  lemma StartOfNext(cases: seq<TestCase>, i: nat)
    requires i < |cases|
    ensures Start(cases, i + 1) == Start(cases, i) + |cases[i].tests|
  {
    assert cases[..i + 1][..i] == cases[..i];
  }

  lemma {:induction false} TestAt(cases: seq<TestCase>, i: nat, j: nat)
    requires i < |cases| && j < |cases[i].tests|
    ensures Start(cases, i) + j < |AllTests(cases)| && AllTests(cases)[Start(cases, i) + j] == cases[i].tests[j]
    decreases |cases|
  {
    var last := |cases| - 1;
    if i == last {
      assert cases[..i] == cases[..last];
    } else {
      var init := cases[..last];
      TestAt(init, i, j);
      assert init[..i] == cases[..i];
    }
  }

  ghost function Runnable(cases: seq<TestCase>, alsoRunDisabled: bool): (s: seq<bool>)
    ensures |s| == |AllTests(cases)|
  {
    var ts := AllTests(cases);
    seq(|ts|, k requires 0 <= k < |ts| => IsRunnable(ts[k], alsoRunDisabled))
  }

  /** Some test from place `lo` on and before `hi` is chosen. */
  ghost predicate SomeChosen(runnable: seq<bool>, lo: nat, hi: nat, shard: Option<Shard>)
    requires hi <= |runnable| && (shard.Some? ==> shard.value.total > 0)
  {
    exists k :: lo <= k < hi && Chosen(runnable, k, shard)
  }

  ghost predicate Marked(ts: seq<TestInfo>, k: nat, runnable: seq<bool>, shard: Option<Shard>)
    requires k < |ts| == |runnable| && (shard.Some? ==> shard.value.total > 0)
    reads ts[k]
  {
    && ts[k].shouldRun == Chosen(runnable, k, shard)
    && ts[k].isDisabled == ts[k].nameDisabled && ts[k].matchesFilter == ts[k].nameMatches
  }

  /** A case is to run if one of its tests is. */
  ghost predicate CaseMarked(cases: seq<TestCase>, c: nat, runnable: seq<bool>, shard: Option<Shard>)
    requires c < |cases| && (shard.Some? ==> shard.value.total > 0)
    reads cases[c]
  {
    && Start(cases, c) <= Start(cases, c + 1) <= |runnable|
    && cases[c].shouldRun == SomeChosen(runnable, Start(cases, c), Start(cases, c + 1), shard)
  }

  /** Marks exactly the chosen tests, and the cases that have one, and answers how many tests are marked. */
  method FilterTests(cases: seq<TestCase>, alsoRunDisabled: bool, shard: Option<Shard>) returns (selected: nat)
    requires shard.Some? ==> shard.value.index < shard.value.total
    requires Distinct(cases) && Distinct(AllTests(cases))
    modifies cases, AllTests(cases)
    ensures var ts, runnable := AllTests(cases), Runnable(cases, alsoRunDisabled);
            && (forall k | 0 <= k < |ts| :: Marked(ts, k, runnable, shard))
            && (forall c | 0 <= c < |cases| :: CaseMarked(cases, c, runnable, shard))
            && selected == CountChosen(runnable, |ts|, shard)
    ensures forall t <- AllTests(cases) :: t.shouldRun ==> t.nameMatches && (t.nameDisabled ==> alsoRunDisabled)
    ensures shard == None ==>
              forall t <- AllTests(cases) :: t.nameMatches && (t.nameDisabled ==> alsoRunDisabled) ==> t.shouldRun
    ensures forall c <- cases :: c.shouldRun <==> exists t <- c.tests :: t.shouldRun
    ensures selected == CountMarked(AllTests(cases), |AllTests(cases)|)
  {
    selected := MarkAll(cases, alsoRunDisabled, shard);
    MarkedMeans(cases, alsoRunDisabled, shard);
  }

  function CountMarked(ts: seq<TestInfo>, n: nat): nat
    requires n <= |ts|
    reads ts
  {
    if n == 0 then 0 else CountMarked(ts, n - 1) + if ts[n - 1].shouldRun then 1 else 0
  }

  lemma {:induction false} MarkedAreCounted(ts: seq<TestInfo>, n: nat, runnable: seq<bool>, shard: Option<Shard>)
    requires |ts| == |runnable| && n <= |ts| && (shard.Some? ==> shard.value.total > 0)
    requires forall k | 0 <= k < |ts| :: Marked(ts, k, runnable, shard)
    ensures CountMarked(ts, n) == CountChosen(runnable, n, shard)
    decreases n
  {
    if n > 0 {
      MarkedAreCounted(ts, n - 1, runnable, shard);
      assert Marked(ts, n - 1, runnable, shard);
    }
  }

  /** What the marks say on the tests and cases themselves. */
  lemma MarkedMeans(cases: seq<TestCase>, alsoRunDisabled: bool, shard: Option<Shard>)
    requires shard.Some? ==> shard.value.total > 0
    requires var ts, runnable := AllTests(cases), Runnable(cases, alsoRunDisabled);
             && (forall k | 0 <= k < |ts| :: Marked(ts, k, runnable, shard))
             && (forall c | 0 <= c < |cases| :: CaseMarked(cases, c, runnable, shard))
    ensures var ts := AllTests(cases);
            && (forall t <- ts :: t.shouldRun ==> t.nameMatches && (t.nameDisabled ==> alsoRunDisabled))
            && (shard == None ==>
                  forall t <- ts :: t.nameMatches && (t.nameDisabled ==> alsoRunDisabled) ==> t.shouldRun)
            && CountMarked(ts, |ts|) == CountChosen(Runnable(cases, alsoRunDisabled), |ts|, shard)
    ensures forall c <- cases :: c.shouldRun <==> exists t <- c.tests :: t.shouldRun
  {
    var ts, runnable := AllTests(cases), Runnable(cases, alsoRunDisabled);
    forall k | 0 <= k < |ts|
      ensures Marked(ts, k, runnable, shard)
    {
      assert Marked(AllTests(cases), k, Runnable(cases, alsoRunDisabled), shard);
    }
    MarkedAreCounted(ts, |ts|, runnable, shard);
    forall t <- ts
      ensures t.shouldRun ==> t.nameMatches && (t.nameDisabled ==> alsoRunDisabled)
      ensures shard == None && t.nameMatches && (t.nameDisabled ==> alsoRunDisabled) ==> t.shouldRun
    {
      var k :| 0 <= k < |ts| && ts[k] == t;
      assert Marked(ts, k, runnable, shard);
    }
    forall c <- cases
      ensures c.shouldRun <==> exists t <- c.tests :: t.shouldRun
    {
      var i :| 0 <= i < |cases| && cases[i] == c;
      CaseMarkedMeans(cases, i, runnable, shard);
    }
  }

  lemma CaseMarkedMeans(cases: seq<TestCase>, i: nat, runnable: seq<bool>, shard: Option<Shard>)
    requires i < |cases| && |runnable| == |AllTests(cases)| && (shard.Some? ==> shard.value.total > 0)
    requires forall k | 0 <= k < |runnable| :: Marked(AllTests(cases), k, runnable, shard)
    requires CaseMarked(cases, i, runnable, shard)
    ensures cases[i].shouldRun <==> exists t <- cases[i].tests :: t.shouldRun
  {
    var ts, lo, hi := AllTests(cases), Start(cases, i), Start(cases, i + 1);
    TestsOf(cases, i);
    StartOfNext(cases, i);
    if SomeChosen(runnable, lo, hi, shard) {
      var k :| lo <= k < hi && Chosen(runnable, k, shard);
      assert Marked(ts, k, runnable, shard) && ts[lo + (k - lo)] == cases[i].tests[k - lo];
      assert cases[i].tests[k - lo] in cases[i].tests;
    }
    if t :| t in cases[i].tests && t.shouldRun {
      var j :| 0 <= j < |cases[i].tests| && cases[i].tests[j] == t;
      assert Marked(ts, lo + j, runnable, shard);
    }
  }

  /** The loops of `FilterTests`. */
  method MarkAll(cases: seq<TestCase>, alsoRunDisabled: bool, shard: Option<Shard>) returns (selected: nat)
    requires shard.Some? ==> shard.value.index < shard.value.total
    requires Distinct(cases) && Distinct(AllTests(cases))
    modifies cases, AllTests(cases)
    ensures var ts, runnable := AllTests(cases), Runnable(cases, alsoRunDisabled);
            && (forall k | 0 <= k < |ts| :: Marked(ts, k, runnable, shard))
            && (forall c | 0 <= c < |cases| :: CaseMarked(cases, c, runnable, shard))
            && selected == CountChosen(runnable, |ts|, shard)
  {
    var numRunnable := 0;
    selected := 0;
    var i := 0;
    assert cases[..0] == [];
    while i < |cases|
      invariant 0 <= i <= |cases| && MarkedBefore(cases, i, alsoRunDisabled, shard, numRunnable, selected)
    {
      numRunnable, selected := MarkCase(cases, i, alsoRunDisabled, shard, numRunnable, selected);
      i := i + 1;
    }
    assert cases[..i] == cases;
  }

  /** The first `i` cases have been dealt with. */
  ghost predicate MarkedBefore(cases: seq<TestCase>, i: nat, alsoRunDisabled: bool, shard: Option<Shard>,
                               numRunnable: nat, selected: nat)
    requires i <= |cases| && (shard.Some? ==> shard.value.total > 0)
    reads cases, AllTests(cases)
  {
    var start, runnable := Start(cases, i), Runnable(cases, alsoRunDisabled);
    && start <= |runnable|
    && numRunnable == Rank(runnable, start) && selected == CountChosen(runnable, start, shard)
    && (forall k | 0 <= k < start :: Marked(AllTests(cases), k, runnable, shard))
    && (forall c | 0 <= c < i :: CaseMarked(cases, c, runnable, shard))
  }

  method MarkCase(cases: seq<TestCase>, i: nat, alsoRunDisabled: bool, shard: Option<Shard>,
                  runnableBefore: nat, selectedBefore: nat)
    returns (numRunnable: nat, selected: nat)
    requires shard.Some? ==> shard.value.index < shard.value.total
    requires Distinct(cases) && Distinct(AllTests(cases)) && i < |cases|
    requires MarkedBefore(cases, i, alsoRunDisabled, shard, runnableBefore, selectedBefore)
    modifies cases[i], AllTests(cases)
    ensures MarkedBefore(cases, i + 1, alsoRunDisabled, shard, numRunnable, selected)
  {
    ghost var all, runnable, start := AllTests(cases), Runnable(cases, alsoRunDisabled), Start(cases, i);
    StartOfNext(cases, i);
    TestsOf(cases, i);
    assert forall c | 0 <= c < i :: cases[c] != cases[i];
    numRunnable, selected :=
      FilterCase(cases[i], alsoRunDisabled, shard, runnableBefore, selectedBefore, all, runnable, start);
    assert CaseMarked(cases, i, runnable, shard);
  }

  lemma TestsOf(cases: seq<TestCase>, i: nat)
    requires i < |cases|
    ensures Start(cases, i) + |cases[i].tests| <= |AllTests(cases)|
    ensures forall j | 0 <= j < |cases[i].tests| :: AllTests(cases)[Start(cases, i) + j] == cases[i].tests[j]
  {
    forall j | 0 <= j < |cases[i].tests|
      ensures Start(cases, i) + j < |AllTests(cases)| && AllTests(cases)[Start(cases, i) + j] == cases[i].tests[j]
    {
      TestAt(cases, i, j);
    }
    StartOfNext(cases, i);
    StartInside(cases, i + 1);
  }

  lemma {:induction false} StartInside(cases: seq<TestCase>, i: nat)
    requires i <= |cases|
    ensures Start(cases, i) <= |AllTests(cases)|
    decreases |cases|
  {
    if i == |cases| {
      assert cases[..i] == cases;
    } else {
      var init := cases[..|cases| - 1];
      StartInside(init, i);
      assert init[..i] == cases[..i];
    }
  }

  /** The part of `FilterTests` that deals with one case, whose tests begin at place `start`. */
  method FilterCase(testCase: TestCase, alsoRunDisabled: bool, shard: Option<Shard>,
                    runnableBefore: nat, selectedBefore: nat,
                    ghost all: seq<TestInfo>, ghost runnable: seq<bool>, ghost start: nat)
    returns (numRunnable: nat, selected: nat)
    requires shard.Some? ==> shard.value.index < shard.value.total
    requires Distinct(all) && |runnable| == |all| && start + |testCase.tests| <= |all|
    requires forall k | 0 <= k < |all| :: runnable[k] == IsRunnable(all[k], alsoRunDisabled)
    requires forall j | 0 <= j < |testCase.tests| :: all[start + j] == testCase.tests[j]
    requires runnableBefore == Rank(runnable, start) && selectedBefore == CountChosen(runnable, start, shard)
    requires forall k | 0 <= k < start :: Marked(all, k, runnable, shard)
    modifies testCase, all
    ensures var end := start + |testCase.tests|;
            && numRunnable == Rank(runnable, end) && selected == CountChosen(runnable, end, shard)
            && (forall k | 0 <= k < end :: Marked(all, k, runnable, shard))
            && testCase.shouldRun == SomeChosen(runnable, start, end, shard)
  {
    numRunnable, selected := runnableBefore, selectedBefore;
    testCase.shouldRun := false;
    var j := 0;
    while j < |testCase.tests|
      invariant 0 <= j <= |testCase.tests|
      invariant numRunnable == Rank(runnable, start + j) && selected == CountChosen(runnable, start + j, shard)
      invariant forall k | 0 <= k < start + j :: Marked(all, k, runnable, shard)
      invariant testCase.shouldRun == SomeChosen(runnable, start, start + j, shard)
    {
      assert testCase.tests[j] == all[start + j];
      var isRunnable, isSelected := FilterTest(testCase.tests[j], alsoRunDisabled, shard, numRunnable);
      assert isSelected == Chosen(runnable, start + j, shard);
      assert forall k | 0 <= k < start + j :: all[k] != all[start + j];
      numRunnable := numRunnable + if isRunnable then 1 else 0;
      selected := selected + if isSelected then 1 else 0;
      testCase.shouldRun := testCase.shouldRun || isSelected;
      j := j + 1;
    }
  }

  /** The part of `FilterTests` that deals with one test, before which so many are runnable. */
  method FilterTest(test: TestInfo, alsoRunDisabled: bool, shard: Option<Shard>, numRunnable: nat)
    returns (isRunnable: bool, isSelected: bool)
    requires shard.Some? ==> shard.value.total > 0
    modifies test
    ensures isRunnable == IsRunnable(test, alsoRunDisabled)
    ensures isSelected == (isRunnable && (shard == None || ShouldRunTestOnShard(shard.value, numRunnable)))
    ensures test.shouldRun == isSelected
    ensures test.isDisabled == test.nameDisabled && test.matchesFilter == test.nameMatches
  {
    test.isDisabled := test.nameDisabled;
    test.matchesFilter := test.nameMatches;
    isRunnable := (alsoRunDisabled || !test.nameDisabled) && test.nameMatches;
    isSelected := isRunnable && (shard == None || ShouldRunTestOnShard(shard.value, numRunnable));
    test.shouldRun := isSelected;
  }

  // ---------------------------------------------------------------- all shards

  /** On how many of the first `n` shards test `k` is. */
  function TimesBefore(runnable: seq<bool>, k: nat, total: nat, n: nat): nat
    requires k < |runnable| && 0 < total
  {
    if runnable[k] && Rank(runnable, k) % total < n then 1 else 0
  }

  lemma OneShardMore(runnable: seq<bool>, k: nat, total: nat, n: nat)
    requires k < |runnable| && n < total
    ensures TimesBefore(runnable, k, total, n + 1)
         == TimesBefore(runnable, k, total, n) + if Chosen(runnable, k, Some(Shard(total, n))) then 1 else 0
  {
  }

  /** Adds the marks of one more shard to what is counted already. */
  method Tally(ts: seq<TestInfo>, before: seq<nat>) returns (times: seq<nat>)
    requires |before| == |ts|
    ensures |times| == |ts|
    ensures forall k | 0 <= k < |ts| :: times[k] == before[k] + if old(ts[k].shouldRun) then 1 else 0
  {
    times := [];
    while |times| < |ts|
      invariant |times| <= |ts|
      invariant forall k | 0 <= k < |times| :: times[k] == before[k] + if ts[k].shouldRun then 1 else 0
      decreases |ts| - |times|
    {
      times := times + [before[|times|] + if ts[|times|].shouldRun then 1 else 0];
    }
  }

  /** One shard: who is marked on it, and how many. */
  method RunShard(cases: seq<TestCase>, alsoRunDisabled: bool, shard: Shard, before: seq<nat>)
    returns (size: nat, times: seq<nat>)
    requires shard.index < shard.total && Distinct(cases) && Distinct(AllTests(cases))
    requires var runnable := Runnable(cases, alsoRunDisabled);
             && |before| == |runnable|
             && forall k | 0 <= k < |before| :: before[k] == TimesBefore(runnable, k, shard.total, shard.index)
    modifies cases, AllTests(cases)
    ensures var runnable := Runnable(cases, alsoRunDisabled);
            && size == CountChosen(runnable, |runnable|, Some(shard)) && |times| == |runnable|
            && forall k | 0 <= k < |times| :: times[k] == TimesBefore(runnable, k, shard.total, shard.index + 1)
  {
    size := FilterTests(cases, alsoRunDisabled, Some(shard));
    ghost var runnable := Runnable(cases, alsoRunDisabled);
    forall k | 0 <= k < |runnable|
      ensures AllTests(cases)[k].shouldRun <==> Chosen(runnable, k, Some(shard))
    {
      assert Marked(AllTests(cases), k, runnable, Some(shard));
    }
    times := Tally(AllTests(cases), before);
    forall k | 0 <= k < |times|
      ensures times[k] == TimesBefore(runnable, k, shard.total, shard.index + 1)
    {
      OneShardMore(runnable, k, shard.total, shard.index);
    }
  }

  /** The tests are run once for each shard. A test that matches the filter, and is enabled unless disabled tests are
      wanted too, is run exactly once; no other test is run; and the sizes of the shards differ by at most one. */
  method RunEveryShard(cases: seq<TestCase>, alsoRunDisabled: bool, total: nat)
    returns (sizes: seq<nat>, times: seq<nat>)
    requires total > 0 && Distinct(cases) && Distinct(AllTests(cases))
    modifies cases, AllTests(cases)
    ensures |sizes| == total && forall i, j | 0 <= i < total && 0 <= j < total :: sizes[i] <= sizes[j] + 1
    ensures |times| == |AllTests(cases)|
    ensures forall k | 0 <= k < |times| ::
              var t := AllTests(cases)[k];
              times[k] == if t.nameMatches && (t.nameDisabled ==> alsoRunDisabled) then 1 else 0
  {
    ghost var runnable := Runnable(cases, alsoRunDisabled);
    sizes, times := [], seq(|AllTests(cases)|, k => 0);
    while |sizes| < total
      invariant |sizes| <= total && |times| == |runnable|
      invariant forall i | 0 <= i < |sizes| :: sizes[i] == CountChosen(runnable, |runnable|, Some(Shard(total, i)))
      invariant forall k | 0 <= k < |times| :: times[k] == TimesBefore(runnable, k, total, |sizes|)
      decreases total - |sizes|
    {
      var size;
      size, times := RunShard(cases, alsoRunDisabled, Shard(total, |sizes|), times);
      sizes := sizes + [size];
    }
    forall i, j | 0 <= i < total && 0 <= j < total
      ensures sizes[i] <= sizes[j] + 1
    {
      ShardsAreEven(runnable, total, i, j);
    }
  }
}
