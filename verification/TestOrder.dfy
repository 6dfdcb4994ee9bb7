/** The order in which Google Test runs test cases: registration puts death test cases first, and shuffling keeps them
    there. What the random generator answers is a parameter. */
module TestOrder {
  import opened Common

  // ---------------------------------------------------------------- permutations of a range

  function Range(lo: int, hi: int): (s: seq<int>)
    requires lo <= hi
  {
    seq(hi - lo, k requires 0 <= k < hi - lo => lo + k)
  }

  /** `s` holds the numbers from `lo` on and before `hi`, each once. */
  ghost predicate Permutes(s: seq<int>, lo: int, hi: int) {
    && |s| == hi - lo
    && (forall i | 0 <= i < |s| :: lo <= s[i] < hi)
    && Distinct(s)
  }

  lemma {:induction false} NumbersBelow(lo: int, hi: int) returns (all: set<int>)
    requires lo <= hi
    ensures |all| == hi - lo && forall x :: x in all <==> lo <= x < hi
    decreases hi - lo
  {
    if lo == hi {
      all := {};
    } else {
      all := NumbersBelow(lo, hi - 1);
      all := all + {hi - 1};
    }
  }

  /** No number is missing. */
  lemma PermutesAll(s: seq<int>, lo: int, hi: int, x: int)
    requires Permutes(s, lo, hi) && lo <= x < hi
    ensures x in s
  {
    var all := NumbersBelow(lo, hi);
    var found := Elements(s);
    DistinctSize(s);
    assert found <= all;
    if x !in s {
      SubsetSize(found, all - {x});
    }
  }

  lemma {:induction false} AtMostOnce(s: seq<int>, x: int)
    requires Distinct(s)
    ensures multiset(s)[x] <= 1
    decreases |s|
  {
    if s != [] {
      var init, y := s[..|s| - 1], s[|s| - 1];
      assert s == init + [y];
      AtMostOnce(init, x);
      assert x == y ==> x !in init;
    }
  }

  lemma TwiceCounted(s: seq<int>, i: nat, j: nat)
    requires i < j < |s| && s[i] == s[j]
    ensures multiset(s)[s[i]] >= 2
  {
    assert s == s[..j] + [s[j]] + s[j + 1..];
    assert s[i] == s[..j][i];
  }

  /** What has the same elements as a permutation is one. */
  lemma RearrangedPermutes(s: seq<int>, t: seq<int>, lo: int, hi: int)
    requires Permutes(s, lo, hi) && multiset(t) == multiset(s)
    ensures Permutes(t, lo, hi)
  {
    assert |multiset(t)| == |multiset(s)|;
    forall i | 0 <= i < |t|
      ensures lo <= t[i] < hi
    {
      assert t[i] in multiset(s);
    }
    forall i, j | 0 <= i < j < |t|
      ensures t[i] != t[j]
    {
      if t[i] == t[j] {
        TwiceCounted(t, i, j);
        AtMostOnce(s, t[i]);
      }
    }
  }

  /** The indices permute the numbers below `n`, with those below `d` first. */
  ghost predicate DeathFirst(v: seq<int>, d: nat, n: nat) {
    d <= n == |v| && Permutes(v, 0, n) && forall i | 0 <= i < n :: v[i] < d <==> i < d
  }

  // ---------------------------------------------------------------- shuffling a range

  /** `roll(n)` is what the generator answers when it is asked for a number below `n`. */
  ghost predicate Answers(roll: nat -> nat) { forall n | n > 0 :: roll(n) < n }

  function Swapped(v: seq<int>, i: int, j: int): (w: seq<int>)
    requires 0 <= i < |v| && 0 <= j < |v|
    ensures |w| == |v|
  {
    v[i := v[j]][j := v[i]]
  }

  /** What Fisher and Yates make of the `width` elements from `begin` on. */
  function Shuffled(v: seq<int>, begin: nat, width: nat, roll: nat -> nat): (w: seq<int>)
    requires begin + width <= |v| && Answers(roll)
    ensures |w| == |v|
    decreases width
  {
    if width < 2 then v
    else Shuffled(Swapped(v, begin + roll(width), begin + width - 1), begin, width - 1, roll)
  }

  /** From `v` to `w` the range from `begin` on and before `end` is rearranged, and nothing else. */
  ghost predicate Rearranged(v: seq<int>, w: seq<int>, begin: nat, end: nat) {
    && begin <= end <= |v| == |w| && multiset(w) == multiset(v)
    && forall i | 0 <= i < |v| && !(begin <= i < end) :: w[i] == v[i]
  }

  lemma MiddleRearranged(a: seq<int>, b: seq<int>, b': seq<int>, c: seq<int>)
    requires multiset(a + b + c) == multiset(a + b' + c)
    ensures multiset(b) == multiset(b')
  {
    assert multiset(a + b + c) == multiset(a) + multiset(b) + multiset(c);
    assert multiset(a + b' + c) == multiset(a) + multiset(b') + multiset(c);
    forall x
      ensures multiset(b)[x] == multiset(b')[x]
    {
      assert multiset(a + b + c)[x] == multiset(a + b' + c)[x];
    }
  }

  lemma RangesRearranged(v: seq<int>, w: seq<int>, begin: nat, end: nat)
    requires Rearranged(v, w, begin, end)
    ensures w[..begin] == v[..begin] && w[end..] == v[end..]
    ensures multiset(w[begin..end]) == multiset(v[begin..end])
  {
    assert w[..begin] == v[..begin] && w[end..] == v[end..];
    assert v == v[..begin] + v[begin..end] + v[end..];
    assert w == v[..begin] + w[begin..end] + v[end..];
    MiddleRearranged(v[..begin], v[begin..end], w[begin..end], v[end..]);
  }

  /** Fisher and Yates. */
  method ShuffleRange(v: seq<int>, begin: nat, end: nat, roll: nat -> nat) returns (w: seq<int>)
    requires begin <= end <= |v| && Answers(roll)
    ensures w == Shuffled(v, begin, end - begin, roll) && Rearranged(v, w, begin, end)
  {
    w := Exchange(v, begin, end - begin, roll);
    ShuffledRearranges(v, begin, end, end - begin, roll);
  }

  /** The loop of `ShuffleRange`. */
  method Exchange(v: seq<int>, begin: nat, rangeWidth: nat, roll: nat -> nat) returns (w: seq<int>)
    requires begin + rangeWidth <= |v| && Answers(roll)
    ensures w == Shuffled(v, begin, rangeWidth, roll)
  {
    w := v;
    var width := rangeWidth;
    while width >= 2
      invariant 0 <= width <= rangeWidth && |w| == |v|
      invariant Shuffled(w, begin, width, roll) == Shuffled(v, begin, rangeWidth, roll)
    {
      var last := begin + width - 1;
      var selected := begin + roll(width);
      w := w[selected := w[last]][last := w[selected]];
      width := width - 1;
    }
  }

  lemma SwapInRange(w: seq<int>, begin: nat, end: nat, i: nat, j: nat)
    requires begin <= i <= j < end <= |w|
    ensures Rearranged(w, Swapped(w, i, j), begin, end)
  {
  }

  lemma {:induction false} ShuffledRearranges(v: seq<int>, begin: nat, end: nat, width: nat, roll: nat -> nat)
    requires begin + width <= end <= |v| && Answers(roll)
    ensures Rearranged(v, Shuffled(v, begin, width, roll), begin, end)
    decreases width
  {
    if width >= 2 {
      var u := Swapped(v, begin + roll(width), begin + width - 1);
      SwapInRange(v, begin, end, begin + roll(width), begin + width - 1);
      ShuffledRearranges(u, begin, end, width - 1, roll);
    }
  }

  /** Elements outside the range stay. */
  lemma {:induction false} ShuffledOutside(v: seq<int>, begin: nat, width: nat, roll: nat -> nat, i: nat)
    requires begin + width <= |v| && Answers(roll) && i < |v| && !(begin <= i < begin + width)
    ensures Shuffled(v, begin, width, roll)[i] == v[i]
    decreases width
  {
    if width >= 2 {
      ShuffledOutside(Swapped(v, begin + roll(width), begin + width - 1), begin, width - 1, roll, i);
    }
  }

  /** Only the answers for the widths that occur matter. */
  lemma {:induction false} SameAnswers(v: seq<int>, begin: nat, width: nat, roll: nat -> nat, roll': nat -> nat)
    requires begin + width <= |v| && Answers(roll) && Answers(roll')
    requires forall n | 2 <= n <= width :: roll(n) == roll'(n)
    ensures Shuffled(v, begin, width, roll) == Shuffled(v, begin, width, roll')
    decreases width
  {
    if width >= 2 {
      SameAnswers(Swapped(v, begin + roll(width), begin + width - 1), begin, width - 1, roll, roll');
    }
  }

  /** Where an element of the range came from. */
  lemma Origin(v: seq<int>, w: seq<int>, begin: nat, end: nat, j: nat) returns (i: nat)
    requires Rearranged(v, w, begin, end) && begin <= j < end
    ensures begin <= i < end && v[i] == w[j]
  {
    RangesRearranged(v, w, begin, end);
    assert w[begin..end][j - begin] == w[j];
    assert w[j] in multiset(w[begin..end]);
    var k :| 0 <= k < end - begin && v[begin..end][k] == w[j];
    i := begin + k;
  }

  /** Every rearrangement of the range is the result for some answers of the generator. */
  lemma {:induction false} EveryOrderResults(v: seq<int>, begin: nat, width: nat, w: seq<int>)
    returns (roll: nat -> nat)
    requires Rearranged(v, w, begin, begin + width)
    ensures Answers(roll) && Shuffled(v, begin, width, roll) == w
    decreases width
  {
    if width < 2 {
      roll := n => 0;
      if width == 1 {
        var i := Origin(v, w, begin, begin + 1, begin);
      }
    } else {
      var answer := FirstAnswer(v, w, begin, width);
      var rest := EveryOrderResults(Swapped(v, begin + answer, begin + width - 1), begin, width - 1, w);
      roll := WithAnswer(v, begin, width, rest, answer);
    }
  }

  /** The answer that brings the right element to the last place. */
  lemma FirstAnswer(v: seq<int>, w: seq<int>, begin: nat, width: nat) returns (answer: nat)
    requires Rearranged(v, w, begin, begin + width) && width > 0
    ensures answer < width
    ensures Rearranged(Swapped(v, begin + answer, begin + width - 1), w, begin, begin + width - 1)
  {
    var last := begin + width - 1;
    var selected := Origin(v, w, begin, begin + width, last);
    answer := selected - begin;
    SwapToLast(v, w, begin, last, begin + answer);
  }

  lemma SwapToLast(v: seq<int>, w: seq<int>, begin: nat, last: nat, i: nat)
    requires begin <= i <= last < |v| && Rearranged(v, w, begin, last + 1) && v[i] == w[last]
    ensures Rearranged(Swapped(v, i, last), w, begin, last)
  {
    SwapInRange(v, begin, last + 1, i, last);
    LastInPlace(v, Swapped(v, i, last), w, begin, last);
  }

  /** Of two rearrangements with the same last element, one rearranges the other before that. */
  lemma LastInPlace(v: seq<int>, u: seq<int>, w: seq<int>, begin: nat, last: nat)
    requires begin <= last < |v| && Rearranged(v, u, begin, last + 1) && Rearranged(v, w, begin, last + 1)
    requires u[last] == w[last]
    ensures Rearranged(u, w, begin, last)
  {
  }

  lemma WithAnswer(v: seq<int>, begin: nat, width: nat, rest: nat -> nat, answer: nat) returns (roll: nat -> nat)
    requires begin + width <= |v| && answer < width && 2 <= width && Answers(rest)
    ensures Answers(roll)
    ensures Shuffled(v, begin, width, roll)
         == Shuffled(Swapped(v, begin + answer, begin + width - 1), begin, width - 1, rest)
  {
    roll := n => if n == width then answer else rest(n);
    SameAnswers(Swapped(v, begin + answer, begin + width - 1), begin, width - 1, roll, rest);
  }

  /** The first answer decides the last element. */
  lemma LastOfShuffled(v: seq<int>, begin: nat, width: nat, roll: nat -> nat)
    requires begin + width <= |v| && Answers(roll) && 2 <= width
    ensures Shuffled(v, begin, width, roll)[begin + width - 1] == v[begin + roll(width)]
  {
    ShuffledOutside(Swapped(v, begin + roll(width), begin + width - 1), begin, width - 1, roll, begin + width - 1);
  }

  /** Different answers give different orders, so answers and orders correspond one to one. */
  lemma {:induction false} AnswersDecideOrder(v: seq<int>, begin: nat, width: nat, roll: nat -> nat, roll': nat -> nat,
                                              n: nat)
    requires begin + width <= |v| && Distinct(v) && Answers(roll) && Answers(roll') && 2 <= n <= width
    requires Shuffled(v, begin, width, roll) == Shuffled(v, begin, width, roll')
    ensures roll(n) == roll'(n)
    decreases width
  {
    LastOfShuffled(v, begin, width, roll);
    LastOfShuffled(v, begin, width, roll');
    assert roll(width) == roll'(width);
    if n < width {
      var u := Swapped(v, begin + roll(width), begin + width - 1);
      SwappedDistinct(v, begin + roll(width), begin + width - 1);
      AnswersDecideOrder(u, begin, width - 1, roll, roll', n);
    }
  }

  lemma SwappedDistinct(v: seq<int>, i: nat, j: nat)
    requires i <= j < |v| && Distinct(v)
    ensures Distinct(Swapped(v, i, j))
  {
  }

  // ---------------------------------------------------------------- test cases

  class TestCase {
    const name: string
    var tests: seq<string>
    var testIndices: seq<int>

    ghost predicate Valid()
      reads this
    {
      Permutes(testIndices, 0, |tests|)
    }

    constructor (n: string)
      ensures Valid() && name == n && tests == [] && testIndices == Range(0, 0)
    {
      name, tests, testIndices := n, [], [];
    }

    method AddTestInfo(test: string)
      requires Valid()
      modifies this
      ensures Valid() && tests == old(tests) + [test]
      ensures old(testIndices == Range(0, |tests|)) ==> testIndices == Range(0, |tests|)
    {
      assert Range(0, |tests| + 1) == Range(0, |tests|) + [|tests|];
      tests := tests + [test];
      testIndices := testIndices + [|testIndices|];
    }

    twostate predicate JustShuffled(roll: nat -> nat)
      reads this
    {
      Answers(roll) && testIndices == Shuffled(old(testIndices), 0, |old(testIndices)|, roll)
    }

    method ShuffleTests(roll: nat -> nat)
      requires Valid() && Answers(roll)
      modifies `testIndices
      ensures Valid() && JustShuffled(roll)
    {
      var n := |testIndices|;
      var shuffled := ShuffleRange(testIndices, 0, n, roll);
      RearrangedPermutes(testIndices, shuffled, 0, n);
      testIndices := shuffled;
    }

    method UnshuffleTests()
      requires Valid()
      modifies `testIndices
      ensures Valid() && testIndices == Range(0, |tests|)
    {
      var i := 0;
      while i < |testIndices|
        invariant 0 <= i <= |testIndices| == |tests|
        invariant forall k | 0 <= k < i :: testIndices[k] == k
      {
        testIndices := testIndices[i := i];
        i := i + 1;
      }
      assert testIndices == Range(0, |tests|);
    }
  }

  class UnitTestImpl {
    /** Does a name match the filter of death test cases? */
    const isDeathName: string -> bool
    var testCases: seq<TestCase>
    var testCaseIndices: seq<int>
    var lastDeathTestCase: int
    /** The test cases in the order of their registration. */
    ghost var registered: seq<TestCase>

    /** Those of the test cases that are for death tests, or those that are not, in the same order. */
    static ghost function Those(cases: seq<TestCase>, isDeathName: string -> bool, death: bool): seq<TestCase> {
      if cases == [] then []
      else
        var last := cases[|cases| - 1];
        Those(cases[..|cases| - 1], isDeathName, death) + if isDeathName(last.name) == death then [last] else []
    }

    /** The list has the death test cases in the order of their registration, then the others in theirs. */
    ghost predicate Listed()
      reads this
    {
      && testCases == Those(registered, isDeathName, true) + Those(registered, isDeathName, false)
      && lastDeathTestCase + 1 == |Those(registered, isDeathName, true)|
    }

    static ghost predicate DeathCasesFirst(cases: seq<TestCase>, d: int, isDeathName: string -> bool) {
      forall k | 0 <= k < |cases| :: isDeathName(cases[k].name) <==> k < d
    }

    /** The indices permute the death test cases and the others separately. */
    ghost predicate Valid()
      reads this
    {
      && Listed()
      && DeathFirst(testCaseIndices, lastDeathTestCase + 1, |testCases|)
    }

    ghost predicate Unshuffled()
      reads this
    {
      testCaseIndices == Range(0, |testCases|)
    }

    ghost predicate CasesValid()
      reads this, testCases
    {
      forall k | 0 <= k < |testCases| :: testCases[k].Valid()
    }

    constructor (isDeath: string -> bool)
      ensures Valid() && Unshuffled() && CasesValid() && registered == [] && isDeathName == isDeath
    {
      isDeathName, testCases, testCaseIndices, lastDeathTestCase, registered := isDeath, [], [], -1, [];
      NothingRegistered();
    }

    /** The test cases are run in the order of the indices: each exactly once, and all death test cases first. */
    lemma DeathTestsFirst()
      requires Valid()
      ensures forall i | 0 <= i < |testCases| ::
                && 0 <= testCaseIndices[i] < |testCases|
                && (isDeathName(testCases[testCaseIndices[i]].name) <==> i <= lastDeathTestCase)
      ensures forall c | 0 <= c < |testCases| :: c in testCaseIndices
      ensures forall i, j | 0 <= i < j < |testCases| :: testCaseIndices[i] != testCaseIndices[j]
    {
      KindsFirst(registered, isDeathName);
      DeathFirstMeans(testCaseIndices, lastDeathTestCase + 1, |testCases|);
    }

    static lemma {:induction false} ThoseAreOfOneKind(cases: seq<TestCase>, isDeathName: string -> bool, death: bool)
      ensures forall k | 0 <= k < |Those(cases, isDeathName, death)| ::
                isDeathName(Those(cases, isDeathName, death)[k].name) == death
      decreases |cases|
    {
      if cases != [] {
        ThoseAreOfOneKind(cases[..|cases| - 1], isDeathName, death);
      }
    }

    static lemma KindsFirst(cases: seq<TestCase>, isDeathName: string -> bool)
      ensures var deaths := Those(cases, isDeathName, true);
              DeathCasesFirst(deaths + Those(cases, isDeathName, false), |deaths|, isDeathName)
    {
      ThoseAreOfOneKind(cases, isDeathName, true);
      ThoseAreOfOneKind(cases, isDeathName, false);
    }

    /** No test case gets lost or doubled. */
    static lemma {:induction false} ThoseAreAll(cases: seq<TestCase>, isDeathName: string -> bool)
      ensures multiset(Those(cases, isDeathName, true) + Those(cases, isDeathName, false)) == multiset(cases)
      decreases |cases|
    {
      if cases != [] {
        var init := cases[..|cases| - 1];
        ThoseAreAll(init, isDeathName);
        assert cases == init + [cases[|cases| - 1]];
      }
    }

    /** The test cases in the order of the indices. */
    static function Picked(cases: seq<TestCase>, indices: seq<int>): seq<TestCase>
      requires forall i | 0 <= i < |indices| :: 0 <= indices[i] < |cases|
    {
      seq(|indices|, i requires 0 <= i < |indices| => cases[indices[i]])
    }

    // ---------------------------------------------------------------- shuffling

    /** Shuffles the death test cases and the others, and the tests of each, with one generator per shuffle. */
    method ShuffleTests(deathRoll: nat -> nat, otherRoll: nat -> nat, testRolls: nat -> nat -> nat)
      requires Valid() && CasesValid() && forall i, j | 0 <= i < j < |testCases| :: testCases[i] != testCases[j]
      requires Answers(deathRoll) && Answers(otherRoll) && forall i :: Answers(testRolls(i))
      modifies `testCaseIndices, testCases`testIndices
      ensures Valid() && CasesValid()
      ensures testCaseIndices
           == BothShuffled(old(testCaseIndices), lastDeathTestCase + 1, |testCases|, deathRoll, otherRoll)
      ensures forall k | 0 <= k < |testCases| :: testCases[k].JustShuffled(testRolls(k))
    {
      testCaseIndices := ShuffleBoth(testCaseIndices, lastDeathTestCase + 1, |testCases|, deathRoll, otherRoll);
      ShuffleEach(testRolls);
    }

    method ShuffleEach(testRolls: nat -> nat -> nat)
      requires CasesValid() && forall i, j | 0 <= i < j < |testCases| :: testCases[i] != testCases[j]
      requires forall i :: Answers(testRolls(i))
      modifies testCases`testIndices
      ensures CasesValid() && forall k | 0 <= k < |testCases| :: testCases[k].JustShuffled(testRolls(k))
    {
      var i := 0;
      while i < |testCases|
        invariant 0 <= i <= |testCases| && CasesValid()
        invariant forall k | i <= k < |testCases| :: testCases[k].testIndices == old(testCases[k].testIndices)
        invariant forall k | 0 <= k < i :: testCases[k].JustShuffled(testRolls(k))
      {
        testCases[i].ShuffleTests(testRolls(i));
        i := i + 1;
      }
    }

    /** Restores the order of the registration. */
    method UnshuffleTests()
      requires Valid() && CasesValid() && forall i, j | 0 <= i < j < |testCases| :: testCases[i] != testCases[j]
      modifies `testCaseIndices, testCases`testIndices
      ensures Valid() && CasesValid() && Unshuffled()
      ensures Picked(testCases, testCaseIndices)
           == Those(registered, isDeathName, true) + Those(registered, isDeathName, false)
      ensures forall k | 0 <= k < |testCases| :: testCases[k].testIndices == Range(0, |testCases[k].tests|)
    {
      UnshuffleEach();
      PickedInOrder(testCases);
      RangeIsDeathFirst(lastDeathTestCase + 1, |testCases|);
    }

    /** The loop of `UnshuffleTests`. */
    method UnshuffleEach()
      requires |testCaseIndices| == |testCases| && CasesValid()
      requires forall i, j | 0 <= i < j < |testCases| :: testCases[i] != testCases[j]
      modifies `testCaseIndices, testCases`testIndices
      ensures CasesValid() && Unshuffled()
      ensures forall k | 0 <= k < |testCases| :: testCases[k].testIndices == Range(0, |testCases[k].tests|)
    {
      var i := 0;
      while i < |testCases|
        invariant 0 <= i <= |testCases| == |testCaseIndices| && CasesValid()
        invariant forall k | 0 <= k < i :: testCaseIndices[k] == k
        invariant forall k | 0 <= k < i :: testCases[k].testIndices == Range(0, |testCases[k].tests|)
      {
        testCases[i].UnshuffleTests();
        testCaseIndices := testCaseIndices[i := i];
        i := i + 1;
      }
      assert testCaseIndices == Range(0, |testCases|);
    }

    static lemma PickedInOrder(cases: seq<TestCase>)
      ensures Picked(cases, Range(0, |cases|)) == cases
    {
    }

    // ---------------------------------------------------------------- registration

    ghost predicate Registered(name: string)
      reads this
    {
      IsNamed(testCases, name)
    }

    static ghost predicate IsNamed(cases: seq<TestCase>, name: string) {
      exists k :: 0 <= k < |cases| && cases[k].name == name
    }

    /** If a test case arrives, a death test case or not, is the order of the run still right? It is unless some other
        test case has been moved to the place behind the death test cases. */
    ghost predicate MayArrive(isDeath: bool)
      requires Valid()
      reads this
    {
      || !isDeath || lastDeathTestCase + 1 == |testCases|
      || testCaseIndices[lastDeathTestCase + 1] == lastDeathTestCase + 1
    }

    method FindTestCase(name: string) returns (i: nat)
      ensures i <= |testCases| && (i < |testCases| <==> Registered(name))
      ensures i < |testCases| ==> testCases[i].name == name
    {
      i := 0;
      while i < |testCases| && testCases[i].name != name
        invariant i <= |testCases| && forall k | 0 <= k < i :: testCases[k].name != name
      {
        i := i + 1;
      }
    }

    static lemma OneMoreCase(cases: seq<TestCase>, c: TestCase, isDeathName: string -> bool, death: bool)
      ensures Those(cases + [c], isDeathName, death)
           == Those(cases, isDeathName, death) + if isDeathName(c.name) == death then [c] else []
    {
      assert (cases + [c])[..|cases|] == cases;
    }

    lemma UnshuffledMayArrive(isDeath: bool)
      requires Valid() && Unshuffled()
      ensures MayArrive(isDeath)
      ensures testCaseIndices + [|testCases|] == Range(0, |testCases| + 1)
    {
    }

    static lemma PutBetween(a: seq<TestCase>, b: seq<TestCase>, c: TestCase)
      ensures (a + b)[..|a|] + [c] + (a + b)[|a|..] == (a + [c]) + b
      ensures a + b + [c] == a + (b + [c])
    {
    }

    /** A death test case goes behind the last of them, any other to the end. */
    method Place(c: TestCase)
      requires Listed()
      modifies `testCases, `lastDeathTestCase, `registered
      ensures Listed() && registered == old(registered) + [c] && |testCases| == |old(testCases)| + 1
      ensures lastDeathTestCase == old(lastDeathTestCase) + if isDeathName(c.name) then 1 else 0
    {
      OneMoreCase(registered, c, isDeathName, true);
      OneMoreCase(registered, c, isDeathName, false);
      PutBetween(Those(registered, isDeathName, true), Those(registered, isDeathName, false), c);
      if isDeathName(c.name) {
        lastDeathTestCase := lastDeathTestCase + 1;
        testCases := testCases[..lastDeathTestCase] + [c] + testCases[lastDeathTestCase..];
      } else {
        testCases := testCases + [c];
      }
      registered := registered + [c];
    }

    /** Creates a test case. The order of the run stays right exactly if no other test case has been moved to the
        place behind the death test cases when one of them arrives: on an unshuffled list always, on a shuffled one by
        luck. */
    method Register(name: string) returns (c: TestCase)
      requires Valid()
      modifies `testCases, `testCaseIndices, `lastDeathTestCase, `registered
      ensures fresh(c) && c.name == name && c.Valid()
      ensures registered == old(registered) + [c] && Listed()
      ensures testCaseIndices == old(testCaseIndices) + [|old(testCases)|]
      ensures lastDeathTestCase == old(lastDeathTestCase) + if isDeathName(name) then 1 else 0
      ensures Valid() <==> old(MayArrive(isDeathName(name)))
    {
      c := new TestCase(name);
      ghost var n, d, v := |testCases|, lastDeathTestCase + 1, testCaseIndices;
      IndexRegistered(v, d, n, isDeathName(name));
      Place(c);
      testCaseIndices := testCaseIndices + [|testCaseIndices|];
    }

    /** The test case of that name, which is created if there is none. */
    method GetTestCase(name: string) returns (c: TestCase)
      requires Valid()
      modifies `testCases, `testCaseIndices, `lastDeathTestCase, `registered
      ensures c.name == name && c in testCases && Registered(name)
      ensures old(Registered(name)) ==>
                && testCases == old(testCases) && testCaseIndices == old(testCaseIndices)
                && registered == old(registered) && Valid()
      ensures !old(Registered(name)) ==>
                && fresh(c) && c.Valid() && testCaseIndices == old(testCaseIndices) + [|old(testCases)|]
                && registered == old(registered) + [c] && Listed()
                && lastDeathTestCase == old(lastDeathTestCase) + (if isDeathName(name) then 1 else 0)
                && (Valid() <==> old(MayArrive(isDeathName(name))))
      ensures old(Unshuffled()) ==> Valid() && Unshuffled()
    {
      var i := FindTestCase(name);
      if i < |testCases| {
        return testCases[i];
      }
      if Unshuffled() {
        UnshuffledMayArrive(isDeathName(name));
      }
      c := Register(name);
    }
  }

  lemma RangeIsDeathFirst(d: nat, n: nat)
    requires d <= n
    ensures DeathFirst(Range(0, n), d, n)
  {
  }

  lemma NothingRegistered()
    ensures DeathFirst([], 0, 0) && Range(0, 0) == []
  {
  }

  lemma DeathFirstMeans(v: seq<int>, d: nat, n: nat)
    requires DeathFirst(v, d, n)
    ensures forall i | 0 <= i < n :: 0 <= v[i] < n && (v[i] < d <==> i < d)
    ensures forall i, j | 0 <= i < j < n :: v[i] != v[j]
    ensures forall c | 0 <= c < n :: c in v
  {
    forall c | 0 <= c < n
      ensures c in v
    {
      PermutesAll(v, 0, n, c);
    }
  }

  function BothShuffled(v: seq<int>, d: nat, n: nat, deathRoll: nat -> nat, otherRoll: nat -> nat): (w: seq<int>)
    requires d <= n == |v| && Answers(deathRoll) && Answers(otherRoll)
    ensures |w| == |v|
  {
    Shuffled(Shuffled(v, 0, d, deathRoll), d, n - d, otherRoll)
  }

  /** Shuffling the death test cases and the others separately. */
  method ShuffleBoth(v: seq<int>, d: nat, n: nat, deathRoll: nat -> nat, otherRoll: nat -> nat) returns (w: seq<int>)
    requires DeathFirst(v, d, n) && Answers(deathRoll) && Answers(otherRoll)
    ensures DeathFirst(w, d, n) && w == BothShuffled(v, d, n, deathRoll, otherRoll)
  {
    var u := ShuffleRange(v, 0, d, deathRoll);
    w := ShuffleRange(u, d, n, otherRoll);
    BothRearranged(v, u, w, d, n);
  }

  lemma BothRearranged(v: seq<int>, u: seq<int>, w: seq<int>, d: nat, n: nat)
    requires DeathFirst(v, d, n) && Rearranged(v, u, 0, d) && Rearranged(u, w, d, n)
    ensures DeathFirst(w, d, n)
  {
    RearrangedPermutes(v, w, 0, n);
    forall i | 0 <= i < n
      ensures w[i] < d <==> i < d
    {
      if i < d {
        var h := Origin(v, u, 0, d, i);
      } else {
        var h := Origin(u, w, d, n, i);
      }
    }
  }

  /** Another test case at the end is run at the end. */
  lemma OtherRegistered(v: seq<int>, d: nat, n: nat)
    requires DeathFirst(v, d, n)
    ensures DeathFirst(v + [n], d, n + 1)
  {
  }

  lemma IndexRegistered(v: seq<int>, d: nat, n: nat, isDeath: bool)
    requires DeathFirst(v, d, n)
    ensures DeathFirst(v + [n], if isDeath then d + 1 else d, n + 1) <==> !isDeath || d == n || v[d] == d
  {
    if isDeath {
      DeathRegistered(v, d, n);
    } else {
      OtherRegistered(v, d, n);
    }
  }

  /** A death test case takes place `d`, and the one that was there moves on: the indices that follow the death test
      cases must name it first. */
  lemma DeathRegistered(v: seq<int>, d: nat, n: nat)
    requires DeathFirst(v, d, n)
    ensures DeathFirst(v + [n], d + 1, n + 1) <==> d == n || v[d] == d
  {
    var w := v + [n];
    assert d < n ==> w[d] == v[d] && d <= v[d];
    if d < n && v[d] == d {
      assert forall i | d < i < n :: w[i] == v[i] && v[i] != v[d];
    }
  }

  /** The generator answers zero when it is asked for one of two places. */
  lemma ZeroSwaps(roll: nat -> nat)
    requires Answers(roll) && roll(2) == 0
    ensures BothShuffled([0, 1], 0, 2, roll, roll) == [1, 0]
  {
    assert Swapped([0, 1], 0, 1) == [1, 0];
    assert Shuffled([1, 0], 0, 1, roll) == [1, 0];
  }

  lemma OfThree(a: TestCase, b: TestCase, c: TestCase, isDeath: string -> bool, death: bool)
    ensures [] + [a] + [b] == [a, b] && [] + [a] + [b] + [c] == [a, b, c]
    ensures UnitTestImpl.Those([a], isDeath, death) == if isDeath(a.name) == death then [a] else []
    ensures UnitTestImpl.Those([a, b], isDeath, death)
         == UnitTestImpl.Those([a], isDeath, death) + if isDeath(b.name) == death then [b] else []
    ensures UnitTestImpl.Those([a, b, c], isDeath, death)
         == UnitTestImpl.Those([a, b], isDeath, death) + if isDeath(c.name) == death then [c] else []
  {
    UnitTestImpl.OneMoreCase([], a, isDeath, death);
    UnitTestImpl.OneMoreCase([a], b, isDeath, death);
    UnitTestImpl.OneMoreCase([a, b], c, isDeath, death);
    assert [] + [a] == [a] && [a] + [b] == [a, b] && [a, b] + [c] == [a, b, c];
  }

  /** Registration on an unshuffled list. */
  method Add(impl: UnitTestImpl, name: string) returns (c: TestCase)
    requires impl.Listed() && impl.Unshuffled()
    modifies impl
    ensures fresh(c) && c.name == name && c.Valid() && impl.Listed() && impl.Unshuffled()
    ensures impl.registered == old(impl.registered) + [c]
  {
    RangeIsDeathFirst(impl.lastDeathTestCase + 1, |impl.testCases|);
    impl.UnshuffledMayArrive(impl.isDeathName(name));
    c := impl.Register(name);
  }

  lemma ListOfThree(impl: UnitTestImpl, a: TestCase, b: TestCase, c: TestCase, made: seq<TestCase>)
    requires impl.Listed() && impl.registered == made + [c] && made == [] + [a] + [b]
    requires !impl.isDeathName(a.name) && impl.isDeathName(b.name) && impl.isDeathName(c.name)
    ensures impl.testCases == [b, c, a] && impl.lastDeathTestCase == 1
  {
    OfThree(a, b, c, impl.isDeathName, true);
    OfThree(a, b, c, impl.isDeathName, false);
  }

  lemma ListOfTwo(impl: UnitTestImpl, a: TestCase, b: TestCase)
    requires impl.Listed() && impl.registered == [] + [a] + [b]
    requires !impl.isDeathName(a.name) && !impl.isDeathName(b.name)
    ensures impl.testCases == [a, b] && impl.lastDeathTestCase == -1
  {
    OfThree(a, b, b, impl.isDeathName, true);
    OfThree(a, b, b, impl.isDeathName, false);
  }

  lemma UnshuffledTwo(impl: UnitTestImpl, a: TestCase, b: TestCase)
    requires impl.Listed() && impl.Unshuffled() && impl.testCases == [a, b] && impl.lastDeathTestCase == -1
    requires a.Valid() && b.Valid()
    ensures impl.Valid() && impl.CasesValid() && impl.testCaseIndices == [0, 1]
  {
    RangeIsDeathFirst(0, 2);
  }

  /** Two death test cases and another one: they are run as they were registered, but for the other one, which waits. */
  method DeathCasesInOrder(isDeath: string -> bool) returns (impl: UnitTestImpl, order: seq<TestCase>)
    requires isDeath("ADeathTest") && isDeath("BDeathTest") && !isDeath("Test")
    ensures fresh(impl) && impl.Valid() && impl.Unshuffled() && impl.testCases == order && |order| == 3
    ensures order[0].name == "ADeathTest" && order[1].name == "BDeathTest" && order[2].name == "Test"
  {
    impl := NewImpl(isDeath);
    var other := Add(impl, "Test");
    ghost var one := impl.registered;
    var a := Add(impl, "ADeathTest");
    ghost var two := impl.registered;
    assert one == [] + [other] && two == one + [a];
    var b := Add(impl, "BDeathTest");
    ListOfThree(impl, other, a, b, two);
    RangeIsDeathFirst(2, 3);
    order := impl.testCases;
  }

  method NewImpl(isDeath: string -> bool) returns (impl: UnitTestImpl)
    ensures fresh(impl) && impl.isDeathName == isDeath && impl.registered == []
    ensures impl.Listed() && impl.Unshuffled()
  {
    impl := new UnitTestImpl(isDeath);
  }

  /** Two test cases, neither of them for death tests. */
  method TwoRegistered(isDeath: string -> bool) returns (impl: UnitTestImpl)
    requires !isDeath("First") && !isDeath("Second")
    ensures fresh(impl) && impl.isDeathName == isDeath && impl.Valid() && impl.testCaseIndices == [0, 1]
    ensures |impl.testCases| == 2 && fresh(impl.testCases[0]) && fresh(impl.testCases[1])
    ensures impl.lastDeathTestCase == -1 && impl.testCases[0] != impl.testCases[1] && impl.CasesValid()
  {
    impl := NewImpl(isDeath);
    var first := Add(impl, "First");
    ghost var one := impl.registered;
    assert one == [] + [first];
    var second := Add(impl, "Second");
    assert impl.registered == one + [second];
    ListOfTwo(impl, first, second);
    UnshuffledTwo(impl, first, second);
  }

  /** They change places. */
  method TwoShuffled(isDeath: string -> bool) returns (impl: UnitTestImpl)
    requires !isDeath("First") && !isDeath("Second")
    ensures fresh(impl) && impl.isDeathName == isDeath && impl.Valid() && impl.lastDeathTestCase == -1
    ensures |impl.testCases| == 2 && impl.testCaseIndices == [1, 0]
  {
    impl := TwoRegistered(isDeath);
    var zero := (n: nat) => 0 as nat;
    ZeroSwaps(zero);
    impl.ShuffleTests(zero, zero, i => zero);
    assert impl.testCaseIndices == BothShuffled([0, 1], 0, 2, zero, zero);
  }

  /** Then a death test case arrives: it is run second. */
  method RegisteredAfterShuffle(isDeath: string -> bool) returns (impl: UnitTestImpl)
    requires isDeath("DeathTest") && !isDeath("First") && !isDeath("Second")
    ensures fresh(impl) && !impl.Valid() && impl.Listed()
    ensures impl.lastDeathTestCase == 0 && impl.testCaseIndices == [1, 0, 2]
  {
    impl := TwoShuffled(isDeath);
    var late := impl.Register("DeathTest");
  }
}
