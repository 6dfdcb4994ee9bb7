/** Google Mock's expectations: sequences order them, and a call retires what must come before it. */
module Expectations {
  import opened Common

  class Expectation {
    /** When this expectation was made: a number for each, in the order of creation. */
    const born: nat
    var retired: bool
    /** The immediate prerequisites, in the order of the set that keeps them. */
    var prerequisites: seq<Expectation>

    constructor (b: nat)
      ensures born == b && !retired && prerequisites == []
    {
      born, retired, prerequisites := b, false, [];
    }
  }

  // ---------------------------------------------------------------- the graph of prerequisites

  type Graph = map<Expectation, seq<Expectation>>

  /** `g` is what the expectations say. */
  ghost predicate Shows(g: Graph)
    reads g.Keys`prerequisites
  {
    forall e | e in g :: e.prerequisites == g[e]
  }

  ghost predicate OlderThan(g: Graph, e: Expectation)
    requires e in g
  {
    forall i | 0 <= i < |g[e]| :: g[e][i] in g && g[e][i].born < e.born
  }

  /** Prerequisites are expectations of the same graph and older. */
  ghost predicate Older(g: Graph) { forall e {:trigger OlderThan(g, e)} | e in g :: OlderThan(g, e) }

  /** The transitive prerequisites. */
  ghost function Ancestors(e: Expectation, g: Graph): (s: set<Expectation>)
    requires Older(g) && e in g
    ensures s <= g.Keys
    decreases e.born, |g[e]| + 1
  {
    AncestorsOfFirst(e, |g[e]|, g)
  }

  /** The first `n` prerequisites, and theirs. */
  ghost function AncestorsOfFirst(e: Expectation, n: nat, g: Graph): (s: set<Expectation>)
    requires Older(g) && e in g && n <= |g[e]|
    ensures s <= g.Keys
    decreases e.born, n
  {
    if n == 0 then {}
    else
      assert OlderThan(g, e);
      var p := g[e][n - 1];
      AncestorsOfFirst(e, n - 1, g) + {p} + Ancestors(p, g)
  }

  /** An expectation is retired only after all its prerequisites. */
  ghost predicate InOrderAt(g: Graph, e: Expectation)
    requires e in g
    reads g.Keys`retired
  {
    e.retired ==> forall i | 0 <= i < |g[e]| :: g[e][i] in g && g[e][i].retired
  }

  ghost predicate InOrder(g: Graph)
    reads g.Keys`retired
  {
    forall e {:trigger InOrderAt(g, e)} | e in g :: InOrderAt(g, e)
  }

  ghost predicate AllRetired(s: set<Expectation>)
    reads s`retired
  {
    forall x | x in s :: x.retired
  }

  /** The short cut is sound: everything before a retired expectation is retired. */
  lemma {:induction false} RetiredAncestors(e: Expectation, n: nat, g: Graph)
    requires Older(g) && InOrder(g) && e in g && e.retired && n <= |g[e]|
    ensures AllRetired(AncestorsOfFirst(e, n, g))
    decreases e.born, n
  {
    if n > 0 {
      assert OlderThan(g, e) && InOrderAt(g, e);
      var p := g[e][n - 1];
      RetiredAncestors(e, n - 1, g);
      RetiredAncestors(p, |g[p]|, g);
    }
  }

  /** Only older expectations are before an expectation, so it is not before itself. */
  lemma {:induction false} AncestorsAreOlder(e: Expectation, n: nat, g: Graph)
    requires Older(g) && e in g && n <= |g[e]|
    ensures forall a | a in AncestorsOfFirst(e, n, g) :: a.born < e.born
    decreases e.born, n
  {
    if n > 0 {
      assert OlderThan(g, e);
      var p := g[e][n - 1];
      AncestorsAreOlder(e, n - 1, g);
      AncestorsAreOlder(p, |g[p]|, g);
    }
  }

  /** The immediate prerequisites are among them. */
  lemma {:induction false} HasPrerequisites(e: Expectation, n: nat, g: Graph)
    requires Older(g) && e in g && n <= |g[e]|
    ensures forall i | 0 <= i < n :: g[e][i] in AncestorsOfFirst(e, n, g)
    decreases n
  {
    if n > 0 {
      HasPrerequisites(e, n - 1, g);
    }
  }

  // ---------------------------------------------------------------- edges that may make a cycle

  /** Ranks that fall along every edge: the graph has no cycle. */
  ghost predicate RankedAt(g: Graph, rank: map<Expectation, nat>, e: Expectation)
    requires e in g
  {
    e in rank && forall i | 0 <= i < |g[e]| :: g[e][i] in g && g[e][i] in rank && rank[g[e][i]] < rank[e]
  }

  ghost predicate Ranked(g: Graph, rank: map<Expectation, nat>) { forall e | e in g :: RankedAt(g, rank, e) }

  ghost function WithEdge(g: Graph, e: Expectation, p: Expectation): Graph
    requires e in g
  {
    g[e := g[e] + [p]]
  }

  /** Does `e` come before `x`, or is it `x`? */
  ghost predicate AtOrAfter(x: Expectation, e: Expectation, g: Graph)
    requires Older(g) && x in g
  {
    x == e || e in Ancestors(x, g)
  }

  lemma {:induction false} EdgesLeadUp(x: Expectation, n: nat, i: nat, e: Expectation, g: Graph)
    requires Older(g) && x in g && i < n <= |g[x]| && g[x][i] in g && AtOrAfter(g[x][i], e, g)
    ensures e in AncestorsOfFirst(x, n, g)
    decreases n
  {
    if i < n - 1 {
      EdgesLeadUp(x, n - 1, i, e, g);
    }
  }

  lemma {:induction false} BornBelow(all: set<Expectation>) returns (bound: nat)
    ensures forall x | x in all :: x.born < bound
    decreases |all|
  {
    bound := 0;
    if all != {} {
      var x :| x in all;
      bound := BornBelow(all - {x});
      bound := if bound <= x.born then x.born + 1 else bound;
    }
  }

  /** One more prerequisite makes no cycle unless the expectation is that prerequisite or must come before it. */
  lemma EdgeWithoutCycle(g: Graph, e: Expectation, p: Expectation) returns (rank: map<Expectation, nat>)
    requires Older(g) && e in g && p in g && !AtOrAfter(p, e, g)
    ensures Ranked(WithEdge(g, e, p), rank)
  {
    var bound := BornBelow(g.Keys);
    rank := map x | x in g :: x.born + if AtOrAfter(x, e, g) then bound else 0;
    var g' := WithEdge(g, e, p);
    forall x | x in g'
      ensures RankedAt(g', rank, x)
    {
      assert OlderThan(g, x);
      forall i | 0 <= i < |g'[x]|
        ensures g'[x][i] in g' && g'[x][i] in rank && rank[g'[x][i]] < rank[x]
      {
        if i < |g[x]| && AtOrAfter(g[x][i], e, g) {
          EdgesLeadUp(x, |g[x]|, i, e, g);
        }
      }
    }
  }

  /** If it is, or must, no ranks fall along all edges. */
  lemma EdgeWithCycle(g: Graph, e: Expectation, p: Expectation, rank: map<Expectation, nat>)
    requires Older(g) && e in g && p in g && AtOrAfter(p, e, g)
    ensures !Ranked(WithEdge(g, e, p), rank)
  {
    var g' := WithEdge(g, e, p);
    if Ranked(g', rank) {
      assert RankedAt(g', rank, e) && g'[e][|g[e]|] == p;
      if p != e {
        RanksFall(g, e, p, g', |g[p]|, rank);
      }
    }
  }

  lemma {:induction false} RanksFall(g: Graph, e: Expectation, x: Expectation, g': Graph, n: nat,
                                     rank: map<Expectation, nat>)
    requires Older(g) && x in g && n <= |g[x]| && e in AncestorsOfFirst(x, n, g)
    requires g'.Keys == g.Keys && Ranked(g', rank) && forall y | y in g :: g[y] <= g'[y]
    ensures e in rank && x in rank && rank[e] < rank[x]
    decreases x.born, n
  {
    assert OlderThan(g, x) && RankedAt(g', rank, x);
    var q := g[x][n - 1];
    assert g'[x][n - 1] == q;
    if e in AncestorsOfFirst(x, n - 1, g) {
      RanksFall(g, e, x, g', n - 1, rank);
    } else if e != q {
      RanksFall(g, e, q, g', |g[q]|, rank);
    }
  }

  // ---------------------------------------------------------------- retiring

  /** `s` has been retired, and nothing else. */
  twostate predicate JustRetired(g: Graph, s: set<Expectation>)
    reads g.Keys
  {
    forall x | x in g :: x.retired <==> old(x.retired) || x in s
  }

  method Retire(e: Expectation, ghost g: Graph)
    requires InOrder(g) && e in g && forall i | 0 <= i < |g[e]| :: g[e][i] in g && g[e][i].retired
    modifies e`retired
    ensures InOrder(g) && e.retired
  {
    e.retired := true;
    forall x | x in g
      ensures InOrderAt(g, x)
    {
      assert old(InOrderAt(g, x));
    }
  }

  /** Retires exactly the transitive prerequisites that are not retired yet. */
  method RetireAllPreRequisites(e: Expectation, ghost g: Graph)
    requires Shows(g) && Older(g) && InOrder(g) && e in g
    modifies g.Keys`retired
    ensures InOrder(g) && JustRetired(g, Ancestors(e, g))
    decreases e.born, 0
  {
    if e.retired {
      RetiredAncestors(e, |g[e]|, g);
      return;
    }
    var i := 0;
    while i < |e.prerequisites|
      invariant 0 <= i <= |g[e]| && InOrder(g) && JustRetired(g, AncestorsOfFirst(e, i, g))
    {
      assert OlderThan(g, e);
      RetirePreRequisite(e.prerequisites[i], g);
      i := i + 1;
    }
  }

  /** One turn of the loop. */
  method RetirePreRequisite(p: Expectation, ghost g: Graph)
    requires Shows(g) && Older(g) && InOrder(g) && p in g
    modifies g.Keys`retired
    ensures InOrder(g) && JustRetired(g, {p} + Ancestors(p, g))
    decreases p.born, 1
  {
    if p.retired {
      RetiredAncestors(p, |g[p]|, g);
    } else {
      HasPrerequisites(p, |g[p]|, g);
      assert OlderThan(g, p);
      RetireAllPreRequisites(p, g);
      Retire(p, g);
    }
  }

  // ---------------------------------------------------------------- when the retirement ends

  ghost function RetiredOf(g: Graph): set<Expectation>
    reads g.Keys`retired
  {
    set x | x in g && x.retired
  }

  /** Prerequisites are expectations of the graph. */
  ghost predicate Closed(g: Graph) { forall x | x in g :: ClosedAt(g, x) }

  ghost predicate ClosedAt(g: Graph, x: Expectation)
    requires x in g
  {
    forall i | 0 <= i < |g[x]| :: g[x][i] in g
  }

  /** What the recursion of `RetireAllPreRequisites` retires on any graph, if it ends within `depth` nested calls. */
  ghost function RetireWithin(e: Expectation, g: Graph, retired: set<Expectation>, depth: nat): Option<set<Expectation>>
    requires Closed(g) && e in g
    decreases depth, 0
  {
    if depth == 0 then None
    else if e in retired then Some(retired)
    else RetireFirstWithin(e, |g[e]|, g, retired, depth - 1)
  }

  /** The first `n` turns of its loop. */
  ghost function RetireFirstWithin(e: Expectation, n: nat, g: Graph, retired: set<Expectation>, depth: nat):
    Option<set<Expectation>>
    requires Closed(g) && e in g && n <= |g[e]|
    decreases depth, 1 + n
  {
    if n == 0 then Some(retired)
    else
      var before := RetireFirstWithin(e, n - 1, g, retired, depth);
      assert ClosedAt(g, e);
      if before.None? || g[e][n - 1] in before.value then before
      else
        var within := RetireWithin(g[e][n - 1], g, before.value, depth);
        if within.None? then None else Some(within.value + {g[e][n - 1]})
  }

  /** A set with what comes immediately before its members. */
  ghost predicate DownClosed(g: Graph, s: set<Expectation>) { forall x | x in s && x in g :: DownClosedAt(g, s, x) }

  ghost predicate DownClosedAt(g: Graph, s: set<Expectation>, x: Expectation)
    requires x in g
  {
    forall i | 0 <= i < |g[x]| :: g[x][i] in s
  }

  lemma {:induction false} AncestorsInside(e: Expectation, n: nat, g: Graph, s: set<Expectation>)
    requires Older(g) && DownClosed(g, s) && e in g && e in s && n <= |g[e]|
    ensures AncestorsOfFirst(e, n, g) <= s
    decreases e.born, n
  {
    if n > 0 {
      assert OlderThan(g, e) && DownClosedAt(g, s, e);
      AncestorsInside(e, n - 1, g, s);
      AncestorsInside(g[e][n - 1], |g[g[e][n - 1]]|, g, s);
    }
  }

  /** Where the recursion ends, it has retired the transitive prerequisites and nothing else. */
  lemma {:induction false} WithinRetiresAncestors(e: Expectation, g: Graph, retired: set<Expectation>, depth: nat)
    requires Closed(g) && Older(g) && DownClosed(g, retired) && e in g && RetireWithin(e, g, retired, depth).Some?
    ensures RetireWithin(e, g, retired, depth) == Some(retired + Ancestors(e, g))
    ensures DownClosed(g, retired + Ancestors(e, g))
    decreases depth, 0
  {
    if e in retired {
      AncestorsInside(e, |g[e]|, g, retired);
      assert retired + Ancestors(e, g) == retired;
    } else {
      FirstWithinRetiresAncestors(e, |g[e]|, g, retired, depth - 1);
    }
  }

  lemma {:induction false} FirstWithinRetiresAncestors(e: Expectation, n: nat, g: Graph, retired: set<Expectation>,
                                                       depth: nat)
    requires Closed(g) && Older(g) && DownClosed(g, retired) && e in g && n <= |g[e]|
    requires RetireFirstWithin(e, n, g, retired, depth).Some?
    ensures RetireFirstWithin(e, n, g, retired, depth) == Some(retired + AncestorsOfFirst(e, n, g))
    ensures DownClosed(g, retired + AncestorsOfFirst(e, n, g))
    decreases depth, 1 + n
  {
    if n == 0 {
      assert retired + AncestorsOfFirst(e, n, g) == retired;
    } else {
      FirstWithinRetiresAncestors(e, n - 1, g, retired, depth);
      var p, before := g[e][n - 1], retired + AncestorsOfFirst(e, n - 1, g);
      assert OlderThan(g, e);
      if p in before {
        AncestorsInside(p, |g[p]|, g, before);
        assert retired + AncestorsOfFirst(e, n, g) == before;
      } else {
        WithinRetiresAncestors(p, g, before, depth);
        AddKeepsDownClosed(g, before + Ancestors(p, g), p);
        assert retired + AncestorsOfFirst(e, n, g) == before + Ancestors(p, g) + {p};
      }
    }
  }

  lemma AddKeepsDownClosed(g: Graph, s: set<Expectation>, p: Expectation)
    requires Older(g) && DownClosed(g, s) && p in g && Ancestors(p, g) <= s
    ensures DownClosed(g, s + {p})
  {
    HasPrerequisites(p, |g[p]|, g);
    forall x | x in s + {p} && x in g
      ensures DownClosedAt(g, s + {p}, x)
    {
      assert x in s ==> DownClosedAt(g, s, x);
    }
  }

  ghost predicate LeadsInto(c: set<Expectation>, g: Graph, x: Expectation)
    requires x in g
  {
    exists i :: 0 <= i < |g[x]| && g[x][i] in c
  }

  /** Each expectation of `c` has a prerequisite in `c`. */
  ghost predicate Endless(c: set<Expectation>, g: Graph) {
    forall x {:trigger LeadsInto(c, g, x)} | x in c :: x in g && LeadsInto(c, g, x)
  }

  /** If each expectation of `c` has a prerequisite in `c`, none of them is ever retired: the recursion does not come
      back from them, however many nested calls it is given. */
  lemma {:induction false} NeverEnds(c: set<Expectation>, x: Expectation, g: Graph,
                                     retired: set<Expectation>, depth: nat)
    requires Closed(g) && Endless(c, g) && x in g && c !! retired
    ensures match RetireWithin(x, g, retired, depth) case None => true case Some(r) => x !in c && c !! r
    decreases depth, 0
  {
    if depth > 0 && x !in retired {
      NeverEndsFirst(c, x, |g[x]|, g, retired, depth - 1);
      assert x in c ==> LeadsInto(c, g, x);
    }
  }

  lemma {:induction false} NeverEndsFirst(c: set<Expectation>, x: Expectation, n: nat, g: Graph,
                                          retired: set<Expectation>, depth: nat)
    requires Closed(g) && Endless(c, g) && x in g && c !! retired && n <= |g[x]|
    ensures match RetireFirstWithin(x, n, g, retired, depth) case None => true case Some(r) => c !! r
    ensures RetireFirstWithin(x, n, g, retired, depth).Some? ==> forall i | 0 <= i < n :: g[x][i] !in c
    decreases depth, 1 + n
  {
    if n > 0 {
      NeverEndsFirst(c, x, n - 1, g, retired, depth);
      var before := RetireFirstWithin(x, n - 1, g, retired, depth);
      assert ClosedAt(g, x);
      if before.Some? {
        NeverEnds(c, g[x][n - 1], g, before.value, depth);
      }
    }
  }

  /** Ranks bound the number of nested calls. */
  lemma {:induction false} EndsByRank(x: Expectation, g: Graph, rank: map<Expectation, nat>,
                                      retired: set<Expectation>, depth: nat)
    requires Closed(g) && Ranked(g, rank) && x in g && RankedAt(g, rank, x) && rank[x] < depth
    ensures RetireWithin(x, g, retired, depth).Some?
    decreases depth, 0
  {
    if x !in retired {
      EndsByRankFirst(x, |g[x]|, g, rank, retired, depth - 1);
    }
  }

  lemma {:induction false} EndsByRankFirst(x: Expectation, n: nat, g: Graph, rank: map<Expectation, nat>,
                                           retired: set<Expectation>, depth: nat)
    requires Closed(g) && Ranked(g, rank) && x in g && RankedAt(g, rank, x) && rank[x] <= depth && n <= |g[x]|
    ensures RetireFirstWithin(x, n, g, retired, depth).Some?
    decreases depth, 1 + n
  {
    if n > 0 {
      EndsByRankFirst(x, n - 1, g, rank, retired, depth);
      assert ClosedAt(g, x);
      assert RankedAt(g, rank, g[x][n - 1]);
      EndsByRank(g[x][n - 1], g, rank, RetireFirstWithin(x, n - 1, g, retired, depth).value, depth);
    }
  }

  /** What must come after `e`, and `e`. */
  ghost function AtOrAfterSet(e: Expectation, g: Graph): set<Expectation>
    requires Older(g)
  {
    set x | x in g && AtOrAfter(x, e, g)
  }

  lemma {:induction false} LeadsDown(x: Expectation, n: nat, e: Expectation, g: Graph)
    requires Older(g) && x in g && n <= |g[x]| && e in AncestorsOfFirst(x, n, g)
    ensures LeadsInto(AtOrAfterSet(e, g), g, x)
    decreases n
  {
    assert OlderThan(g, x);
    if e in AncestorsOfFirst(x, n - 1, g) {
      LeadsDown(x, n - 1, e, g);
    } else {
      assert g[x][n - 1] in AtOrAfterSet(e, g);
    }
  }

  lemma WithEdgeIsClosed(g: Graph, e: Expectation, p: Expectation)
    requires Older(g) && e in g && p in g
    ensures Closed(WithEdge(g, e, p))
  {
    var g' := WithEdge(g, e, p);
    forall x | x in g'
      ensures ClosedAt(g', x)
    {
      assert OlderThan(g, x);
    }
  }

  /** With a cycle, retiring what comes before anything at or after `e` does not end at any depth. */
  lemma CycleNeverEnds(g: Graph, e: Expectation, p: Expectation, x: Expectation, depth: nat)
    requires Older(g) && InOrder(g) && e in g && p in g && !e.retired
    requires AtOrAfter(p, e, g) && x in g && AtOrAfter(x, e, g)
    ensures Closed(WithEdge(g, e, p)) && RetireWithin(x, WithEdge(g, e, p), RetiredOf(g), depth) == None
  {
    WithEdgeIsClosed(g, e, p);
    var g', c := WithEdge(g, e, p), AtOrAfterSet(e, g);
    forall y | y in c
      ensures LeadsInto(c, g', y)
      ensures y !in RetiredOf(g)
    {
      if y == e {
        assert g'[e][|g[e]|] == p;
      } else {
        LeadsDown(y, |g[y]|, e, g);
        if y.retired {
          RetiredAncestors(y, |g[y]|, g);
        }
      }
    }
    NeverEnds(c, x, g', RetiredOf(g), depth);
  }

  /** Making `p` come before `e`: the retirement of what comes before `e` ends exactly if `e` need not come before
      `p`. */
  lemma EndsExactlyWithoutCycle(g: Graph, e: Expectation, p: Expectation)
    requires Older(g) && InOrder(g) && e in g && p in g && !e.retired
    ensures Closed(WithEdge(g, e, p))
    ensures !AtOrAfter(p, e, g) <==> exists depth :: RetireWithin(e, WithEdge(g, e, p), RetiredOf(g), depth).Some?
  {
    WithEdgeIsClosed(g, e, p);
    if AtOrAfter(p, e, g) {
      forall depth
        ensures RetireWithin(e, WithEdge(g, e, p), RetiredOf(g), depth) == None
      {
        CycleNeverEnds(g, e, p, e, depth);
      }
    } else {
      var rank := EdgeWithoutCycle(g, e, p);
      assert RankedAt(WithEdge(g, e, p), rank, e);
      EndsByRank(e, WithEdge(g, e, p), rank, RetiredOf(g), rank[e] + 1);
    }
  }

  // ---------------------------------------------------------------- sequences

  /** When ages and the order of retirement survive one more prerequisite. */
  lemma EdgeKeeps(g: Graph, e: Expectation, p: Expectation)
    requires Older(g) && InOrder(g) && e in g && p in g
    ensures Older(WithEdge(g, e, p)) <==> p.born < e.born
    ensures InOrder(WithEdge(g, e, p)) <==> !e.retired || p.retired
  {
    var g' := WithEdge(g, e, p);
    assert g'[e][|g[e]|] == p;
    assert OlderThan(g, e) && InOrderAt(g, e);
    forall x | x in g && x != e
      ensures OlderThan(g', x) && InOrderAt(g', x)
    {
      assert OlderThan(g, x) && InOrderAt(g, x);
    }
    assert Older(g') <==> OlderThan(g', e);
    assert InOrder(g') <==> InOrderAt(g', e);
  }

  class Sequence {
    var lastExpectation: Expectation?

    constructor ()
      ensures lastExpectation == null
    {
      lastExpectation := null;
    }

    /** Appends an expectation: the last one of the sequence must come before it, and nothing else changes. Ages stay
        right exactly if that one is older, and the order of retirement exactly if no retired expectation follows one
        that is not. */
    method AddExpectation(e: Expectation, ghost g: Graph) returns (ghost g': Graph)
      requires Shows(g) && Older(g) && InOrder(g) && e in g
      requires lastExpectation != null && lastExpectation != e ==> lastExpectation in g
      modifies this, e`prerequisites
      ensures lastExpectation == e && Shows(g')
      ensures g' == if old(lastExpectation) in {null, e} then g else WithEdge(g, e, old(lastExpectation))
      ensures Older(g') <==> old(lastExpectation) in {null, e} || old(lastExpectation).born < e.born
      ensures InOrder(g') <==> old(lastExpectation) in {null, e} || !e.retired || old(lastExpectation).retired
    {
      g' := g;
      if lastExpectation != e {
        if lastExpectation != null {
          e.prerequisites := e.prerequisites + [lastExpectation];
          g' := WithEdge(g, e, lastExpectation);
          EdgeKeeps(g, e, lastExpectation);
        }
        lastExpectation := e;
      }
    }
  }

  /** Two expectations with nothing to come before them. */
  method TwoExpectations() returns (a: Expectation, b: Expectation, ghost g: Graph)
    ensures fresh(a) && fresh(b) && a.born < b.born && !a.retired && !b.retired
    ensures g == map[a := [], b := []] && Shows(g) && Older(g) && InOrder(g)
  {
    a := new Expectation(0);
    b := new Expectation(1);
    g := map[a := [], b := []];
  }

  /** A sequence of two expectations. */
  method OneSequence() returns (a: Expectation, b: Expectation, ghost g: Graph)
    ensures fresh(a) && fresh(b) && a.born < b.born && !a.retired && !b.retired
    ensures g == map[a := [], b := [a]] && Shows(g) && Older(g) && InOrder(g)
  {
    a, b, g := TwoExpectations();
    var s := new Sequence();
    g := s.AddExpectation(a, g);
    g := s.AddExpectation(b, g);
    assert g[b] == [a];
    assert g == map[a := [], b := [a]];
  }

  lemma OppositeEdge(a: Expectation, b: Expectation, g: Graph, g': Graph)
    requires Older(g) && InOrder(g) && a != b && g == map[a := [], b := [a]] && !a.retired
    requires g' == WithEdge(g, a, b)
    ensures g' == map[a := [b], b := [a]] && Closed(g')
    ensures forall x, depth | x in {a, b} :: RetireWithin(x, g', RetiredOf(g'), depth) == None
  {
    WithEdgeIsClosed(g, a, b);
    HasPrerequisites(b, 1, g);
    assert g[b][0] == a;
    assert g'[a] == [b];
    assert g' == map[a := [b], b := [a]];
    assert RetiredOf(g') == RetiredOf(g);
    forall x, depth | x in {a, b}
      ensures RetireWithin(x, g', RetiredOf(g'), depth) == None
    {
      CycleNeverEnds(g, a, b, x, depth);
    }
  }

  /** Then a second sequence of the same expectations in the opposite order: each must come before the other, and the
      retirement of what comes before either of them ends at no depth of calls. */
  method OppositeSequences() returns (a: Expectation, b: Expectation, ghost g: Graph)
    ensures fresh(a) && fresh(b) && a != b && !a.retired && !b.retired
    ensures Shows(g) && g == map[a := [b], b := [a]] && Closed(g)
    ensures forall x, depth | x in {a, b} :: RetireWithin(x, g, RetiredOf(g), depth) == None
  {
    a, b, g := OneSequence();
    var s := new Sequence();
    ghost var before := g;
    g := s.AddExpectation(b, g);
    g := s.AddExpectation(a, g);
    OppositeEdge(a, b, before, g);
  }
}
