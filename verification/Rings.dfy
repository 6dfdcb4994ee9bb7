/** Rings of nodes as values: a ring is the sequence of its members in `next` order, from any one of them. */
module Rings {
  import opened Common

  /** Successor and predecessor positions in a ring of `n` members. */
  function Succ(n: nat, i: nat): (j: nat)
    requires i < n
    ensures j < n
  {
    if i + 1 < n then i + 1 else 0
  }

  ghost predicate Linked<N>(next: map<N, N>, prev: map<N, N>, x: N, y: N) {
    x in next && y in prev && next[x] == y && prev[y] == x
  }

  ghost predicate LinkAt<N>(next: map<N, N>, prev: map<N, N>, r: seq<N>, i: nat)
    requires i < |r|
  {
    Linked(next, prev, r[i], r[Succ(|r|, i)])
  }

  /** `next` and `prev` run through `r` in opposite directions. */
  ghost predicate IsRing<N>(next: map<N, N>, prev: map<N, N>, r: seq<N>) {
    && |r| > 0
    && Distinct(r)
    && forall i {:trigger LinkAt(next, prev, r, i)} | 0 <= i < |r| :: LinkAt(next, prev, r, i)
  }

  /** The transposition of `a` and `b`. */
  function Exchange<N(==)>(a: N, b: N, x: N): N {
    if x == a then b else if x == b then a else x
  }

  function Exchanged<N(==)>(a: N, b: N, r: seq<N>): seq<N> {
    seq(|r|, i requires 0 <= i < |r| => Exchange(a, b, r[i]))
  }

  ghost predicate ConjugatedAt<N>(f: map<N, N>, f': map<N, N>, a: N, b: N, x: N) {
    x in f && Exchange(a, b, x) in f' && f'[Exchange(a, b, x)] == Exchange(a, b, f[x])
  }

  /** `f'` is `f` with the places of `a` and `b` exchanged: conjugation by the transposition. */
  ghost predicate Conjugated<N>(f: map<N, N>, f': map<N, N>, a: N, b: N) {
    && f'.Keys == f.Keys && a in f && b in f
    && forall x {:trigger ConjugatedAt(f, f', a, b, x)} | x in f :: ConjugatedAt(f, f', a, b, x)
  }

  lemma ExchangeKeepsLink<N>(next: map<N, N>, prev: map<N, N>, next': map<N, N>, prev': map<N, N>,
                             a: N, b: N, x: N, y: N)
    requires Linked(next, prev, x, y)
    requires Conjugated(next, next', a, b) && Conjugated(prev, prev', a, b)
    ensures Linked(next', prev', Exchange(a, b, x), Exchange(a, b, y))
  {
    assert ConjugatedAt(next, next', a, b, x) && ConjugatedAt(prev, prev', a, b, y);
  }

  lemma ExchangeKeepsDistinct<N>(a: N, b: N, r: seq<N>)
    requires Distinct(r)
    ensures Distinct(Exchanged(a, b, r))
  {
  }

  lemma ExchangeKeepsRing<N>(next: map<N, N>, prev: map<N, N>, next': map<N, N>, prev': map<N, N>,
                             a: N, b: N, r: seq<N>)
    requires IsRing(next, prev, r)
    requires Conjugated(next, next', a, b) && Conjugated(prev, prev', a, b)
    ensures IsRing(next', prev', Exchanged(a, b, r))
  {
    var r' := Exchanged(a, b, r);
    ExchangeKeepsDistinct(a, b, r);
    forall i | 0 <= i < |r'|
      ensures LinkAt(next', prev', r', i)
    {
      assert LinkAt(next, prev, r, i);
      ExchangeKeepsLink(next, prev, next', prev', a, b, r[i], r[Succ(|r|, i)]);
    }
  }

  function Inserted<N>(r: seq<N>, i: nat, x: N): seq<N>
    requires i < |r|
  {
    r[..i + 1] + [x] + r[i + 1..]
  }

  function Without<N>(r: seq<N>, i: nat): seq<N>
    requires i < |r|
  {
    r[..i] + r[i + 1..]
  }

  /** Linking `x` in behind `r[i]`. */
  lemma InsertKeepsRing<N>(next: map<N, N>, prev: map<N, N>, next': map<N, N>, prev': map<N, N>,
                           r: seq<N>, i: nat, x: N)
    requires IsRing(next, prev, r) && i < |r| && x !in r
    requires LinkAt(next, prev, r, i)
    requires next' == next[x := next[r[i]]][r[i] := x]
    requires prev' == prev[x := r[i]][next[r[i]] := x]
    ensures IsRing(next', prev', Inserted(r, i, x))
  {
    var r' := Inserted(r, i, x);
    forall k | 0 <= k < |r'|
      ensures LinkAt(next', prev', r', k)
    {
      if k < i {
        assert LinkAt(next, prev, r, k);
      } else if k == i {
        assert r'[Succ(|r'|, k)] == x;
      } else if k == i + 1 {
        assert r'[k] == x && r'[Succ(|r'|, k)] == r[Succ(|r|, i)];
      } else {
        assert LinkAt(next, prev, r, k - 1);
        assert r'[k] == r[k - 1] && r'[Succ(|r'|, k)] == r[Succ(|r|, k - 1)];
      }
    }
  }

  function Pred(n: nat, i: nat): (h: nat)
    requires i < n
    ensures h < n && Succ(n, h) == i
  {
    if i == 0 then n - 1 else i - 1
  }

  lemma WithoutKeepsDistinct<N>(r: seq<N>, i: nat)
    requires Distinct(r) && i < |r|
    ensures Distinct(Without(r, i))
  {
    var r' := Without(r, i);
    forall a, b | 0 <= a < b < |r'|
      ensures r'[a] != r'[b]
    {
      assert r'[a] == r[if a < i then a else a + 1] && r'[b] == r[if b < i then b else b + 1];
    }
  }

  /** Unlinking `r[i]` from a ring that has other members. */
  lemma RemoveKeepsRing<N>(next: map<N, N>, prev: map<N, N>, next': map<N, N>, prev': map<N, N>, r: seq<N>, i: nat)
    requires IsRing(next, prev, r) && i < |r| && |r| > 1
    requires LinkAt(next, prev, r, i) && LinkAt(next, prev, r, Pred(|r|, i))
    requires next' == next[r[Pred(|r|, i)] := r[Succ(|r|, i)]]
    requires prev' == prev[r[Succ(|r|, i)] := r[Pred(|r|, i)]]
    ensures IsRing(next', prev', Without(r, i))
  {
    var r' := Without(r, i);
    WithoutKeepsDistinct(r, i);
    forall k | 0 <= k < |r'|
      ensures LinkAt(next', prev', r', k)
    {
      var k0 := if k < i then k else k + 1;
      assert r'[k] == r[k0];
      if k0 == Pred(|r|, i) {
        assert r'[Succ(|r'|, k)] == r[Succ(|r|, i)];
      } else {
        assert LinkAt(next, prev, r, k0);
        assert Succ(|r|, k0) != i;
        assert r'[Succ(|r'|, k)] == r[Succ(|r|, k0)];
        assert Succ(|r|, k0) != Succ(|r|, i);
      }
    }
  }

  /** Writes to nodes outside a ring leave it alone. */
  lemma RingFrame<N>(next: map<N, N>, prev: map<N, N>, next': map<N, N>, prev': map<N, N>, r: seq<N>)
    requires IsRing(next, prev, r)
    requires forall x <- r :: x in next && x in prev ==>
                                x in next' && x in prev' && next'[x] == next[x] && prev'[x] == prev[x]
    ensures IsRing(next', prev', r)
  {
    forall i | 0 <= i < |r|
      ensures LinkAt(next', prev', r, i)
    {
      assert LinkAt(next, prev, r, i);
      assert LinkAt(next, prev, r, Pred(|r|, i));
      assert LinkAt(next, prev, r, Succ(|r|, i));
    }
  }

  // ---------------------------------------------------------------- the links of a set of nodes

  ghost predicate CoupledAt<N>(next: map<N, N>, prev: map<N, N>, x: N) {
    && x in next && next[x] in prev && prev[next[x]] == x
    && x in prev && prev[x] in next && next[prev[x]] == x
  }

  /** `next` and `prev` are inverse permutations of one set. */
  ghost predicate Coupled<N>(next: map<N, N>, prev: map<N, N>) {
    && next.Keys == prev.Keys
    && forall x {:trigger CoupledAt(next, prev, x)} | x in next :: CoupledAt(next, prev, x)
  }

  lemma ConjugateKeepsCoupled<N>(next: map<N, N>, prev: map<N, N>, next': map<N, N>, prev': map<N, N>, a: N, b: N)
    requires Coupled(next, prev)
    requires Conjugated(next, next', a, b) && Conjugated(prev, prev', a, b)
    ensures Coupled(next', prev')
  {
    forall x | x in next'
      ensures CoupledAt(next', prev', x)
    {
      var y := Exchange(a, b, x);
      assert CoupledAt(next, prev, y);
      ExchangeKeepsLink(next, prev, next', prev', a, b, y, next[y]);
      ExchangeKeepsLink(next, prev, next', prev', a, b, prev[y], y);
    }
  }

  /** `a` is alone and `b` has neighbours: `a` takes the place of `b`. */
  lemma SwapAlone<N>(next: map<N, N>, prev: map<N, N>, next': map<N, N>, prev': map<N, N>, a: N, b: N)
    requires Coupled(next, prev) && a in next && b in next && a != b
    requires next[a] == a && next[b] != b
    requires next' == next[a := next[b]][prev[b] := a][b := b]
    requires prev' == prev[a := prev[b]][next[b] := a][b := b]
    ensures Conjugated(next, next', a, b) && Conjugated(prev, prev', a, b)
  {
    assert CoupledAt(next, prev, a) && CoupledAt(next, prev, b);
    forall x | x in next
      ensures ConjugatedAt(next, next', a, b, x) && ConjugatedAt(prev, prev', a, b, x)
    {
      assert CoupledAt(next, prev, x);
    }
  }

  /** `b` directly follows `a` in a ring of at least three. */
  lemma SwapNeighbours<N>(next: map<N, N>, prev: map<N, N>, next': map<N, N>, prev': map<N, N>, a: N, b: N)
    requires Coupled(next, prev) && a in next && b in next && a != b
    requires next[a] == b && prev[a] != b
    requires next' == next[a := next[b]][b := a][prev[a] := b]
    requires prev' == prev[a := b][b := prev[a]][next[b] := a]
    ensures Conjugated(next, next', a, b) && Conjugated(prev, prev', a, b)
  {
    assert CoupledAt(next, prev, a) && CoupledAt(next, prev, b);
    forall x | x in next
      ensures ConjugatedAt(next, next', a, b, x) && ConjugatedAt(prev, prev', a, b, x)
    {
      assert CoupledAt(next, prev, x);
    }
  }

  /** `a` and `b` are neither alone nor adjacent: one ring or two makes no difference. */
  lemma SwapApart<N>(next: map<N, N>, prev: map<N, N>, next': map<N, N>, prev': map<N, N>, a: N, b: N)
    requires Coupled(next, prev) && a in next && b in next
    requires next[a] !in {a, b} && next[b] !in {a, b} && prev[a] !in {a, b}
    requires next' == next[a := next[b]][b := next[a]][prev[b] := a][prev[a] := b]
    requires prev' == prev[a := prev[b]][b := prev[a]][next[b] := a][next[a] := b]
    ensures Conjugated(next, next', a, b) && Conjugated(prev, prev', a, b)
  {
    assert CoupledAt(next, prev, a) && CoupledAt(next, prev, b);
    forall x | x in next
      ensures ConjugatedAt(next, next', a, b, x) && ConjugatedAt(prev, prev', a, b, x)
    {
      assert CoupledAt(next, prev, x);
    }
  }

  /** In a ring of two, exchanging the members is doing nothing. */
  lemma SwapPair<N>(next: map<N, N>, prev: map<N, N>, a: N, b: N)
    requires Coupled(next, prev) && a in next && b in next && next[a] == b && prev[a] == b
    ensures Conjugated(next, next, a, b) && Conjugated(prev, prev, a, b)
  {
    assert CoupledAt(next, prev, a) && CoupledAt(next, prev, b);
    forall x | x in next
      ensures ConjugatedAt(next, next, a, b, x) && ConjugatedAt(prev, prev, a, b, x)
    {
      assert CoupledAt(next, prev, x);
    }
  }

  lemma SwapBothAlone<N>(next: map<N, N>, prev: map<N, N>, a: N, b: N)
    requires Coupled(next, prev) && a in next && b in next && next[a] == a && next[b] == b
    ensures Conjugated(next, next, a, b) && Conjugated(prev, prev, a, b)
  {
    assert CoupledAt(next, prev, a) && CoupledAt(next, prev, b);
    forall x | x in next
      ensures ConjugatedAt(next, next, a, b, x) && ConjugatedAt(prev, prev, a, b, x)
    {
      assert CoupledAt(next, prev, x);
    }
  }

  lemma ExchangeIsSymmetric<N>(a: N, b: N, x: N)
    ensures Exchange(a, b, x) == Exchange(b, a, x)
  {
  }

  lemma ConjugatedIsSymmetric<N>(f: map<N, N>, f': map<N, N>, a: N, b: N)
    requires Conjugated(f, f', b, a)
    ensures Conjugated(f, f', a, b)
  {
    forall x | x in f
      ensures ConjugatedAt(f, f', a, b, x)
    {
      assert ConjugatedAt(f, f', b, a, x);
      ExchangeIsSymmetric(a, b, x);
      ExchangeIsSymmetric(a, b, f[x]);
    }
  }

  lemma InsertKeepsCoupled<N>(next: map<N, N>, prev: map<N, N>, next': map<N, N>, prev': map<N, N>, a: N, x: N)
    requires Coupled(next, prev) && a in next && x !in next
    requires next' == next[x := next[a]][a := x]
    requires prev' == prev[x := a][next[a] := x]
    ensures Coupled(next', prev')
  {
    assert CoupledAt(next, prev, a);
    forall y | y in next'
      ensures CoupledAt(next', prev', y)
    {
      if y != x {
        assert CoupledAt(next, prev, y);
      }
    }
  }

  lemma RemoveAloneKeepsCoupled<N>(next: map<N, N>, prev: map<N, N>, x: N)
    requires Coupled(next, prev) && (x in next ==> next[x] == x)
    ensures Coupled(next - {x}, prev - {x})
  {
    assert x in next ==> CoupledAt(next, prev, x);
    forall y | y in next - {x}
      ensures CoupledAt(next - {x}, prev - {x}, y)
    {
      assert CoupledAt(next, prev, y);
    }
  }

  lemma RemoveKeepsCoupled<N>(next: map<N, N>, prev: map<N, N>, next': map<N, N>, prev': map<N, N>, x: N)
    requires Coupled(next, prev) && x in next && next[x] != x && prev[x] != x
    requires next' == next[prev[x] := next[x]] - {x}
    requires prev' == prev[next[x] := prev[x]] - {x}
    ensures Coupled(next', prev')
  {
    assert CoupledAt(next, prev, x);
    forall y | y in next'
      ensures CoupledAt(next', prev', y)
    {
      assert CoupledAt(next, prev, y);
    }
  }

  // ---------------------------------------------------------------- merging two rings

  /** The last branch of `Merge`, where both nodes have neighbours. It couples the links again exactly when the ring of
      `a` has two members; otherwise the members between the neighbours of `a` are lost to `next` but not to `prev`. */
  lemma SpliceCouples<N>(next: map<N, N>, prev: map<N, N>, next': map<N, N>, prev': map<N, N>, a: N, b: N)
    requires Coupled(next, prev) && a in next && b in next
    requires a !in {next[a], b, next[b]} && b !in {next[b], next[a], prev[a]}
    requires next' == next[prev[b] := prev[a]][a := b]
    requires prev' == prev[next[a] := prev[b]][b := a]
    ensures Coupled(next', prev') <==> next[a] == prev[a]
  {
    assert CoupledAt(next, prev, a) && CoupledAt(next, prev, b);
    var q := prev[b];
    assert CoupledAt(next, prev, q);
    if next[a] == prev[a] {
      forall x | x in next'
        ensures CoupledAt(next', prev', x)
      {
        assert CoupledAt(next, prev, x);
      }
    } else {
      assert CoupledAt(next, prev, prev[a]);
      assert !CoupledAt(next', prev', q);
    }
  }

  /** `b` is alone and enters before `a`. */
  lemma AdoptCouples<N>(next: map<N, N>, prev: map<N, N>, next': map<N, N>, prev': map<N, N>, a: N, b: N)
    requires Coupled(next, prev) && a in next && b in next && a != b && next[b] == b
    requires next' == next[b := a][prev[a] := b]
    requires prev' == prev[b := prev[a]][a := b]
    ensures Coupled(next', prev')
  {
    assert CoupledAt(next, prev, a) && CoupledAt(next, prev, b);
    forall x | x in next'
      ensures CoupledAt(next', prev', x)
    {
      assert CoupledAt(next, prev, x);
    }
  }

  /** The neighbours of the first member. */
  lemma RingEnds<N>(next: map<N, N>, prev: map<N, N>, r: seq<N>)
    requires IsRing(next, prev, r)
    ensures r[0] in next && r[0] in prev && next[r[0]] == r[Succ(|r|, 0)] && prev[r[0]] == r[|r| - 1]
    ensures r[|r| - 1] in next && r[Succ(|r|, 0)] in prev
    ensures next[r[0]] == r[0] <==> |r| == 1
    ensures next[r[0]] == prev[r[0]] <==> |r| <= 2
  {
    assert LinkAt(next, prev, r, 0) && LinkAt(next, prev, r, |r| - 1);
  }

  lemma PrevInRing<N>(next: map<N, N>, prev: map<N, N>, r: seq<N>, x: N)
    requires IsRing(next, prev, r) && x in r
    ensures x in prev && prev[x] in r
  {
    var i :| 0 <= i < |r| && r[i] == x;
    assert LinkAt(next, prev, r, Pred(|r|, i));
  }

  /** Two rings that do not share the first member of one share none. */
  lemma {:induction false} RingsApart<N>(next: map<N, N>, prev: map<N, N>, r: seq<N>, t: seq<N>, k: nat)
    requires IsRing(next, prev, r) && IsRing(next, prev, t) && t[0] !in r && k < |t|
    ensures t[k] !in r
    decreases k
  {
    if k > 0 {
      RingsApart(next, prev, r, t, k - 1);
      assert LinkAt(next, prev, t, k - 1);
      if t[k] in r {
        PrevInRing(next, prev, r, t[k]);
      }
    }
  }

  lemma DistinctTogether<N>(r: seq<N>, t: seq<N>)
    requires Distinct(r) && Distinct(t) && forall k | 0 <= k < |t| :: t[k] !in r
    ensures Distinct(r + t)
  {
    forall i, j | 0 <= i < j < |r + t|
      ensures (r + t)[i] != (r + t)[j]
    {
      if i < |r| <= j {
        assert t[j - |r|] !in r;
      }
    }
  }

  /** The members of `t` enter between the last member of `r` and its first. */
  lemma AppendMakesRing<N>(next: map<N, N>, prev: map<N, N>, next': map<N, N>, prev': map<N, N>, r: seq<N>, t: seq<N>)
    requires IsRing(next, prev, r) && IsRing(next, prev, t) && t[0] !in r
    requires next' == next[t[|t| - 1] := r[0]][r[|r| - 1] := t[0]]
    requires prev' == prev[t[0] := r[|r| - 1]][r[0] := t[|t| - 1]]
    ensures IsRing(next', prev', r + t)
  {
    forall k | 0 <= k < |t|
      ensures t[k] !in r
    {
      RingsApart(next, prev, r, t, k);
    }
    DistinctTogether(r, t);
    forall k | 0 <= k < |r + t|
      ensures LinkAt(next', prev', r + t, k)
    {
      if k < |r| {
        assert LinkAt(next, prev, r, k);
      } else {
        assert LinkAt(next, prev, t, k - |r|);
      }
    }
  }

  /** The last branch of `Merge`, for a ring of two: the members of `t` enter between its members. */
  lemma SpliceMakesRing<N>(next: map<N, N>, prev: map<N, N>, next': map<N, N>, prev': map<N, N>, r: seq<N>, t: seq<N>)
    requires IsRing(next, prev, r) && IsRing(next, prev, t) && t[0] !in r && |r| == 2
    requires next' == next[t[|t| - 1] := r[1]][r[0] := t[0]]
    requires prev' == prev[r[1] := t[|t| - 1]][t[0] := r[0]]
    ensures IsRing(next', prev', [r[0]] + t + [r[1]])
  {
    forall k | 0 <= k < |t|
      ensures t[k] !in r
    {
      RingsApart(next, prev, r, t, k);
    }
    assert LinkAt(next, prev, r, 0) && LinkAt(next, prev, r, 1);
    var s := [r[0]] + t + [r[1]];
    assert Distinct(s);
    forall k | 0 <= k < |s|
      ensures LinkAt(next', prev', s, k)
    {
      if 1 <= k <= |t| {
        assert LinkAt(next, prev, t, k - 1);
      }
    }
  }

  /** The maps differ at most at the members of `r`. */
  ghost predicate SameOutside<N>(f: map<N, N>, f': map<N, N>, r: seq<N>) {
    f'.Keys == f.Keys && forall x | x in f && x !in r :: f'[x] == f[x]
  }

  /** The ring that `Merge` makes of the ring of `a` and the ring of `b`, from `a` on. */
  function Joined<N>(r: seq<N>, t: seq<N>): seq<N>
    requires r != []
  {
    if |r| == 1 || |t| == 1 then r + t else [r[0]] + t + r[1..]
  }

  /** What `Merge` leaves of two different rings. */
  ghost predicate Merged<N>(next: map<N, N>, prev: map<N, N>, next': map<N, N>, prev': map<N, N>,
                            r: seq<N>, t: seq<N>)
  {
    && r != []
    && SameOutside(next, next', r + t) && SameOutside(prev, prev', r + t)
    && (Coupled(next', prev') <==> |t| == 1 || |r| <= 2)
    && (Coupled(next', prev') ==> IsRing(next', prev', Joined(r, t)))
  }

  lemma AdoptMerges<N>(next: map<N, N>, prev: map<N, N>, next': map<N, N>, prev': map<N, N>, r: seq<N>, t: seq<N>)
    requires Coupled(next, prev)
    requires IsRing(next, prev, r) && IsRing(next, prev, t) && t[0] !in r && (|r| == 1 || |t| == 1)
    requires next' == next[t[|t| - 1] := r[0]][r[|r| - 1] := t[0]]
    requires prev' == prev[t[0] := r[|r| - 1]][r[0] := t[|t| - 1]]
    ensures Merged(next, prev, next', prev', r, t)
  {
    RingEnds(next, prev, r);
    RingEnds(next, prev, t);
    RingsApart(next, prev, r, t, |t| - 1);
    AppendMakesRing(next, prev, next', prev', r, t);
    if |t| == 1 {
      AdoptCouples(next, prev, next', prev', r[0], t[0]);
    } else {
      AdoptCouples(next, prev, next', prev', t[0], r[0]);
    }
    assert r[0] in r && r[|r| - 1] in r && t[0] in t && t[|t| - 1] in t;
  }

  lemma SpliceMerges<N>(next: map<N, N>, prev: map<N, N>, next': map<N, N>, prev': map<N, N>, r: seq<N>, t: seq<N>)
    requires Coupled(next, prev)
    requires IsRing(next, prev, r) && IsRing(next, prev, t) && t[0] !in r && |r| > 1 && |t| > 1
    requires next' == next[t[|t| - 1] := r[|r| - 1]][r[0] := t[0]]
    requires prev' == prev[r[1] := t[|t| - 1]][t[0] := r[0]]
    ensures Merged(next, prev, next', prev', r, t)
  {
    RingEnds(next, prev, r);
    RingEnds(next, prev, t);
    RingsApart(next, prev, r, t, 1);
    SpliceCouples(next, prev, next', prev', r[0], t[0]);
    if |r| == 2 {
      SpliceMakesRing(next, prev, next', prev', r, t);
      assert r[1..] == [r[1]];
    }
    assert r[0] in r + t && r[1] in r + t && t[0] in r + t;
    assert r[|r| - 1] in r && t[|t| - 1] in t;
  }
}
