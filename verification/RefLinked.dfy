/** Loki::Private::RefLinkedBase: reference-linked ownership. The smart pointers to one object form a circular doubly
    linked list of their `RefLinkedBase` parts; the last one to leave destroys the object. */
module RefLinked {
  import opened Rings

  type Links = map<RefLinkedBase?, RefLinkedBase?>

  ghost function NextOf(nodes: set<RefLinkedBase>): Links
    reads nodes
  {
    map n: RefLinkedBase? | n in nodes :: n.next
  }

  ghost function PrevOf(nodes: set<RefLinkedBase>): Links
    reads nodes
  {
    map n: RefLinkedBase? | n in nodes :: n.prev
  }

  ghost predicate WellLinked(nodes: set<RefLinkedBase>)
    reads nodes
  {
    Coupled(NextOf(nodes), PrevOf(nodes))
  }

  /** The links of a node stay among the nodes. */
  lemma LinksOf(n: RefLinkedBase, nodes: set<RefLinkedBase>)
    requires WellLinked(nodes) && n in nodes
    ensures n.next != null && n.next in nodes && n.next.prev == n
    ensures n.prev != null && n.prev in nodes && n.prev.next == n
  {
    assert CoupledAt(NextOf(nodes), PrevOf(nodes), n);
    assert n.next in NextOf(nodes) && n.prev in NextOf(nodes);
  }

  lemma LastWriteWins(m: Links, x: RefLinkedBase, y: RefLinkedBase,
                      v: RefLinkedBase?, w: RefLinkedBase?, u: RefLinkedBase?)
    requires x != y
    ensures m[x := v][y := w][x := u] == m[x := u][y := w]
    ensures m[y := w][x := v][x := u] == m[x := u][y := w] == m[y := w][x := u]
  {
  }

  class RefLinkedBase {
    var prev: RefLinkedBase?
    var next: RefLinkedBase?

    constructor ()
      ensures WellLinked({this}) && next == this
    {
      prev := this;
      next := this;
      new;
      assert CoupledAt(NextOf({this}), PrevOf({this}), this);
    }

    constructor Copy(rhs: RefLinkedBase, ghost nodes: set<RefLinkedBase>)
      requires WellLinked(nodes) && rhs in nodes
      modifies nodes
      ensures WellLinked(nodes + {this})
      ensures NextOf(nodes + {this}) == old(NextOf(nodes))[this := old(rhs.next)][rhs := this]
      ensures PrevOf(nodes + {this}) == old(PrevOf(nodes))[this := rhs][old(rhs.next) := this]
    {
      LinksOf(rhs, nodes);
      prev := rhs;
      next := rhs.next;
      new;
      prev.next := this;
      next.prev := this;
      InsertKeepsCoupled(old(NextOf(nodes)), old(PrevOf(nodes)), NextOf(nodes + {this}), PrevOf(nodes + {this}),
                         rhs, this);
    }

    method Release(ghost nodes: set<RefLinkedBase>) returns (last: bool)
      requires WellLinked(nodes)
      requires this in nodes || (next == null && prev == null)
      modifies nodes
      ensures last <==> this in nodes && old(next) == this
      ensures last ==> next == null && prev == null
      ensures WellLinked(nodes - {this})
      ensures var ns, ps := old(NextOf(nodes)), old(PrevOf(nodes));
              if this in nodes && !last then
                && NextOf(nodes - {this}) == ns[old(prev) := old(next)] - {this}
                && PrevOf(nodes - {this}) == ps[old(next) := old(prev)] - {this}
              else NextOf(nodes - {this}) == ns - {this} && PrevOf(nodes - {this}) == ps - {this}
    {
      if this in nodes {
        LinksOf(this, nodes);
      }
      if next == null {
        assert nodes - {this} == nodes;
        return false;
      } else if next == this {
        prev := null;
        next := null;
        RemoveAloneKeepsCoupled(old(NextOf(nodes)), old(PrevOf(nodes)), this);
        return true;
      }
      prev.next := next;
      next.prev := prev;
      RemoveKeepsCoupled(old(NextOf(nodes)), old(PrevOf(nodes)), NextOf(nodes - {this}), PrevOf(nodes - {this}), this);
      return false;
    }

    /** `std::swap(x.next_, y.next_)` */
    static method SwapNexts(x: RefLinkedBase, y: RefLinkedBase, ghost nodes: set<RefLinkedBase>)
      requires x in nodes && y in nodes
      modifies x`next, y`next
      ensures x.next == old(y.next) && y.next == old(x.next)
      ensures NextOf(nodes) == old(NextOf(nodes))[x := old(y.next)][y := old(x.next)]
      ensures PrevOf(nodes) == old(PrevOf(nodes))
    {
      x.next, y.next := y.next, x.next;
    }

    /** `std::swap(x.prev_, y.prev_)` */
    static method SwapPrevs(x: RefLinkedBase, y: RefLinkedBase, ghost nodes: set<RefLinkedBase>)
      requires x in nodes && y in nodes
      modifies x`prev, y`prev
      ensures x.prev == old(y.prev) && y.prev == old(x.prev)
      ensures PrevOf(nodes) == old(PrevOf(nodes))[x := old(y.prev)][y := old(x.prev)]
      ensures NextOf(nodes) == old(NextOf(nodes))
    {
      x.prev, y.prev := y.prev, x.prev;
    }

    /** `std::swap(x.next_, y.prev_)`, where `x` and `y` may be one node */
    static method SwapNextPrev(x: RefLinkedBase, y: RefLinkedBase, ghost nodes: set<RefLinkedBase>)
      requires x in nodes && y in nodes
      modifies x`next, y`prev
      ensures x.next == old(y.prev) && y.prev == old(x.next)
      ensures NextOf(nodes) == old(NextOf(nodes))[x := old(y.prev)]
      ensures PrevOf(nodes) == old(PrevOf(nodes))[y := old(x.next)]
    {
      x.next, y.prev := y.prev, x.next;
    }

    /** Exchanges the places of two nodes, wherever they are. */
    method Swap(rhs: RefLinkedBase, ghost nodes: set<RefLinkedBase>)
      requires WellLinked(nodes) && this in nodes && rhs in nodes
      modifies nodes
      decreases next != this
      ensures WellLinked(nodes)
      ensures Conjugated(old(NextOf(nodes)), NextOf(nodes), this, rhs)
      ensures Conjugated(old(PrevOf(nodes)), PrevOf(nodes), this, rhs)
    {
      ghost var ns, ps := NextOf(nodes), PrevOf(nodes);
      LinksOf(this, nodes);
      LinksOf(rhs, nodes);
      if next == this {
        if rhs.next == rhs {
          SwapBothAlone(ns, ps, this, rhs);
          return;
        }
        TakePlaceOf(rhs, nodes);
      } else if rhs.next == rhs {
        rhs.Swap(this, nodes);
        ConjugatedIsSymmetric(ns, NextOf(nodes), this, rhs);
        ConjugatedIsSymmetric(ps, PrevOf(nodes), this, rhs);
      } else if next == rhs {
        if prev == rhs {
          SwapPair(ns, ps, this, rhs);
          return;
        }
        SwapWithNext(rhs, nodes);
      } else if prev == rhs {
        SwapWithPrev(rhs, nodes);
      } else {
        SwapNotNeighbours(rhs, nodes);
      }
      ConjugateKeepsCoupled(ns, ps, NextOf(nodes), PrevOf(nodes), this, rhs);
    }

    /** This node is alone and `rhs` is not. */
    method TakePlaceOf(rhs: RefLinkedBase, ghost nodes: set<RefLinkedBase>)
      requires WellLinked(nodes) && this in nodes && rhs in nodes
      requires next == this && rhs.next != rhs
      modifies nodes
      ensures Conjugated(old(NextOf(nodes)), NextOf(nodes), this, rhs)
      ensures Conjugated(old(PrevOf(nodes)), PrevOf(nodes), this, rhs)
    {
      ghost var ns, ps := NextOf(nodes), PrevOf(nodes);
      LinksOf(this, nodes);
      LinksOf(rhs, nodes);
      prev := rhs.prev;
      next := rhs.next;
      prev.next := this;
      next.prev := this;
      rhs.next := rhs;
      rhs.prev := rhs;
      SwapAlone(ns, ps, NextOf(nodes), PrevOf(nodes), this, rhs);
    }

    /** The first three swaps of both neighbour branches, for `y` directly behind `x`. The branches differ only in
        which node they call `this`; the first two swaps touch one node each, so their order does not matter. */
    static method TurnPair(x: RefLinkedBase, y: RefLinkedBase, ghost nodes: set<RefLinkedBase>)
      requires x in nodes && y in nodes && x != y && x.next == y && y.prev == x
      modifies x, y
      ensures x.prev == y && x.next == old(y.next) && y.prev == old(x.prev) && y.next == x
      ensures NextOf(nodes) == old(NextOf(nodes))[x := old(y.next)][y := x]
      ensures PrevOf(nodes) == old(PrevOf(nodes))[x := y][y := old(x.prev)]
    {
      SwapNextPrev(x, x, nodes);
      SwapNextPrev(y, y, nodes);
      SwapNextPrev(x, y, nodes);
      LastWriteWins(old(NextOf(nodes)), x, y, old(x.prev), x, old(y.next));
      LastWriteWins(old(PrevOf(nodes)), y, x, old(y.next), y, old(x.prev));
    }

    /** The branch `next_ == &rhs`, in a ring of at least three. */
    method SwapWithNext(rhs: RefLinkedBase, ghost nodes: set<RefLinkedBase>)
      requires WellLinked(nodes) && this in nodes && rhs in nodes
      requires next == rhs != this && prev != rhs
      modifies nodes
      ensures Conjugated(old(NextOf(nodes)), NextOf(nodes), this, rhs)
      ensures Conjugated(old(PrevOf(nodes)), PrevOf(nodes), this, rhs)
    {
      ghost var ns, ps := NextOf(nodes), PrevOf(nodes);
      LinksOf(this, nodes);
      LinksOf(rhs, nodes);
      TurnPair(this, rhs, nodes);
      SwapNextPrev(rhs.prev, next, nodes);
      SwapNeighbours(ns, ps, NextOf(nodes), PrevOf(nodes), this, rhs);
    }

    /** The branch `prev_ == &rhs`, in a ring of at least three. */
    method SwapWithPrev(rhs: RefLinkedBase, ghost nodes: set<RefLinkedBase>)
      requires WellLinked(nodes) && this in nodes && rhs in nodes
      requires prev == rhs != this && next != rhs
      modifies nodes
      ensures Conjugated(old(NextOf(nodes)), NextOf(nodes), this, rhs)
      ensures Conjugated(old(PrevOf(nodes)), PrevOf(nodes), this, rhs)
    {
      ghost var ns, ps := NextOf(nodes), PrevOf(nodes);
      LinksOf(this, nodes);
      LinksOf(rhs, nodes);
      TurnPair(rhs, this, nodes);
      SwapNextPrev(prev, rhs.next, nodes);
      SwapNeighbours(ns, ps, NextOf(nodes), PrevOf(nodes), rhs, this);
      ConjugatedIsSymmetric(ns, NextOf(nodes), this, rhs);
      ConjugatedIsSymmetric(ps, PrevOf(nodes), this, rhs);
    }

    /** The last branch, which a self-swap of a node with neighbours also takes. */
    method SwapNotNeighbours(rhs: RefLinkedBase, ghost nodes: set<RefLinkedBase>)
      requires WellLinked(nodes) && this in nodes && rhs in nodes
      requires next !in {this, rhs} && prev != rhs && rhs.next != rhs
      modifies nodes
      ensures Conjugated(old(NextOf(nodes)), NextOf(nodes), this, rhs)
      ensures Conjugated(old(PrevOf(nodes)), PrevOf(nodes), this, rhs)
    {
      ghost var ns, ps := NextOf(nodes), PrevOf(nodes);
      LinksOf(this, nodes);
      LinksOf(rhs, nodes);
      SwapPrevs(this, rhs, nodes);
      SwapNexts(this, rhs, nodes);
      SwapNexts(prev, rhs.prev, nodes);
      SwapPrevs(next, rhs.next, nodes);
      SwapApart(ns, ps, NextOf(nodes), PrevOf(nodes), this, rhs);
    }

    /** `ring` lists the ring of this node from this node on, unless the node has been released. */
    ghost predicate Runs(nodes: set<RefLinkedBase>, ring: seq<RefLinkedBase?>)
      reads this, nodes
    {
      if next == null then prev == null
      else this in nodes && IsRing(NextOf(nodes), PrevOf(nodes), ring) && ring[0] == this
    }

    /** Is `p` this node or in its ring? */
    method HasPrevNode(p: RefLinkedBase?, ghost nodes: set<RefLinkedBase>, ghost ring: seq<RefLinkedBase?>)
      returns (b: bool)
      requires Runs(nodes, ring)
      ensures b <==> p == this || (next != null && p in ring)
    {
      if this == p {
        return true;
      }
      var q := prev;
      if q == null {
        assert next != null ==> LinkAt(NextOf(nodes), PrevOf(nodes), ring, |ring| - 1);
        return false;
      }
      ghost var k := |ring| - 1;
      assert LinkAt(NextOf(nodes), PrevOf(nodes), ring, k);
      while q != this
        invariant 0 <= k < |ring| && q == ring[k]
        invariant p !in ring[k + 1..]
        decreases k
      {
        if p == q {
          return true;
        }
        assert LinkAt(NextOf(nodes), PrevOf(nodes), ring, k - 1);
        assert ring[k..] == [ring[k]] + ring[k + 1..];
        q := q.prev;
        k := k - 1;
      }
      assert ring == [ring[0]] + ring[1..];
      return false;
    }

    static method CountNextCycle(pThis: RefLinkedBase?, ghost nodes: set<RefLinkedBase>,
                                 ghost ring: seq<RefLinkedBase?>)
      returns (count: nat)
      requires pThis != null ==> pThis.Runs(nodes, ring)
      ensures count == if pThis == null || pThis.next == null then 0 else |ring|
    {
      if pThis == null {
        return 0;
      }
      var p := pThis.next;
      if p == null {
        return 0;
      }
      assert LinkAt(NextOf(nodes), PrevOf(nodes), ring, 0);
      if p == pThis {
        return 1;
      }
      count := 1;
      while p != pThis
        invariant 1 <= count <= |ring|
        invariant p == if count < |ring| then ring[count] else pThis
        decreases |ring| - count
      {
        assert LinkAt(NextOf(nodes), PrevOf(nodes), ring, count);
        p := p.next;
        count := count + 1;
      }
    }

    /** Joins the ring of `rhs`, which is `other`, to this one, and answers whether this node is in use at all. If both
        are and their rings differ, the links stay coupled exactly when one of the nodes is alone or this ring has two
        members; the result is then one ring of all the members. */
    method Merge(rhs: RefLinkedBase, ghost nodes: set<RefLinkedBase>, ghost ring: seq<RefLinkedBase?>,
                 ghost other: seq<RefLinkedBase?>)
      returns (merged: bool)
      requires WellLinked(nodes) && Runs(nodes, ring) && rhs.Runs(nodes, other)
      modifies nodes
      ensures merged <==> old(next) != null
      ensures old(next) == null || old(rhs.next) == null || rhs in ring ==>
                NextOf(nodes) == old(NextOf(nodes)) && PrevOf(nodes) == old(PrevOf(nodes))
      ensures old(next) != null && old(rhs.next) != null && rhs !in ring ==>
                Merged(old(NextOf(nodes)), old(PrevOf(nodes)), NextOf(nodes), PrevOf(nodes), ring, other)
    {
      if next == null {
        return false;
      }
      if rhs == this {
        return true;
      }
      if rhs.next == null {
        return true;
      }
      var joined := HasPrevNode(rhs, nodes, ring);
      if !joined {
        Join(rhs, nodes, ring, other);
      }
      return true;
    }

    /** The first two branches of `Merge` that write: `x`, which is alone, enters before `y`. */
    static method Adopt(y: RefLinkedBase, x: RefLinkedBase, ghost nodes: set<RefLinkedBase>)
      requires WellLinked(nodes) && x in nodes && y in nodes && x != y && x.next == x
      modifies nodes
      ensures NextOf(nodes) == old(NextOf(nodes))[x := y][old(y.prev) := x]
      ensures PrevOf(nodes) == old(PrevOf(nodes))[x := old(y.prev)][y := x]
    {
      LinksOf(x, nodes);
      LinksOf(y, nodes);
      x.prev := y.prev;
      x.next := y;
      y.prev.next := x;
      y.prev := x;
    }

    /** The branches of `Merge` that write. */
    method Join(rhs: RefLinkedBase, ghost nodes: set<RefLinkedBase>, ghost ring: seq<RefLinkedBase?>,
                ghost other: seq<RefLinkedBase?>)
      requires WellLinked(nodes) && Runs(nodes, ring) && rhs.Runs(nodes, other)
      requires next != null && rhs.next != null && rhs !in ring
      modifies nodes
      ensures Merged(old(NextOf(nodes)), old(PrevOf(nodes)), NextOf(nodes), PrevOf(nodes), ring, other)
    {
      ghost var ns, ps := NextOf(nodes), PrevOf(nodes);
      RingEnds(ns, ps, ring);
      RingEnds(ns, ps, other);
      LinksOf(this, nodes);
      LinksOf(rhs, nodes);
      if rhs == rhs.next {
        Adopt(this, rhs, nodes);
        AdoptMerges(ns, ps, NextOf(nodes), PrevOf(nodes), ring, other);
      } else if this == next {
        Adopt(rhs, this, nodes);
        AdoptMerges(ns, ps, NextOf(nodes), PrevOf(nodes), ring, other);
      } else {
        Splice(rhs, nodes, ring);
        SpliceMerges(ns, ps, NextOf(nodes), PrevOf(nodes), ring, other);
      }
    }

    /** The last branch of `Merge`. */
    method Splice(rhs: RefLinkedBase, ghost nodes: set<RefLinkedBase>, ghost ring: seq<RefLinkedBase?>)
      requires WellLinked(nodes) && next != null && Runs(nodes, ring) && rhs in nodes && rhs !in ring
      requires next != this && rhs.next != rhs
      modifies nodes
      ensures NextOf(nodes) == old(NextOf(nodes))[old(rhs.prev) := old(prev)][this := rhs]
      ensures PrevOf(nodes) == old(PrevOf(nodes))[old(next) := old(rhs.prev)][rhs := this]
    {
      LinksOf(this, nodes);
      LinksOf(rhs, nodes);
      RingEnds(NextOf(nodes), PrevOf(nodes), ring);
      next.prev := rhs.prev;
      rhs.prev.next := prev;
      next := rhs;
      rhs.prev := this;
    }
  }

  lemma BothWellLinked(a: set<RefLinkedBase>, b: set<RefLinkedBase>)
    requires WellLinked(a) && WellLinked(b)
    ensures WellLinked(a + b)
  {
    forall n: RefLinkedBase? | n in NextOf(a + b)
      ensures CoupledAt(NextOf(a + b), PrevOf(a + b), n)
    {
      LinksOf(n, if n in a then a else b);
    }
  }

  method TwoOwners() returns (a: RefLinkedBase, b: RefLinkedBase)
    ensures fresh({a, b}) && a != b && WellLinked({a, b})
    ensures a.next == b && b.next == a
  {
    a := new RefLinkedBase();
    b := new RefLinkedBase.Copy(a, {a});
    assert {a} + {b} == {a, b};
    assert NextOf({a, b})[a] == b && NextOf({a, b})[b] == a;
  }

  method ThreeOwners() returns (a: RefLinkedBase, b: RefLinkedBase, c: RefLinkedBase)
    ensures fresh({a, b, c}) && a != b && b != c && c != a && WellLinked({a, b, c})
    ensures a.next == c && c.next == b && b.next == a
  {
    a, b := TwoOwners();
    c := new RefLinkedBase.Copy(a, {a, b});
    assert {a, b} + {c} == {a, b, c};
    ghost var ns := NextOf({a, b, c});
    assert ns[a] == c && ns[c] == b && ns[b] == a;
  }

  /** Three owners of one object merged with two of another: the links are no longer inverse to each other. */
  method MergeOfThreeAndTwo() returns (nodes: set<RefLinkedBase>)
    ensures !WellLinked(nodes)
  {
    var a, b, c := ThreeOwners();
    var x, y := TwoOwners();
    BothWellLinked({a, b, c}, {x, y});
    nodes := {a, b, c} + {x, y};
    LinksOf(a, nodes);
    LinksOf(b, nodes);
    LinksOf(c, nodes);
    LinksOf(x, nodes);
    LinksOf(y, nodes);
    ghost var ring: seq<RefLinkedBase?>, other: seq<RefLinkedBase?> := [a, c, b], [x, y];
    assert a.Runs(nodes, ring) && x.Runs(nodes, other);
    var merged := a.Merge(x, nodes, ring, other);
  }
}
