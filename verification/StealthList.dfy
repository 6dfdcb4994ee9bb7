/** The free list that a chunk of the small-object allocator keeps in the first bytes of its own free blocks, and what
    it says about a collection of chunks. Memory is one flat map of bytes, so that anything may be written anywhere. */
module StealthList {
  import opened Common

  type Byte = x: int | 0 <= x < 256

  type Memory = map<int, Byte>

  function At(m: Memory, a: int): Byte { if a in m then m[a] else 0 }

  datatype Chunk = Chunk(pData: int, first: Byte, available: Byte)

  // ---------------------------------------------------------------- addresses

  /** The address of block `i` of a chunk of blocks of `bs` bytes. */
  function Addr(base: int, i: int, bs: nat): int { base + i * bs }

  lemma AddrApart(base: int, i: int, j: int, bs: nat)
    requires i < j
    ensures Addr(base, i, bs) + bs <= Addr(base, j, bs)
  {
    assert (j - i - 1) * bs >= 0;
    assert j * bs == i * bs + bs + (j - i - 1) * bs;
  }

  lemma BlocksApart(base: int, i: int, j: int, bs: nat)
    requires i != j
    ensures Addr(base, i, bs) + bs <= Addr(base, j, bs) || Addr(base, j, bs) + bs <= Addr(base, i, bs)
  {
    if i < j {
      AddrApart(base, i, j, bs);
    } else {
      AddrApart(base, j, i, bs);
    }
  }

  lemma AddrInside(base: int, i: nat, bs: nat, n: nat)
    requires i < n
    ensures base <= Addr(base, i, bs) && Addr(base, i, bs) + bs <= base + n * bs
  {
    AddrApart(base, i, n, bs);
  }

  // ---------------------------------------------------------------- the list

  /** The first `n` indices that the stealth indexes lead to from `first`. */
  function FreeList(m: Memory, base: int, bs: nat, first: int, n: nat): (l: seq<int>)
    ensures |l| == n
    decreases n
  {
    if n == 0 then [] else [first] + FreeList(m, base, bs, At(m, Addr(base, first, bs)), n - 1)
  }

  function Free(m: Memory, c: Chunk, bs: nat): seq<int> { FreeList(m, c.pData, bs, c.first, c.available) }

  predicate InRange(l: seq<int>, n: nat) { forall i | 0 <= i < |l| :: 0 <= l[i] < n }

  /** The free list names exactly `available` different blocks of the chunk. */
  ghost predicate WellFormed(m: Memory, c: Chunk, bs: nat, n: nat) {
    c.available <= n && InRange(Free(m, c, bs), n) && Distinct(Free(m, c, bs))
  }

  /** The indices of the blocks that are in the hands of the client. */
  ghost function LiveIndices(m: Memory, c: Chunk, bs: nat, n: nat): set<int> {
    set i | 0 <= i < n && i !in Free(m, c, bs)
  }

  lemma {:induction false} FollowsIndex(m: Memory, base: int, bs: nat, first: int, n: nat, k: nat)
    requires k + 1 < n
    ensures FreeList(m, base, bs, first, n)[k + 1] == At(m, Addr(base, FreeList(m, base, bs, first, n)[k], bs))
    decreases k
  {
    if k > 0 {
      FollowsIndex(m, base, bs, At(m, Addr(base, first, bs)), n - 1, k - 1);
    }
  }

  predicate Agree(m: Memory, m': Memory, a: int) { At(m, a) == At(m', a) }

  /** The list depends on nothing but the first bytes of the blocks it names. */
  lemma {:induction false} FreeListFrame(m: Memory, m': Memory, base: int, bs: nat, first: int, n: nat)
    requires forall i | i in FreeList(m, base, bs, first, n) :: Agree(m, m', Addr(base, i, bs))
    ensures FreeList(m', base, bs, first, n) == FreeList(m, base, bs, first, n)
    decreases n
  {
    if n > 0 {
      var next := At(m, Addr(base, first, bs));
      assert FreeList(m, base, bs, first, n) == [first] + FreeList(m, base, bs, next, n - 1);
      assert Agree(m, m', Addr(base, first, bs));
      FreeListFrame(m, m', base, bs, next, n - 1);
    }
  }

  function UpFrom(k: nat, n: nat): seq<int>
    requires k <= n
  {
    seq(n - k, i requires 0 <= i < n - k => k + i)
  }

  predicate PointsOn(m: Memory, base: int, bs: nat, i: int) { At(m, Addr(base, i, bs)) == i + 1 }

  /** Where every block points to its successor the list is the blocks in order. */
  lemma {:induction false} FreshList(m: Memory, base: int, bs: nat, k: nat, n: nat)
    requires k <= n
    requires forall i | k <= i < n :: PointsOn(m, base, bs, i)
    ensures FreeList(m, base, bs, k, n - k) == UpFrom(k, n)
    decreases n - k
  {
    if k < n {
      FreshList(m, base, bs, k + 1, n);
      assert PointsOn(m, base, bs, k);
      assert UpFrom(k, n) == [k] + UpFrom(k + 1, n);
    }
  }

  // ---------------------------------------------------------------- counting

  /** The first `k` elements are indices, each of them new. */
  ghost predicate GoodPrefix(l: seq<int>, k: nat, n: nat)
    requires k <= |l|
  {
    k == 0 || (GoodPrefix(l, k - 1, n) && 0 <= l[k - 1] < n && l[k - 1] !in l[..k - 1])
  }

  lemma AppendGood(l: seq<int>, x: int, n: nat)
    ensures InRange(l + [x], n) && Distinct(l + [x]) <==> InRange(l, n) && Distinct(l) && 0 <= x < n && x !in l
  {
    var t := l + [x];
    assert forall i | 0 <= i < |l| :: t[i] == l[i];
    assert t[|l|] == x;
  }

  lemma {:induction false} GoodPrefixMeans(l: seq<int>, k: nat, n: nat)
    requires k <= |l|
    ensures GoodPrefix(l, k, n) <==> InRange(l[..k], n) && Distinct(l[..k])
    decreases k
  {
    if k > 0 {
      GoodPrefixMeans(l, k - 1, n);
      AppendGood(l[..k - 1], l[k - 1], n);
      assert l[..k] == l[..k - 1] + [l[k - 1]];
    }
  }

  ghost function Below(n: nat): (s: set<int>)
    ensures |s| == n && forall i :: i in s <==> 0 <= i < n
  {
    if n == 0 then {} else Below(n - 1) + {n - 1}
  }

  /** The free list complements the live blocks: the counts add up to the chunk. */
  lemma LiveCount(m: Memory, c: Chunk, bs: nat, n: nat)
    requires WellFormed(m, c, bs, n)
    ensures |LiveIndices(m, c, bs, n)| == n - c.available
    ensures LiveIndices(m, c, bs, n) == {} <==> c.available == n
  {
    var l := Free(m, c, bs);
    DistinctSize(l);
    assert Elements(l) <= Below(n);
    assert LiveIndices(m, c, bs, n) == Below(n) - Elements(l);
  }

  // ---------------------------------------------------------------- one chunk

  function Taken(m: Memory, c: Chunk, bs: nat): Chunk
    requires c.available > 0
  {
    Chunk(c.pData, At(m, Addr(c.pData, c.first, bs)), c.available - 1)
  }

  lemma TakeKeepsChunk(m: Memory, c: Chunk, bs: nat, n: nat)
    requires WellFormed(m, c, bs, n) && c.available > 0
    ensures WellFormed(m, Taken(m, c, bs), bs, n)
    ensures 0 <= c.first < n && c.first !in LiveIndices(m, c, bs, n)
    ensures LiveIndices(m, Taken(m, c, bs), bs, n) == LiveIndices(m, c, bs, n) + {c.first as int}
  {
    var l, t := Free(m, c, bs), Free(m, Taken(m, c, bs), bs);
    assert l == [c.first] + t;
    assert l[0] == c.first;
    forall i | 0 <= i < |t|
      ensures t[i] == l[i + 1]
    {
    }
  }

  function Returned(c: Chunk, index: Byte): Chunk
    requires c.available < 255
  {
    Chunk(c.pData, index, c.available + 1)
  }

  lemma ReturnKeepsChunk(m: Memory, c: Chunk, index: Byte, bs: nat, n: nat)
    requires WellFormed(m, c, bs, n) && n <= 255 && index in LiveIndices(m, c, bs, n) && bs > 0
    ensures c.available < n
    ensures var m' := m[Addr(c.pData, index, bs) := c.first];
            && WellFormed(m', Returned(c, index), bs, n)
            && LiveIndices(m', Returned(c, index), bs, n) == LiveIndices(m, c, bs, n) - {index as int}
  {
    LiveCount(m, c, bs, n);
    var m' := m[Addr(c.pData, index, bs) := c.first];
    var l, t := Free(m, c, bs), Free(m', Returned(c, index), bs);
    forall i | i in l
      ensures Agree(m, m', Addr(c.pData, i, bs))
    {
      BlocksApart(c.pData, i, index, bs);
    }
    FreeListFrame(m, m', c.pData, bs, c.first, c.available);
    assert t == [index] + l;
  }

  // ---------------------------------------------------------------- writes that a chunk does not notice

  ghost predicate InLiveBlock(m: Memory, c: Chunk, bs: nat, n: nat, a: int) {
    exists i :: i in LiveIndices(m, c, bs, n) && Addr(c.pData, i, bs) <= a < Addr(c.pData, i, bs) + bs
  }

  predicate Outside(c: Chunk, bs: nat, n: nat, a: int) { !(c.pData <= a < c.pData + n * bs) }

  /** Whatever is written into live blocks, or outside the chunk, the chunk stays what it was. */
  lemma ChunkFrame(m: Memory, m': Memory, c: Chunk, bs: nat, n: nat)
    requires WellFormed(m, c, bs, n) && bs > 0
    requires forall a :: Agree(m, m', a) || InLiveBlock(m, c, bs, n, a) || Outside(c, bs, n, a)
    ensures Free(m', c, bs) == Free(m, c, bs)
    ensures WellFormed(m', c, bs, n) && LiveIndices(m', c, bs, n) == LiveIndices(m, c, bs, n)
  {
    var l := Free(m, c, bs);
    forall k | k in l
      ensures Agree(m, m', Addr(c.pData, k, bs))
    {
      AddrInside(c.pData, k, bs, n);
      if InLiveBlock(m, c, bs, n, Addr(c.pData, k, bs)) {
        var i :| i in LiveIndices(m, c, bs, n) &&
                 Addr(c.pData, i, bs) <= Addr(c.pData, k, bs) < Addr(c.pData, i, bs) + bs;
        BlocksApart(c.pData, i, k, bs);
      }
    }
    FreeListFrame(m, m', c.pData, bs, c.first, c.available);
  }
}
