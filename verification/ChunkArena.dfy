/** Several chunks with their own regions of one memory: which blocks are live, and what changes them. */
module ChunkArena {
  import opened StealthList

  predicate Apart(c: Chunk, d: Chunk, bs: nat, n: nat) {
    c.pData + n * bs <= d.pData || d.pData + n * bs <= c.pData
  }

  ghost predicate AllApart(chunks: seq<Chunk>, bs: nat, n: nat) {
    forall i, j | 0 <= i < |chunks| && 0 <= j < |chunks| && i != j :: Apart(chunks[i], chunks[j], bs, n)
  }

  ghost predicate Arena(m: Memory, chunks: seq<Chunk>, bs: nat, n: nat) {
    && 0 < bs && 8 <= n <= 255
    && (forall i | 0 <= i < |chunks| :: WellFormed(m, chunks[i], bs, n) && chunks[i].pData > 0)
    && AllApart(chunks, bs, n)
  }

  /** `p` is the address of a live block of `c`. */
  ghost predicate LiveIn(m: Memory, c: Chunk, bs: nat, n: nat, p: int) {
    exists i :: i in LiveIndices(m, c, bs, n) && p == Addr(c.pData, i, bs)
  }

  /** The addresses of all live blocks. */
  ghost function Live(m: Memory, chunks: seq<Chunk>, bs: nat, n: nat): (s: set<int>)
    ensures forall p :: p in s <==> exists k | 0 <= k < |chunks| :: LiveIn(m, chunks[k], bs, n, p)
  {
    var s := set k, i | 0 <= k < |chunks| && i in LiveIndices(m, chunks[k], bs, n) :: Addr(chunks[k].pData, i, bs);
    assert forall p :: p in s <==> exists k | 0 <= k < |chunks| :: LiveIn(m, chunks[k], bs, n, p);
    s
  }

  /** A live block lies in its chunk. */
  lemma LiveInside(m: Memory, c: Chunk, bs: nat, n: nat, p: int)
    requires LiveIn(m, c, bs, n, p)
    ensures c.pData <= p && p + bs <= c.pData + n * bs
  {
    var i :| i in LiveIndices(m, c, bs, n) && p == Addr(c.pData, i, bs);
    AddrInside(c.pData, i, bs, n);
  }

  /** Different live blocks do not overlap. */
  lemma LiveBlocksDisjoint(m: Memory, chunks: seq<Chunk>, bs: nat, n: nat, p: int, q: int)
    requires Arena(m, chunks, bs, n) && p in Live(m, chunks, bs, n) && q in Live(m, chunks, bs, n) && p != q
    ensures p + bs <= q || q + bs <= p
  {
    var j :| 0 <= j < |chunks| && LiveIn(m, chunks[j], bs, n, p);
    var k :| 0 <= k < |chunks| && LiveIn(m, chunks[k], bs, n, q);
    if j == k {
      var a :| a in LiveIndices(m, chunks[j], bs, n) && p == Addr(chunks[j].pData, a, bs);
      var b :| b in LiveIndices(m, chunks[j], bs, n) && q == Addr(chunks[j].pData, b, bs);
      BlocksApart(chunks[j].pData, a, b, bs);
    } else {
      assert Apart(chunks[j], chunks[k], bs, n);
      LiveInside(m, chunks[j], bs, n, p);
      LiveInside(m, chunks[k], bs, n, q);
    }
  }

  lemma OtherLiveByte(m: Memory, chunks: seq<Chunk>, bs: nat, n: nat, p: int, others: set<int>, a: int)
    requires Arena(m, chunks, bs, n) && p in Live(m, chunks, bs, n) && others <= Live(m, chunks, bs, n) - {p}
    requires exists q :: q in others && q <= a < q + bs
    ensures a != p
  {
    var q :| q in others && q <= a < q + bs;
    LiveBlocksDisjoint(m, chunks, bs, n, p, q);
  }

  /** The live blocks of a chunk that changed from `c` to `d`, in one step that concerns the block at `p`. */
  lemma UpdateLive(m: Memory, m': Memory, chunks: seq<Chunk>, k: nat, d: Chunk, bs: nat, n: nat)
    requires Arena(m, chunks, bs, n) && k < |chunks| && d.pData == chunks[k].pData && WellFormed(m', d, bs, n)
    requires forall a :: Agree(m, m', a) || !Outside(chunks[k], bs, n, a)
    ensures Arena(m', chunks[k := d], bs, n)
    ensures forall p :: p in Live(m', chunks[k := d], bs, n) <==>
                    LiveIn(m', d, bs, n, p) || exists j | 0 <= j < |chunks| && j != k :: LiveIn(m, chunks[j], bs, n, p)
  {
    var after := chunks[k := d];
    forall j | 0 <= j < |chunks| && j != k
      ensures WellFormed(m', chunks[j], bs, n) && LiveIndices(m', chunks[j], bs, n) == LiveIndices(m, chunks[j], bs, n)
      ensures forall p :: LiveIn(m', chunks[j], bs, n, p) <==> LiveIn(m, chunks[j], bs, n, p)
    {
      assert Apart(chunks[j], chunks[k], bs, n);
      ChunkFrame(m, m', chunks[j], bs, n);
    }
    forall i, j | 0 <= i < |after| && 0 <= j < |after| && i != j
      ensures Apart(after[i], after[j], bs, n)
    {
      assert Apart(chunks[i], chunks[j], bs, n);
    }
    forall p
      ensures p in Live(m', after, bs, n) <==>
              LiveIn(m', d, bs, n, p) || exists j | 0 <= j < |chunks| && j != k :: LiveIn(m, chunks[j], bs, n, p)
    {
      assert after[k] == d;
      forall j | 0 <= j < |chunks| && j != k
        ensures after[j] == chunks[j]
      {
      }
    }
  }

  /** No other chunk has a live block in the region of chunk `k`. */
  lemma OnlyOwner(m: Memory, chunks: seq<Chunk>, j: nat, k: nat, bs: nat, n: nat, p: int)
    requires Arena(m, chunks, bs, n) && j < |chunks| && k < |chunks| && LiveIn(m, chunks[j], bs, n, p)
    requires !Outside(chunks[k], bs, n, p)
    ensures j == k
  {
    LiveInside(m, chunks[j], bs, n, p);
  }

  /** Taking the first free block of chunk `k` adds exactly that block to the live ones. */
  lemma TakeKeepsArena(m: Memory, chunks: seq<Chunk>, k: nat, bs: nat, n: nat)
    requires Arena(m, chunks, bs, n) && k < |chunks| && chunks[k].available > 0
    ensures var p, after := Addr(chunks[k].pData, chunks[k].first, bs), chunks[k := Taken(m, chunks[k], bs)];
            && Arena(m, after, bs, n)
            && p !in Live(m, chunks, bs, n) && Live(m, after, bs, n) == Live(m, chunks, bs, n) + {p}
            && !Outside(chunks[k], bs, n, p)
  {
    var c := chunks[k];
    var d, p := Taken(m, c, bs), Addr(c.pData, c.first, bs);
    TakeKeepsChunk(m, c, bs, n);
    UpdateLive(m, m, chunks, k, d, bs, n);
    AddrInside(c.pData, c.first, bs, n);
    forall q
      ensures LiveIn(m, d, bs, n, q) <==> LiveIn(m, c, bs, n, q) || q == p
    {
      assert c.first as int in LiveIndices(m, d, bs, n);
    }
    if p in Live(m, chunks, bs, n) {
      var j :| 0 <= j < |chunks| && LiveIn(m, chunks[j], bs, n, p);
      OnlyOwner(m, chunks, j, k, bs, n, p);
      NotLive(m, c, c.first, bs, n);
    }
  }

  lemma NotLive(m: Memory, c: Chunk, i: int, bs: nat, n: nat)
    requires i !in LiveIndices(m, c, bs, n) && bs > 0
    ensures !LiveIn(m, c, bs, n, Addr(c.pData, i, bs))
  {
    forall j | j in LiveIndices(m, c, bs, n)
      ensures Addr(c.pData, j, bs) != Addr(c.pData, i, bs)
    {
      BlocksApart(c.pData, i, j, bs);
    }
  }

  lemma ReturnLive(m: Memory, c: Chunk, i: Byte, bs: nat, n: nat, q: int)
    requires WellFormed(m, c, bs, n) && n <= 255 && i in LiveIndices(m, c, bs, n) && bs > 0
    ensures c.available < n
    ensures var p := Addr(c.pData, i, bs);
            LiveIn(m[p := c.first], Returned(c, i), bs, n, q) <==> LiveIn(m, c, bs, n, q) && q != p
  {
    ReturnKeepsChunk(m, c, i, bs, n);
    var p := Addr(c.pData, i, bs);
    NotLive(m[p := c.first], Returned(c, i), i, bs, n);
    if LiveIn(m, c, bs, n, q) && q != p {
      var j :| j in LiveIndices(m, c, bs, n) && q == Addr(c.pData, j, bs);
      assert j in LiveIndices(m[p := c.first], Returned(c, i), bs, n);
    }
  }

  /** Giving a live block of chunk `k` back removes exactly that block. */
  lemma ReturnKeepsArena(m: Memory, chunks: seq<Chunk>, k: nat, i: Byte, bs: nat, n: nat)
    requires Arena(m, chunks, bs, n) && k < |chunks| && i in LiveIndices(m, chunks[k], bs, n)
    ensures chunks[k].available < n
    ensures var p := Addr(chunks[k].pData, i, bs);
            var m', after := m[p := chunks[k].first], chunks[k := Returned(chunks[k], i)];
            && Arena(m', after, bs, n)
            && p in Live(m, chunks, bs, n) && Live(m', after, bs, n) == Live(m, chunks, bs, n) - {p}
  {
    var c := chunks[k];
    var p := Addr(c.pData, i, bs);
    ReturnKeepsChunk(m, c, i, bs, n);
    AddrInside(c.pData, i, bs, n);
    UpdateLive(m, m[p := c.first], chunks, k, Returned(c, i), bs, n);
    assert LiveIn(m, c, bs, n, p);
    forall q
      ensures q in Live(m[p := c.first], chunks[k := Returned(c, i)], bs, n) <==> q in Live(m, chunks, bs, n) && q != p
    {
      ReturnLive(m, c, i, bs, n, q);
      SoleOwner(m, chunks, k, bs, n, p);
    }
  }

  lemma SoleOwner(m: Memory, chunks: seq<Chunk>, k: nat, bs: nat, n: nat, p: int)
    requires Arena(m, chunks, bs, n) && k < |chunks| && !Outside(chunks[k], bs, n, p)
    ensures forall j | 0 <= j < |chunks| && j != k :: !LiveIn(m, chunks[j], bs, n, p)
  {
    forall j | 0 <= j < |chunks| && LiveIn(m, chunks[j], bs, n, p)
      ensures j == k
    {
      OnlyOwner(m, chunks, j, k, bs, n, p);
    }
  }

  /** A fresh chunk in a region of its own adds no live block. */
  lemma AddKeepsArena(m: Memory, m': Memory, chunks: seq<Chunk>, d: Chunk, bs: nat, n: nat)
    requires Arena(m, chunks, bs, n) && WellFormed(m', d, bs, n) && d.available == n && d.pData > 0
    requires forall j | 0 <= j < |chunks| :: Apart(chunks[j], d, bs, n)
    requires forall a :: Agree(m, m', a) || !Outside(d, bs, n, a)
    ensures Arena(m', chunks + [d], bs, n) && Live(m', chunks + [d], bs, n) == Live(m, chunks, bs, n)
  {
    var after := chunks + [d];
    LiveCount(m', d, bs, n);
    forall j | 0 <= j < |chunks|
      ensures after[j] == chunks[j] && WellFormed(m', chunks[j], bs, n)
      ensures forall p :: LiveIn(m', chunks[j], bs, n, p) <==> LiveIn(m, chunks[j], bs, n, p)
    {
      ChunkFrame(m, m', chunks[j], bs, n);
    }
    forall i, j | 0 <= i < |after| && 0 <= j < |after| && i != j
      ensures Apart(after[i], after[j], bs, n)
    {
      if i < |chunks| && j < |chunks| {
        assert Apart(chunks[i], chunks[j], bs, n);
      } else if i < |chunks| {
        assert Apart(chunks[i], d, bs, n);
      } else {
        assert Apart(chunks[j], d, bs, n);
      }
    }
    assert forall p :: !LiveIn(m', after[|chunks|], bs, n, p);
  }

  /** The chunks without chunk `k`, whose place the last one takes. */
  function Without(chunks: seq<Chunk>, k: nat): (s: seq<Chunk>)
    requires k < |chunks|
    ensures |s| == |chunks| - 1
  {
    chunks[k := chunks[|chunks| - 1]][..|chunks| - 1]
  }

  /** Taking out a wholly free chunk takes no live block away. */
  lemma DropKeepsArena(m: Memory, chunks: seq<Chunk>, k: nat, bs: nat, n: nat)
    requires Arena(m, chunks, bs, n) && k < |chunks| && chunks[k].available == n
    ensures Arena(m, Without(chunks, k), bs, n) && Live(m, Without(chunks, k), bs, n) == Live(m, chunks, bs, n)
  {
    var after, last := Without(chunks, k), |chunks| - 1;
    LiveCount(m, chunks[k], bs, n);
    forall i, j | 0 <= i < |after| && 0 <= j < |after| && i != j
      ensures Apart(after[i], after[j], bs, n)
    {
      assert Apart(chunks[if i == k then last else i], chunks[if j == k then last else j], bs, n);
    }
    forall p
      ensures p in Live(m, after, bs, n) <==> p in Live(m, chunks, bs, n)
    {
      if j :| 0 <= j < |chunks| && LiveIn(m, chunks[j], bs, n, p) {
        assert after[if j == last then k else j] == chunks[j];
      }
      if j :| 0 <= j < |after| && LiveIn(m, after[j], bs, n, p) {
        assert after[j] == chunks[if j == k then last else j];
      }
    }
  }

  /** The bases of the regions of some chunks. */
  ghost function Bases(chunks: seq<Chunk>): set<int> { set k | 0 <= k < |chunks| :: chunks[k].pData }

  /** The region of a chunk that is taken out is the only one given up. */
  lemma DroppedBase(m: Memory, chunks: seq<Chunk>, k: nat, bs: nat, n: nat)
    requires Arena(m, chunks, bs, n) && k < |chunks|
    ensures Bases(Without(chunks, k)) == Bases(chunks) - {chunks[k].pData}
  {
    var after, last := Without(chunks, k), |chunks| - 1;
    assert n * bs > 0;
    forall j | 0 <= j < |after|
      ensures after[j] == chunks[if j == k then last else j] && after[j].pData != chunks[k].pData
    {
      assert Apart(chunks[if j == k then last else j], chunks[k], bs, n);
    }
    forall j | 0 <= j < |chunks| && j != k
      ensures chunks[j].pData in Bases(after)
    {
      assert after[if j == last then k else j] == chunks[j];
    }
  }

  /** No live block of another chunk is in it. */
  lemma DroppedRegion(m: Memory, chunks: seq<Chunk>, k: nat, bs: nat, n: nat)
    requires Arena(m, chunks, bs, n) && k < |chunks|
    ensures forall q | q in Live(m, Without(chunks, k), bs, n) :: Outside(chunks[k], bs, n, q)
  {
    var after, last := Without(chunks, k), |chunks| - 1;
    forall q | q in Live(m, after, bs, n)
      ensures Outside(chunks[k], bs, n, q)
    {
      var j :| 0 <= j < |after| && LiveIn(m, after[j], bs, n, q);
      var i := if j == k then last else j;
      assert after[j] == chunks[i];
      LiveInside(m, chunks[i], bs, n, q);
      assert Apart(chunks[i], chunks[k], bs, n);
    }
  }

  /** The byte at `a` belongs to a live block. */
  ghost predicate InLiveBytes(m: Memory, chunks: seq<Chunk>, bs: nat, n: nat, a: int) {
    exists p :: p in Live(m, chunks, bs, n) && p <= a < p + bs
  }

  /** Whatever the client writes into its blocks, no chunk is damaged and no block changes hands. */
  lemma ClientWrites(m: Memory, m': Memory, chunks: seq<Chunk>, bs: nat, n: nat)
    requires Arena(m, chunks, bs, n)
    requires forall a :: Agree(m, m', a) || InLiveBytes(m, chunks, bs, n, a)
    ensures Arena(m', chunks, bs, n) && Live(m', chunks, bs, n) == Live(m, chunks, bs, n)
    ensures forall k | 0 <= k < |chunks| :: Free(m', chunks[k], bs) == Free(m, chunks[k], bs)
  {
    forall k | 0 <= k < |chunks|
      ensures Free(m', chunks[k], bs) == Free(m, chunks[k], bs) && WellFormed(m', chunks[k], bs, n)
      ensures forall p :: LiveIn(m', chunks[k], bs, n, p) <==> LiveIn(m, chunks[k], bs, n, p)
    {
      forall a
        ensures Agree(m, m', a) || InLiveBlock(m, chunks[k], bs, n, a) || Outside(chunks[k], bs, n, a)
      {
        if InLiveBytes(m, chunks, bs, n, a) && !Outside(chunks[k], bs, n, a) {
          OwnLiveByte(m, chunks, k, bs, n, a);
        }
      }
      ChunkFrame(m, m', chunks[k], bs, n);
    }
  }

  /** A live byte lies in no region apart from the chunks. */
  lemma LiveByteOutside(m: Memory, chunks: seq<Chunk>, d: Chunk, bs: nat, n: nat, a: int)
    requires InLiveBytes(m, chunks, bs, n, a) && forall k | 0 <= k < |chunks| :: Apart(chunks[k], d, bs, n)
    ensures Outside(d, bs, n, a)
  {
    var p :| p in Live(m, chunks, bs, n) && p <= a < p + bs;
    var j :| 0 <= j < |chunks| && LiveIn(m, chunks[j], bs, n, p);
    LiveInside(m, chunks[j], bs, n, p);
    assert Apart(chunks[j], d, bs, n);
  }

  lemma OwnLiveByte(m: Memory, chunks: seq<Chunk>, k: nat, bs: nat, n: nat, a: int)
    requires Arena(m, chunks, bs, n) && k < |chunks|
    requires InLiveBytes(m, chunks, bs, n, a) && !Outside(chunks[k], bs, n, a)
    ensures InLiveBlock(m, chunks[k], bs, n, a)
  {
    var p :| p in Live(m, chunks, bs, n) && p <= a < p + bs;
    var j :| 0 <= j < |chunks| && LiveIn(m, chunks[j], bs, n, p);
    LiveInside(m, chunks[j], bs, n, p);
    assert j == k;
    var i :| i in LiveIndices(m, chunks[k], bs, n) && p == Addr(chunks[k].pData, i, bs);
  }
}
