/** The chunks and fixed-size allocators of the small-object allocator. A pointer to a chunk is its slot in `chunks`,
    and a block is its address in `memory`. */
module SmallObj {
  import opened Common
  import opened StealthList
  import opened ChunkArena

  /** No chunk. */
  const NULL := -1

  // ---------------------------------------------------------------- chunks

  /** Fills the region at `pData` with a list of all its blocks. */
  method Reset(memory: Memory, pData: int, blockSize: nat, blocks: Byte) returns (c: Chunk, m: Memory)
    requires 0 < blockSize && 0 < blocks
    ensures c == Chunk(pData, 0, blocks) && Free(m, c, blockSize) == UpFrom(0, blocks)
    ensures WellFormed(m, c, blockSize, blocks)
    ensures forall a :: Agree(memory, m, a) || !Outside(c, blockSize, blocks, a)
  {
    c := Chunk(pData, 0, blocks);
    m := memory;
    var i: Byte := 0;
    var p := pData;
    while i != blocks
      invariant i <= blocks && p == Addr(pData, i, blockSize)
      invariant forall k | 0 <= k < i :: PointsOn(m, pData, blockSize, k)
      invariant forall a :: Agree(memory, m, a) || !Outside(c, blockSize, blocks, a)
      decreases blocks - i
    {
      AddrInside(pData, i, blockSize, blocks);
      ghost var before := m;
      m := m[p := i + 1];
      forall k | 0 <= k < i
        ensures PointsOn(m, pData, blockSize, k)
      {
        assert PointsOn(before, pData, blockSize, k);
        AddrApart(pData, k, i, blockSize);
      }
      forall a
        ensures Agree(memory, m, a) || !Outside(c, blockSize, blocks, a)
      {
        assert Agree(memory, before, a) || !Outside(c, blockSize, blocks, a);
      }
      p := Addr(pData, i + 1, blockSize);
      i := i + 1;
    }
    FreshList(m, pData, blockSize, 0, blocks);
  }

  /** Takes a free block of a well-formed chunk of `n` blocks out of the list: one that was not live, and now is, while
      the chunk stays well formed. Without a free block the answer is 0. */
  method TakeBlock(memory: Memory, c: Chunk, blockSize: nat, ghost n: Byte) returns (d: Chunk, place: int)
    requires WellFormed(memory, c, blockSize, n)
    ensures WellFormed(memory, d, blockSize, n) && d.pData == c.pData
    ensures c.available == 0 <==> |LiveIndices(memory, c, blockSize, n)| == n
    ensures c.available == 0 ==> place == 0 && d == c
    ensures c.available > 0 ==> exists i: Byte | i < n && i as int !in LiveIndices(memory, c, blockSize, n) ::
              && place == Addr(c.pData, i, blockSize)
              && LiveIndices(memory, d, blockSize, n) == LiveIndices(memory, c, blockSize, n) + {i as int}
    ensures c.available > 0 ==> place == Addr(c.pData, c.first, blockSize) && d == Taken(memory, c, blockSize)
  {
    LiveCount(memory, c, blockSize, n);
    if c.available == 0 {
      return c, 0;
    }
    TakeKeepsChunk(memory, c, blockSize, n);
    place := c.pData + c.first * blockSize;
    d := Chunk(c.pData, At(memory, place), c.available - 1);
  }

  lemma IndexOfAddr(base: int, i: nat, blockSize: nat)
    requires 0 < blockSize
    ensures (Addr(base, i, blockSize) - base) / blockSize == i
  {
    assert Addr(base, i, blockSize) - base == i * blockSize;
    assert i * blockSize / blockSize == i;
  }

  method ReturnBlock(memory: Memory, c: Chunk, p: int, blockSize: nat, ghost i: Byte) returns (d: Chunk, m: Memory)
    requires 0 < blockSize && p == Addr(c.pData, i, blockSize) && c.available < 255
    ensures d == Returned(c, i) && m == memory[p := c.first]
  {
    IndexOfAddr(c.pData, i, blockSize);
    var index: Byte := (p - c.pData) / blockSize % 256;
    m := memory[p := c.first];
    d := Chunk(c.pData, index, c.available + 1);
  }

  lemma WholeListGood(m: Memory, c: Chunk, bs: nat, n: nat)
    requires c.available <= n
    ensures WellFormed(m, c, bs, n) <==> GoodPrefix(Free(m, c, bs), c.available, n)
  {
    var l := Free(m, c, bs);
    assert l[..|l|] == l;
    GoodPrefixMeans(l, |l|, n);
  }

  lemma ElementsGrow(l: seq<int>, k: nat)
    requires k < |l|
    ensures Elements(l[..k + 1]) == Elements(l[..k]) + {l[k]}
    ensures l[k] in Elements(l[..k]) <==> l[k] in l[..k]
  {
  }

  lemma FoundAll(l: seq<int>, n: nat)
    requires GoodPrefix(l, |l|, n)
    ensures |Elements(l[..|l|])| == |l|
  {
    assert l[..|l|] == l;
    GoodPrefixMeans(l, |l|, n);
    DistinctSize(l);
  }

  lemma {:induction false} BadPrefixStays(l: seq<int>, j: nat, k: nat, n: nat)
    requires j <= k <= |l| && !GoodPrefix(l, j, n)
    ensures !GoodPrefix(l, k, n)
    decreases k
  {
    if j < k {
      BadPrefixStays(l, j, k - 1, n);
    }
  }

  /** The full check answers false exactly for the well-formed chunks; the quick one never blames one of them. */
  method IsCorrupt(memory: Memory, c: Chunk, numBlocks: Byte, blockSize: nat, checkIndexes: bool)
    returns (corrupt: bool)
    ensures checkIndexes ==> (corrupt <==> !WellFormed(memory, c, blockSize, numBlocks))
    ensures !checkIndexes ==> (corrupt <==> numBlocks < c.available || (0 < c.available && numBlocks <= c.first))
    ensures corrupt ==> !WellFormed(memory, c, blockSize, numBlocks)
  {
    ghost var l := Free(memory, c, blockSize);
    if numBlocks < c.available {
      return true;
    }
    if c.available == 0 {
      return false;
    }
    var index := c.first;
    assert l[0] == index;
    if numBlocks <= index {
      return true;
    }
    if !checkIndexes {
      return false;
    }
    WholeListGood(memory, c, blockSize, numBlocks);
    corrupt := CheckIndexes(memory, c, numBlocks, blockSize);
  }

  /** Follows the stealth indexes, marking those that were found. */
  method CheckIndexes(memory: Memory, c: Chunk, numBlocks: Byte, blockSize: nat) returns (corrupt: bool)
    requires 0 < c.available <= numBlocks && c.first < numBlocks
    ensures corrupt <==> !GoodPrefix(Free(memory, c, blockSize), c.available, numBlocks)
  {
    ghost var l := Free(memory, c, blockSize);
    var index := c.first;
    var foundBlocks: set<int> := {};
    var cc := 0;
    assert l[0] == index && GoodPrefix(l, 0, numBlocks);
    while true
      invariant 0 <= cc < c.available && index == l[cc] && GoodPrefix(l, cc + 1, numBlocks)
      invariant foundBlocks == Elements(l[..cc])
      decreases c.available - cc
    {
      ElementsGrow(l, cc);
      foundBlocks := foundBlocks + {index as int};
      cc := cc + 1;
      if cc >= c.available {
        break;
      }
      FollowsIndex(memory, c.pData, blockSize, c.first, c.available, cc - 1);
      index := At(memory, Addr(c.pData, index, blockSize));
      if numBlocks <= index || index as int in foundBlocks {
        BadPrefixStays(l, cc + 1, c.available, numBlocks);
        return true;
      }
    }
    FoundAll(l, numBlocks);
    if |foundBlocks| != c.available {
      return true;
    }
    return false;
  }

  /** Answers whether the block is on the free list, that is, not live. */
  method IsBlockAvailable(memory: Memory, c: Chunk, p: int, numBlocks: Byte, blockSize: nat, ghost i: Byte)
    returns (available: bool)
    requires 0 < blockSize && p == Addr(c.pData, i, blockSize) && i < numBlocks
    requires WellFormed(memory, c, blockSize, numBlocks)
    ensures available <==> i as int !in LiveIndices(memory, c, blockSize, numBlocks)
  {
    ghost var l := Free(memory, c, blockSize);
    if c.available == 0 {
      return false;
    }
    IndexOfAddr(c.pData, i, blockSize);
    var blockIndex: Byte := (p - c.pData) / blockSize % 256;
    var index := c.first;
    assert l[0] == index;
    if index == blockIndex {
      return true;
    }
    var cc := 0;
    while true
      invariant 0 <= cc < c.available && index == l[cc] && i as int !in l[..cc + 1]
      decreases c.available - cc
    {
      cc := cc + 1;
      if cc >= c.available {
        break;
      }
      FollowsIndex(memory, c.pData, blockSize, c.first, c.available, cc - 1);
      index := At(memory, Addr(c.pData, index, blockSize));
      assert index == l[cc];
      if index == blockIndex {
        return true;
      }
      assert l[..cc + 1] == l[..cc] + [index];
    }
    assert l[..cc] == l;
    return false;
  }

  // ---------------------------------------------------------------- the slots of an allocator

  /** Apart from chunk `k`, the wholly free chunk is the one in slot `empty`, if that is a slot. */
  ghost predicate EmptyExcept(chunks: seq<Chunk>, n: Byte, empty: int, k: int) {
    && NULL <= empty < |chunks|
    && forall i | 0 <= i < |chunks| && i != k :: chunks[i].available == n <==> i == empty
  }

  ghost predicate AllFilled(chunks: seq<Chunk>) { forall k | 0 <= k < |chunks| :: chunks[k].available == 0 }

  class FixedAllocator {
    var blockSize: nat
    var numBlocks: Byte
    var chunks: seq<Chunk>
    var allocChunk: int
    var deallocChunk: int
    var emptyChunk: int
    var memory: Memory
    /** The regions got from `malloc` and not yet given to `free`. */
    ghost var held: set<int>

    ghost predicate Valid()
      reads this
    {
      && Arena(memory, chunks, blockSize, numBlocks)
      && (if chunks == [] then allocChunk == deallocChunk == NULL
          else 0 <= allocChunk < |chunks| && 0 <= deallocChunk < |chunks|)
      && EmptyExcept(chunks, numBlocks, emptyChunk, NULL)
      && held == Bases(chunks)
    }

    /** The addresses of the blocks in the hands of the client. */
    ghost function Live(): set<int>
      reads this
    {
      ChunkArena.Live(memory, chunks, blockSize, numBlocks)
    }

    ghost predicate IsLiveByte(a: int)
      reads this
    {
      InLiveBytes(memory, chunks, blockSize, numBlocks, a)
    }

    ghost predicate InChunk(k: int, p: int)
      reads this
    {
      0 <= k < |chunks| && !Outside(chunks[k], blockSize, numBlocks, p)
    }

    ghost predicate HoldsNoLive(c: Chunk)
      reads this
    {
      forall q | q in Live() :: Outside(c, blockSize, numBlocks, q)
    }

    /** Chunk `k` has `more` free blocks more than before, and no other chunk has changed. */
    ghost predicate OnlyChanged(before: seq<Chunk>, k: int, more: int)
      reads this
    {
      && 0 <= k < |before| && |chunks| == |before| && chunks == before[k := chunks[k]]
      && chunks[k].pData == before[k].pData && chunks[k].available as int == before[k].available as int + more
    }

    constructor (bs: nat, pageSize: nat)
      requires 0 < bs <= pageSize
      ensures Valid() && Live() == {} && blockSize == bs && chunks == []
      ensures numBlocks as int == if pageSize / bs > 255 then 255 else if pageSize / bs < 8 then 8 else pageSize / bs
    {
      blockSize := bs;
      var n := pageSize / bs;
      numBlocks := if n > 255 then 255 else if n < 8 then 8 else n;
      chunks := [];
      allocChunk, deallocChunk, emptyChunk := NULL, NULL, NULL;
      memory, held := map[], {};
    }

    /** Whatever the client writes into its own blocks, nothing is damaged. */
    method ClientStores(writes: Memory)
      requires Valid() && forall a | a in writes :: IsLiveByte(a)
      modifies `memory
      ensures Valid() && Live() == old(Live()) && memory == old(memory) + writes
    {
      ghost var before := memory;
      memory := memory + writes;
      forall a
        ensures Agree(before, memory, a) || InLiveBytes(before, chunks, blockSize, numBlocks, a)
      {
        assert a in writes || Agree(before, memory, a);
      }
      ClientWrites(before, memory, chunks, blockSize, numBlocks);
    }

    // ---------------------------------------------------------------- allocation

    /** What `malloc` may answer: 0, or a region apart from those that are held. */
    ghost predicate CanServe(got: int)
      reads this
    {
      got >= 0 &&
      (got > 0 ==> forall k | 0 <= k < |chunks| :: Apart(chunks[k], Chunk(got, 0, 0), blockSize, numBlocks))
    }

    method MakeNewChunk(got: int) returns (ok: bool)
      requires Valid() && CanServe(got)
      modifies `chunks, `allocChunk, `deallocChunk, `memory, `held
      ensures ok <==> got != 0
      ensures !ok ==> unchanged(this)
      ensures ok ==> chunks == old(chunks) + [Chunk(got, 0, numBlocks)] && held == Bases(chunks)
      ensures ok ==> allocChunk == |old(chunks)| && deallocChunk == 0 && held == old(held) + {got}
      ensures ok ==> Arena(memory, chunks, blockSize, numBlocks) && Live() == old(Live())
      ensures forall a | old(IsLiveByte(a)) :: Agree(old(memory), memory, a)
    {
      if got == 0 {
        return false;
      }
      var c, m := Reset(memory, got, blockSize, numBlocks);
      ghost var region := Chunk(got, 0, 0);
      forall k | 0 <= k < |chunks|
        ensures Apart(chunks[k], c, blockSize, numBlocks)
      {
        assert Apart(chunks[k], region, blockSize, numBlocks);
      }
      AddKeepsArena(memory, m, chunks, c, blockSize, numBlocks);
      forall a | IsLiveByte(a)
        ensures Agree(memory, m, a)
      {
        LiveByteOutside(memory, chunks, c, blockSize, numBlocks, a);
      }
      AddedBase(chunks, c);
      memory, held := m, held + {got};
      chunks := chunks + [c];
      allocChunk, deallocChunk := |chunks| - 1, 0;
      return true;
    }

    /** Takes a block from `allocChunk`, which has one and is not `emptyChunk`. */
    method TakePlace() returns (place: int)
      requires Arena(memory, chunks, blockSize, numBlocks) && held == Bases(chunks)
      requires 0 <= allocChunk < |chunks| && 0 <= deallocChunk < |chunks| && 0 < chunks[allocChunk].available
      requires emptyChunk != allocChunk && EmptyExcept(chunks, numBlocks, emptyChunk, allocChunk)
      modifies `chunks
      ensures Valid() && place > 0 && place !in old(Live()) && Live() == old(Live()) + {place}
      ensures OnlyChanged(old(chunks), allocChunk, -1) && InChunk(allocChunk, place)
    {
      TakeKeepsArena(memory, chunks, allocChunk, blockSize, numBlocks);
      SameBases(chunks, allocChunk, Taken(memory, chunks[allocChunk], blockSize));
      var c;
      c, place := TakeBlock(memory, chunks[allocChunk], blockSize, numBlocks);
      chunks := chunks[allocChunk := c];
    }

    /** Makes `allocChunk` a chunk with a free block: it stays if it has one, else it is `emptyChunk` if there is one,
        else the first chunk that is not filled, else a new one, if `malloc` has the memory. */
    method ChooseChunk(got: int) returns (found: bool)
      requires Valid() && CanServe(got)
      modifies `chunks, `allocChunk, `deallocChunk, `emptyChunk, `memory, `held
      ensures found <==> got != 0 || !AllFilled(old(chunks))
      ensures !found ==> unchanged(this)
      ensures found ==>
                && Arena(memory, chunks, blockSize, numBlocks) && held == Bases(chunks)
                && 0 <= allocChunk < |chunks| && 0 <= deallocChunk < |chunks| && 0 < chunks[allocChunk].available
                && emptyChunk != allocChunk && EmptyExcept(chunks, numBlocks, emptyChunk, allocChunk)
                && Live() == old(Live())
      ensures forall a | old(IsLiveByte(a)) :: Agree(old(memory), memory, a)
      ensures if AllFilled(old(chunks)) && got != 0 then
                && chunks == old(chunks) + [Chunk(got, 0, numBlocks)] && held == old(held) + {got}
                && allocChunk == |old(chunks)| && deallocChunk == 0 && emptyChunk == NULL
              else chunks == old(chunks) && held == old(held) && deallocChunk == old(deallocChunk)
      ensures old(allocChunk != NULL && chunks[allocChunk].available > 0) ==>
                allocChunk == old(allocChunk) &&
                emptyChunk == if old(emptyChunk == allocChunk) then NULL else old(emptyChunk)
      ensures old((allocChunk == NULL || chunks[allocChunk].available == 0) && emptyChunk != NULL) ==>
                allocChunk == old(emptyChunk) && emptyChunk == NULL
      ensures old(allocChunk != NULL && chunks[allocChunk].available == 0 && emptyChunk == NULL) &&
              !AllFilled(old(chunks)) ==>
                emptyChunk == NULL && forall k | 0 <= k < allocChunk :: old(chunks)[k].available == 0
    {
      if allocChunk == NULL || chunks[allocChunk].available == 0 {
        if emptyChunk != NULL {
          allocChunk, emptyChunk := emptyChunk, NULL;
        } else {
          var i := 0;
          while true
            invariant 0 <= i <= |chunks| && unchanged(this)
            invariant forall k | 0 <= k < i :: chunks[k].available == 0
            decreases |chunks| - i
          {
            if i == |chunks| {
              var made := MakeNewChunk(got);
              if !made {
                return false;
              }
              break;
            }
            if chunks[i].available != 0 {
              allocChunk := i;
              break;
            }
            i := i + 1;
          }
        }
      } else if allocChunk == emptyChunk {
        emptyChunk := NULL;
      }
      return true;
    }

    /** One more live block, or 0 exactly if every chunk is filled and `malloc` fails. The client's bytes stay. The
        block comes from `allocChunk` while that has one, else from `emptyChunk` if there is one, else from the first
        chunk that is not filled; a new chunk is the last one. */
    method Allocate(got: int) returns (place: int)
      requires Valid() && CanServe(got)
      modifies `chunks, `allocChunk, `deallocChunk, `emptyChunk, `memory, `held
      ensures Valid()
      ensures place == 0 <==> got == 0 && AllFilled(old(chunks))
      ensures place == 0 ==> unchanged(this)
      ensures place != 0 ==> place !in old(Live()) && Live() == old(Live()) + {place}
      ensures held == old(held) + if AllFilled(old(chunks)) && got != 0 then {got} else {}
      ensures forall a | old(IsLiveByte(a)) :: Agree(old(memory), memory, a)
      ensures place != 0 ==> InChunk(allocChunk, place)
      ensures old(allocChunk != NULL && chunks[allocChunk].available > 0) ==>
                && OnlyChanged(old(chunks), old(allocChunk), -1)
                && allocChunk == old(allocChunk) && deallocChunk == old(deallocChunk)
                && emptyChunk == if old(emptyChunk == allocChunk) then NULL else old(emptyChunk)
      ensures old((allocChunk == NULL || chunks[allocChunk].available == 0) && emptyChunk != NULL) ==>
                && OnlyChanged(old(chunks), old(emptyChunk), -1)
                && allocChunk == old(emptyChunk) && deallocChunk == old(deallocChunk) && emptyChunk == NULL
      ensures old(allocChunk != NULL && chunks[allocChunk].available == 0 && emptyChunk == NULL) &&
              !AllFilled(old(chunks)) ==>
                && OnlyChanged(old(chunks), allocChunk, -1) && deallocChunk == old(deallocChunk) && emptyChunk == NULL
                && forall k | 0 <= k < allocChunk :: old(chunks)[k].available == 0
      ensures AllFilled(old(chunks)) && got != 0 ==>
                && OnlyChanged(old(chunks) + [Chunk(got, 0, numBlocks)], |old(chunks)|, -1)
                && allocChunk == |old(chunks)| && deallocChunk == 0 && emptyChunk == NULL
    {
      var found := ChooseChunk(got);
      if !found {
        return 0;
      }
      place := TakePlace();
    }

    // ---------------------------------------------------------------- deallocation

    /** The slot of the chunk whose region has `p`: a search from `deallocChunk` in both directions at once. */
    method VicinityFind(p: int) returns (slot: int)
      requires Valid()
      ensures slot == NULL ==> forall k :: !InChunk(k, p)
      ensures slot != NULL ==> InChunk(slot, p)
    {
      if chunks == [] {
        return NULL;
      }
      var lo, hi := deallocChunk, deallocChunk + 1;
      if hi == |chunks| {
        hi := NULL;
      }
      while true
        invariant NULL <= lo <= deallocChunk && (hi == NULL || deallocChunk < hi < |chunks|) && !(lo == hi == NULL)
        invariant forall k | lo < k < if hi == NULL then |chunks| else hi :: !InChunk(k, p)
        decreases lo + if hi == NULL then 0 else |chunks| - hi
      {
        if lo != NULL {
          if chunks[lo].pData <= p < chunks[lo].pData + numBlocks * blockSize {
            return lo;
          }
          assert !InChunk(lo, p);
          if lo == 0 {
            lo := NULL;
            if hi == NULL {
              break;
            }
          } else {
            lo := lo - 1;
          }
        }
        if hi != NULL {
          if chunks[hi].pData <= p < chunks[hi].pData + numBlocks * blockSize {
            return hi;
          }
          assert !InChunk(hi, p);
          hi := hi + 1;
          if hi == |chunks| {
            hi := NULL;
            if lo == NULL {
              break;
            }
          }
        }
      }
      return NULL;
    }

    /** Gives the region of one of the wholly free chunks `deallocChunk` and `emptyChunk` back and takes it out. */
    method ReleaseOne() returns (ghost gone: nat)
      requires 0 <= allocChunk < |chunks| && 0 <= deallocChunk < |chunks| && 0 <= emptyChunk < |chunks|
      requires emptyChunk != deallocChunk
      modifies `chunks, `allocChunk, `deallocChunk, `held
      ensures gone == if old(deallocChunk) == |chunks| then |chunks| else emptyChunk
      ensures chunks == Without(old(chunks), gone) && held == old(held) - {old(chunks)[gone].pData}
      ensures deallocChunk == if old(deallocChunk) == |chunks| then emptyChunk else old(deallocChunk)
      ensures 0 <= allocChunk < |chunks|
    {
      var lastChunk := |chunks| - 1;
      gone := if lastChunk == deallocChunk then lastChunk else emptyChunk;
      if lastChunk == deallocChunk {
        deallocChunk := emptyChunk;
      } else if lastChunk != emptyChunk {
        chunks := chunks[emptyChunk := chunks[lastChunk]][lastChunk := chunks[emptyChunk]];
      }
      held := held - {chunks[lastChunk].pData};
      chunks := chunks[..lastChunk];
      if allocChunk == lastChunk || chunks[allocChunk].available == 0 {
        allocChunk := deallocChunk;
      }
    }

    /** `deallocChunk` is wholly free: if there was another such chunk, one of the two goes. */
    method KeepOneEmpty()
      requires Arena(memory, chunks, blockSize, numBlocks) && held == Bases(chunks)
      requires 0 <= allocChunk < |chunks| && 0 <= deallocChunk < |chunks| && emptyChunk != deallocChunk
      requires chunks[deallocChunk].available == numBlocks && EmptyExcept(chunks, numBlocks, emptyChunk, deallocChunk)
      modifies `chunks, `allocChunk, `deallocChunk, `emptyChunk, `held
      ensures Valid() && Live() == old(Live()) && emptyChunk != NULL
      ensures old(emptyChunk) == NULL ==>
                && held == old(held) && chunks == old(chunks)
                && allocChunk == old(allocChunk) && emptyChunk == old(deallocChunk)
      ensures deallocChunk == emptyChunk
      ensures old(emptyChunk) != NULL ==> exists k | 0 <= k < |old(chunks)| ::
                held == old(held) - {old(chunks)[k].pData} && HoldsNoLive(old(chunks)[k])
    {
      if emptyChunk != NULL {
        ghost var before := chunks;
        OneEmptyLeft(chunks, numBlocks, emptyChunk, deallocChunk);
        ghost var gone := ReleaseOne();
        DropKeepsArena(memory, before, gone, blockSize, numBlocks);
        DroppedBase(memory, before, gone, blockSize, numBlocks);
        DroppedRegion(memory, before, gone, blockSize, numBlocks);
        assert HoldsNoLive(before[gone]);
      }
      emptyChunk := deallocChunk;
    }

    /** Gives block `i` of `deallocChunk` back. */
    method DoDeallocate(p: int, ghost i: Byte)
      requires Valid() && chunks != [] && i as int in LiveIndices(memory, chunks[deallocChunk], blockSize, numBlocks)
      requires p == Addr(chunks[deallocChunk].pData, i, blockSize)
      modifies `chunks, `allocChunk, `deallocChunk, `emptyChunk, `memory, `held
      ensures Valid() && Live() == old(Live()) - {p}
      ensures forall a :: a != p ==> Agree(old(memory), memory, a)
      ensures old(emptyChunk) == NULL ==>
                && deallocChunk == old(deallocChunk)
                && OnlyChanged(old(chunks), deallocChunk, 1) && allocChunk == old(allocChunk)
                && emptyChunk == if chunks[deallocChunk].available == numBlocks then deallocChunk else NULL
      ensures held == old(held) || exists k | 0 <= k < |old(chunks)| ::
                held == old(held) - {old(chunks)[k].pData} && HoldsNoLive(old(chunks)[k])
    {
      ReturnKeepsArena(memory, chunks, deallocChunk, i, blockSize, numBlocks);
      SameBases(chunks, deallocChunk, Returned(chunks[deallocChunk], i));
      var c, m := ReturnBlock(memory, chunks[deallocChunk], p, blockSize, i);
      memory, chunks := m, chunks[deallocChunk := c];
      if c.available == numBlocks {
        KeepOneEmpty();
      }
    }

    /** One live block less. At most one region is given up, and no live block is in it; the client's other bytes stay.
        An address in no chunk is left alone. */
    method Deallocate(p: int, hint: int) returns (found: bool)
      requires Valid() && chunks != []
      requires p in Live() || forall k :: !InChunk(k, p)
      requires hint == NULL || InChunk(hint, p)
      modifies `chunks, `allocChunk, `deallocChunk, `emptyChunk, `memory, `held
      ensures Valid()
      ensures found <==> p in old(Live())
      ensures !found ==> unchanged(this)
      ensures found ==> Live() == old(Live()) - {p}
      ensures held == old(held) || exists k | 0 <= k < |old(chunks)| ::
                held == old(held) - {old(chunks)[k].pData} && HoldsNoLive(old(chunks)[k])
      ensures forall a | IsLiveByte(a) :: Agree(old(memory), memory, a)
      ensures found && old(emptyChunk) == NULL ==>
                && 0 <= deallocChunk < |chunks| && InChunk(deallocChunk, p)
                && OnlyChanged(old(chunks), deallocChunk, 1) && allocChunk == old(allocChunk)
                && emptyChunk == if chunks[deallocChunk].available == numBlocks then deallocChunk else NULL
    {
      var foundChunk := hint;
      if hint == NULL {
        foundChunk := VicinityFind(p);
      }
      if foundChunk == NULL {
        if p in Live() {
          LiveIsInChunk(p);
        }
        return false;
      }
      ghost var i := OwnedIndex(p, foundChunk);
      ghost var m, was := memory, chunks;
      deallocChunk := foundChunk;
      DoDeallocate(p, i);
      forall a | IsLiveByte(a)
        ensures Agree(m, memory, a)
      {
        OtherLiveByte(m, was, blockSize, numBlocks, p, Live(), a);
      }
      return true;
    }

    // ---------------------------------------------------------------- trimming

    /** A cached slot outlives the removal of `emptyChunk` if it is that slot, which is repaired, or not the last. */
    ghost predicate Outlives(slot: int)
      reads this
    {
      slot == emptyChunk || slot != |chunks| - 1
    }

    /** Gives the wholly free chunk back, if there is one. No block changes hands, but the allocator stays good exactly
        if neither cached slot is the last one, which the removal takes away, without being the one that is repaired. */
    method TrimEmptyChunk() returns (trimmed: bool)
      requires Valid()
      modifies `chunks, `allocChunk, `deallocChunk, `emptyChunk, `held
      ensures trimmed <==> old(emptyChunk) != NULL
      ensures !trimmed ==> unchanged(this)
      ensures Live() == old(Live()) && emptyChunk == NULL
      ensures trimmed ==> held == old(held) - {old(chunks[emptyChunk].pData)} && |chunks| == |old(chunks)| - 1
      ensures trimmed && chunks != [] && old(allocChunk != emptyChunk) ==> allocChunk == old(allocChunk)
      ensures Valid() <==> !trimmed || |old(chunks)| == 1 || old(Outlives(allocChunk) && Outlives(deallocChunk))
    {
      if emptyChunk == NULL {
        return false;
      }
      DropKeepsArena(memory, chunks, emptyChunk, blockSize, numBlocks);
      DroppedBase(memory, chunks, emptyChunk, blockSize, numBlocks);
      DroppedRegion(memory, chunks, emptyChunk, blockSize, numBlocks);
      NoEmptyLeft(chunks, numBlocks, emptyChunk);
      ghost var before := chunks;
      var lastChunk := |chunks| - 1;
      if lastChunk != emptyChunk {
        chunks := chunks[emptyChunk := chunks[lastChunk]][lastChunk := chunks[emptyChunk]];
      }
      held := held - {chunks[lastChunk].pData};
      chunks := chunks[..lastChunk];
      assert chunks == Without(before, emptyChunk);
      if chunks == [] {
        allocChunk, deallocChunk := NULL, NULL;
      } else {
        if deallocChunk == emptyChunk {
          deallocChunk := 0;
        }
        if allocChunk == emptyChunk {
          allocChunk := |chunks| - 1;
        }
      }
      emptyChunk := NULL;
      return true;
    }

    lemma OwnedIndex(p: int, k: int) returns (i: Byte)
      requires Valid() && p in Live() && InChunk(k, p)
      ensures i as int in LiveIndices(memory, chunks[k], blockSize, numBlocks)
      ensures p == Addr(chunks[k].pData, i, blockSize)
    {
      var j :| 0 <= j < |chunks| && LiveIn(memory, chunks[j], blockSize, numBlocks, p);
      OnlyOwner(memory, chunks, j, k, blockSize, numBlocks, p);
      var x :| x in LiveIndices(memory, chunks[k], blockSize, numBlocks) && p == Addr(chunks[k].pData, x, blockSize);
      i := x;
    }

    lemma LiveIsInChunk(p: int)
      requires Valid() && p in Live()
      ensures exists k :: InChunk(k, p)
    {
      var k :| 0 <= k < |chunks| && LiveIn(memory, chunks[k], blockSize, numBlocks, p);
      LiveInside(memory, chunks[k], blockSize, numBlocks, p);
      assert InChunk(k, p);
    }
  }

  /** Of two wholly free chunks one is left, in the slot that `deallocChunk` ends up with. */
  lemma OneEmptyLeft(chunks: seq<Chunk>, n: Byte, empty: int, d: int)
    requires 0 <= d < |chunks| && chunks[d].available == n
    requires EmptyExcept(chunks, n, empty, d) && empty != NULL && empty != d
    ensures var last := |chunks| - 1;
            EmptyExcept(Without(chunks, if last == d then last else empty), n, if last == d then empty else d, NULL)
  {
  }

  lemma NoEmptyLeft(chunks: seq<Chunk>, n: Byte, empty: nat)
    requires empty < |chunks| && EmptyExcept(chunks, n, empty, NULL)
    ensures EmptyExcept(Without(chunks, empty), n, NULL, NULL)
  {
  }

  lemma AddedBase(chunks: seq<Chunk>, c: Chunk)
    ensures Bases(chunks + [c]) == Bases(chunks) + {c.pData}
  {
    var after := chunks + [c];
    assert after[|chunks|] == c;
    assert forall k | 0 <= k < |chunks| :: after[k] == chunks[k];
  }

  lemma SameBases(chunks: seq<Chunk>, k: nat, c: Chunk)
    requires k < |chunks| && c.pData == chunks[k].pData
    ensures Bases(chunks[k := c]) == Bases(chunks)
  {
    var after := chunks[k := c];
    assert forall j | 0 <= j < |chunks| :: after[j].pData == chunks[j].pData;
  }

  // ---------------------------------------------------------------- a run that strands a cached slot

  /** These are different live blocks of chunk 0. */
  ghost predicate BlocksOfFirst(a: FixedAllocator, places: seq<int>)
    reads a
  {
    Distinct(places) && forall i | 0 <= i < |places| :: places[i] in a.Live() && a.InChunk(0, places[i])
  }

  /** The chunks of eight blocks of one byte at 100 and 200, with so many free blocks each. */
  ghost predicate Looks(a: FixedAllocator, free: seq<int>)
    reads a
  {
    && a.Valid() && a.numBlocks == 8 && a.blockSize == 1 && |a.chunks| == |free| <= 2
    && forall k | 0 <= k < |free| :: a.chunks[k].pData == 100 * (k + 1) && a.chunks[k].available as int == free[k]
  }

  method FillFirstChunk() returns (a: FixedAllocator, places: seq<int>)
    ensures fresh(a) && Looks(a, [0]) && |places| == 8 && BlocksOfFirst(a, places)
  {
    a := new FixedAllocator(1, 8);
    var place := a.Allocate(100);
    places := [place];
    while |places| < 8
      invariant 1 <= |places| <= 8 && fresh(a) && Looks(a, [8 - |places|]) && BlocksOfFirst(a, places)
      invariant a.allocChunk == 0 && a.emptyChunk == NULL
      decreases 8 - |places|
    {
      places := FillOne(a, places);
    }
  }

  method FillOne(a: FixedAllocator, places: seq<int>) returns (more: seq<int>)
    requires 1 <= |places| < 8 && Looks(a, [8 - |places|]) && BlocksOfFirst(a, places)
    requires a.allocChunk == 0 && a.emptyChunk == NULL
    modifies a
    ensures |more| == |places| + 1 && Looks(a, [8 - |more|]) && BlocksOfFirst(a, more)
    ensures a.allocChunk == 0 && a.emptyChunk == NULL
  {
    var place := a.Allocate(0);
    more := places + [place];
  }

  method AddSecondChunk(a: FixedAllocator, ghost places: seq<int>)
    requires Looks(a, [0]) && BlocksOfFirst(a, places)
    modifies a
    ensures Looks(a, [0, 7]) && BlocksOfFirst(a, places) && a.allocChunk == 1 && a.emptyChunk == NULL
  {
    var place := a.Allocate(200);
  }

  method EmptyFirstChunk(a: FixedAllocator, places: seq<int>)
    requires Looks(a, [0, 7]) && BlocksOfFirst(a, places) && |places| == 8 && a.allocChunk == 1 && a.emptyChunk == NULL
    modifies a
    ensures Looks(a, [8, 7]) && a.allocChunk == 1 && a.emptyChunk == 0
  {
    var i := 0;
    while i < 8
      invariant 0 <= i <= 8 && Looks(a, [i, 7]) && BlocksOfFirst(a, places[i..])
      invariant a.allocChunk == 1 && a.emptyChunk == if i == 8 then 0 else NULL
    {
      GiveFirstBack(a, places[i..], i);
      assert places[i..][1..] == places[i + 1..];
      i := i + 1;
    }
  }

  method GiveFirstBack(a: FixedAllocator, places: seq<int>, i: int)
    requires 0 <= i < 8 && places != [] && Looks(a, [i, 7]) && BlocksOfFirst(a, places)
    requires a.allocChunk == 1 && a.emptyChunk == NULL
    modifies a
    ensures Looks(a, [i + 1, 7]) && BlocksOfFirst(a, places[1..])
    ensures a.allocChunk == 1 && a.emptyChunk == if i == 7 then 0 else NULL
  {
    var found := a.Deallocate(places[0], 0);
  }

  /** Eight allocations fill a chunk, a ninth makes another one, and the eight blocks are given back: `emptyChunk` is
      slot 0, `allocChunk` is slot 1, the last. Trimming takes slot 1 away, and `allocChunk` still names it. */
  method TrimStrandsAllocChunk() returns (a: FixedAllocator)
    ensures fresh(a) && |a.chunks| == 1 && a.allocChunk == 1 && !a.Valid()
  {
    var places;
    a, places := FillFirstChunk();
    AddSecondChunk(a, places);
    EmptyFirstChunk(a, places);
    var trimmed := a.TrimEmptyChunk();
  }
}
