/**
 The dynamic allocator's bookkeeping as a value: the per-page records, the chunks that are
 live on each page, and the map from addresses to sizes that they stand for.

 A kernel address is its physical address: the constant offset of the kernel's linear
 mapping is left out.
 */
module SlabHeap {
  import opened Common
  import opened Dyadic
  import opened BuddyTags

  const MIN_POOL_SIZE_EXP: nat := 4
  const MAX_POOL_SIZE_EXP: nat := 11
  const POOLS: nat := 8

  /** dynamic_node; bits holds the positions of the set bits of the bitmap. */
  datatype Page = Page(chunk: nat, sum: int, bits: set<nat>, cur: int, next: Link)

  /** The bytes of a chunk of pool c, and how many fit on a page. */
  function ChunkSize(c: nat): (r: nat)
    requires c < POOLS
    ensures 16 <= r <= 2048
  {
    ChunkTable(c);
    Pow2(c + MIN_POOL_SIZE_EXP)
  }

  function Chunks(c: nat): (r: nat)
    requires c < POOLS
    ensures 2 <= r <= 256 && r * ChunkSize(c) == PAGE_SIZE
  {
    ChunkTable(c);
    PAGE_SIZE / ChunkSize(c)
  }

  lemma ChunkTable(c: nat)
    requires c < POOLS
    ensures Pow2(c + MIN_POOL_SIZE_EXP) == [16, 32, 64, 128, 256, 512, 1024, 2048][c]
  {
    assert Pow2(4) == 16 && Pow2(5) == 32 && Pow2(6) == 64 && Pow2(7) == 128;
    assert Pow2(8) == 256 && Pow2(9) == 512 && Pow2(10) == 1024 && Pow2(11) == 2048;
  }

  /** The address of chunk i of page p. */
  function ChunkAddr(p: nat, i: nat, size: nat): (r: nat) {
    p * PAGE_SIZE + i * size
  }

  /**
   The bit that stands for chunk i. The masks are written 1 << (i % 64) with an int 1. With
   64-bit masks (wide) every chunk of a page has its own bit. A 32-bit register shift takes
   its count modulo 32, so then chunks i and i + 32 share one. The int mask of chunk 31 is
   negative and widens to bits 31 to 63 of the word; no other mask has any of these bits, so
   they are set, tested and cleared together and stand for one.
   */
  function Bit(wide: bool, i: nat): (r: nat) {
    i / 64 * 64 + if wide then i % 64 else i % 32
  }

  lemma WideBitIsIndex(i: nat)
    ensures Bit(true, i) == i
  {
  }

  /** sum of (i + 1) over the live chunk indices below m. */
  ghost function SumBelow(live: set<nat>, m: nat): (r: nat) {
    if m == 0 then 0 else SumBelow(live, m - 1) + if m - 1 in live then m else 0
  }

  lemma {:induction false} SumWith(live: set<nat>, i: nat, m: nat)
    requires i !in live
    ensures SumBelow(live + {i}, m) == SumBelow(live, m) + if i < m then i + 1 else 0
  {
    if m > 0 {
      SumWith(live, i, m - 1);
    }
  }

  /** The index sum is zero exactly when no chunk is live. */
  lemma {:induction false} SumZeroIffEmpty(live: set<nat>, m: nat)
    requires forall i :: i in live ==> i < m
    ensures SumBelow(live, m) == 0 <==> live == {}
  {
    if m > 0 {
      if m - 1 !in live {
        forall i | i in live ensures i < m - 1 {
        }
        SumZeroIffEmpty(live, m - 1);
      }
    }
  }

  ghost predicate Idle(pg: Page, live: set<nat>) {
    pg.chunk == PAGE_SIZE && pg.sum == 0 && pg.bits == {} && pg.next == Null && live == {}
  }

  /** The record of a page of pool c describes exactly its live chunks. */
  ghost predicate Pooled(wide: bool, pg: Page, live: set<nat>, c: nat) {
    && c < POOLS && pg.chunk == ChunkSize(c)
    && live != {} && (forall i :: i in live ==> i < Chunks(c))
    && (forall i, j :: i in live && j in live && Bit(wide, i) == Bit(wide, j) ==> i == j)
    && pg.bits == (set i | i in live :: Bit(wide, i))
    && pg.sum == SumBelow(live, Chunks(c))
    && 0 <= pg.cur < Chunks(c)
  }

  /** Taking a chunk whose bit is clear. */
  function WithChunk(wide: bool, pg: Page, i: nat): (r: Page) {
    pg.(sum := pg.sum + i + 1, bits := pg.bits + {Bit(wide, i)}, cur := i)
  }

  lemma TakeChunk(wide: bool, pg: Page, live: set<nat>, c: nat, i: nat)
    requires Pooled(wide, pg, live, c) && i < Chunks(c) && Bit(wide, i) !in pg.bits
    ensures i !in live && Pooled(wide, WithChunk(wide, pg, i), live + {i}, c)
  {
    SumWith(live, i, Chunks(c));
    assert (set j | j in live + {i} :: Bit(wide, j)) == (set j | j in live :: Bit(wide, j)) + {Bit(wide, i)};
  }

  function WithoutChunk(wide: bool, pg: Page, i: nat): (r: Page) {
    pg.(sum := pg.sum - (i + 1), bits := pg.bits - {Bit(wide, i)})
  }

  /** Returning a live chunk: the sum drops to zero exactly when it was the last one. */
  lemma ReturnChunk(wide: bool, pg: Page, live: set<nat>, c: nat, i: nat)
    requires Pooled(wide, pg, live, c) && i in live
    ensures Bit(wide, i) in pg.bits
    ensures var pg' := WithoutChunk(wide, pg, i);
            (pg'.sum == 0 <==> live == {i}) && (live != {i} ==> Pooled(wide, pg', live - {i}, c))
  {
    var rest := live - {i};
    assert rest + {i} == live;
    SumWith(rest, i, Chunks(c));
    SumZeroIffEmpty(rest, Chunks(c));
    assert (set j | j in rest :: Bit(wide, j)) == (set j | j in live :: Bit(wide, j)) - {Bit(wide, i)};
  }

  /** With wide masks a bit is set exactly when its chunk is live. */
  lemma WideBitIsLive(pg: Page, live: set<nat>, c: nat, i: nat)
    requires Pooled(true, pg, live, c)
    ensures Bit(true, i) in pg.bits <==> i in live
  {
    WideBitIsIndex(i);
    if Bit(true, i) in pg.bits {
      var j :| j in live && Bit(true, j) == Bit(true, i);
      WideBitIsIndex(j);
    }
  }

  /** With wide masks the search gives up on a page exactly when all its chunks are live. */
  lemma SkippedOnlyWhenFull(pg: Page, live: set<nat>, c: nat)
    requires Pooled(true, pg, live, c)
    ensures (forall i: nat :: i < Chunks(c) ==> Bit(true, i) in pg.bits) <==>
            (forall i: nat :: i < Chunks(c) ==> i in live)
  {
    forall i: nat ensures Bit(true, i) in pg.bits <==> i in live {
      WideBitIsLive(pg, live, c, i);
    }
  }

  ghost predicate AllSet(wide: bool, pg: Page, c: nat)
    requires c < POOLS
  {
    forall i: nat {:trigger Bit(wide, i)} :: i < Chunks(c) ==> Bit(wide, i) in pg.bits
  }

  ghost predicate AllLive(live: set<nat>, c: nat)
    requires c < POOLS
  {
    forall i: nat {:trigger i in live} :: i < Chunks(c) ==> i in live
  }

  /** On pages of 128-byte chunks and larger the int masks are as good as wide ones. */
  lemma IntBitIsLive(pg: Page, live: set<nat>, c: nat, i: nat)
    requires Pooled(false, pg, live, c) && ChunkSize(c) >= 128 && i < Chunks(c)
    ensures Bit(false, i) in pg.bits <==> i in live
  {
    FewChunks(c);
    SmallBit(i);
    if Bit(false, i) in pg.bits {
      var j :| j in live && Bit(false, j) == Bit(false, i);
      SmallBit(j);
    }
  }

  lemma FewChunks(c: nat)
    requires c < POOLS
    ensures Chunks(c) <= 32 <==> ChunkSize(c) >= 128
  {
    ChunkTable(c);
  }

  lemma SmallBit(i: nat)
    requires i < 32
    ensures Bit(false, i) == i
  {
  }

  /** A page of smaller chunks on which only the chunks with a bit of their own, and all of those, are live. */
  lemma HalfFullPage(c: nat) returns (pg: Page, live: set<nat>)
    requires c < POOLS && ChunkSize(c) < 128
    ensures Pooled(false, pg, live, c) && AllSet(false, pg, c) && 32 < Chunks(c) && 32 !in live
  {
    ChunkTable(c);
    live := set i: nat | i < Chunks(c) && i % 64 < 32;
    pg := Page(ChunkSize(c), SumBelow(live, Chunks(c)), set i | i in live :: Bit(false, i), 0, Null);
    forall i | i in live ensures Bit(false, i) == i {
    }
    assert 0 in live;
    forall i: nat | i < Chunks(c) ensures Bit(false, i) in pg.bits {
      var j := i / 64 * 64 + i % 32;
      assert j in live && Bit(false, j) == Bit(false, i);
    }
  }

  /** With int masks a page is passed over only when it is full, on every page of a pool, if and only if the chunks
      have 128 bytes or more. */
  lemma IntMasksSkipIff(c: nat)
    requires c < POOLS
    ensures (forall pg, live {:trigger Pooled(false, pg, live, c)} :: Pooled(false, pg, live, c) ==>
            (AllSet(false, pg, c) <==> AllLive(live, c)))
            <==> ChunkSize(c) >= 128
  {
    if ChunkSize(c) >= 128 {
      forall pg, live | Pooled(false, pg, live, c) ensures AllSet(false, pg, c) <==> AllLive(live, c) {
        forall i: nat | i < Chunks(c) ensures Bit(false, i) in pg.bits <==> i in live {
          IntBitIsLive(pg, live, c, i);
        }
      }
    } else {
      var pg, live := HalfFullPage(c);
      assert !AllLive(live, c);
    }
  }

  /** A page with one live chunk, number 0. */
  lemma OneChunkPage(c: nat) returns (pg: Page, live: set<nat>)
    requires c < POOLS
    ensures live == {0} && Pooled(false, pg, live, c) && pg.sum == 1 && pg.bits == {0}
  {
    live := {0};
    SumOfFirst(Chunks(c));
    pg := Page(ChunkSize(c), 1, {0}, 0, Null);
    assert pg.bits == (set i | i in live :: Bit(false, i));
  }

  lemma {:induction false} SumOfFirst(m: nat)
    requires m > 0
    ensures SumBelow({0}, m) == 1
  {
    if m == 1 {
      assert SumBelow({0}, 0) == 0;
    } else {
      SumOfFirst(m - 1);
    }
  }

  /** The int mask that free tests belongs to the chunk it frees, on every page of a pool, if and only if the chunks
      have 128 bytes or more. */
  lemma IntMasksNameIff(c: nat)
    requires c < POOLS
    ensures (forall pg, live, i: nat {:trigger Pooled(false, pg, live, c), Bit(false, i)} ::
               Pooled(false, pg, live, c) && i < Chunks(c) ==> (Bit(false, i) in pg.bits <==> i in live))
            <==> ChunkSize(c) >= 128
  {
    ChunkTable(c);
    if ChunkSize(c) >= 128 {
      forall pg, live, i: nat | Pooled(false, pg, live, c) && i < Chunks(c) ensures Bit(false, i) in pg.bits <==>
        i in live {
        IntBitIsLive(pg, live, c, i);
      }
    } else {
      var pg, live := OneChunkPage(c);
      assert Bit(false, 32) in pg.bits && 32 !in live;
    }
  }

  /** On a page of smaller chunks with chunk 0 live, freeing the dead chunk 32 is not refused, and leaves a record that
      describes no set of live chunks. */
  lemma IntMasksFreeDeadChunk(c: nat) returns (pg: Page, live: set<nat>)
    requires c < POOLS && ChunkSize(c) < 128
    ensures Pooled(false, pg, live, c) && 32 < Chunks(c) && 32 !in live && Bit(false, 32) in pg.bits
    ensures forall left, d :: !Pooled(false, WithoutChunk(false, pg, 32), left, d)
  {
    ChunkTable(c);
    pg, live := OneChunkPage(c);
    assert WithoutChunk(false, pg, 32).sum == -32;
  }

  // ----- the heap as a map from addresses to sizes

  datatype Heap = Heap(n: nat, a: seq<int>, pages: seq<Page>, live: seq<set<nat>>)

  ghost predicate PageOk(wide: bool, h: Heap, p: nat)
    requires p < |h.a| && p < |h.pages| && p < |h.live|
  {
    || Idle(h.pages[p], h.live[p])
    || (h.a[p] == NEG_ZERO && exists c :: 0 <= c < POOLS && Pooled(wide, h.pages[p], h.live[p], c))
  }

  /** The page allocator's invariant, and every page idle or holding live chunks of one pool. */
  ghost predicate HeapOk(wide: bool, h: Heap) {
    && Tiled(h.n, h.a) && Coalesced(h.n, h.a) && |h.pages| == |h.live| == |h.a|
    && (forall p {:trigger PageOk(wide, h, p)} :: 0 <= p < |h.a| ==> PageOk(wide, h, p))
  }

  ghost predicate IsLive(h: Heap, addr: nat)
    requires |h.pages| == |h.live| == |h.a|
  {
    var p, off := addr / PAGE_SIZE, addr % PAGE_SIZE;
    && p < |h.a|
    && if h.pages[p].chunk == PAGE_SIZE then off == 0 && h.a[p] < 0
       else h.pages[p].chunk > 0 && off % h.pages[p].chunk == 0 && off / h.pages[p].chunk in h.live[p]
  }

  ghost function SizeAt(h: Heap, addr: nat): (r: nat)
    requires |h.pages| == |h.live| == |h.a| && IsLive(h, addr)
  {
    var p := addr / PAGE_SIZE;
    if h.pages[p].chunk == PAGE_SIZE then Pow2(Order(h.a[p])) * PAGE_SIZE else h.pages[p].chunk
  }

  /** The live allocations: blocks handed out or reserved whole, and live chunks. */
  ghost function Allocs(h: Heap): (m: map<nat, nat>)
    requires |h.pages| == |h.live| == |h.a|
  {
    map addr: nat | addr < |h.a| * PAGE_SIZE && IsLive(h, addr) :: SizeAt(h, addr)
  }

  /** A live chunk, seen from its address. */
  lemma LiveChunk(wide: bool, h: Heap, addr: nat) returns (c: nat, i: nat)
    requires HeapOk(wide, h) && IsLive(h, addr) && h.pages[addr / PAGE_SIZE].chunk != PAGE_SIZE
    ensures Pooled(wide, h.pages[addr / PAGE_SIZE], h.live[addr / PAGE_SIZE], c) && h.a[addr / PAGE_SIZE] == NEG_ZERO
    ensures i in h.live[addr / PAGE_SIZE] && addr == ChunkAddr(addr / PAGE_SIZE, i, ChunkSize(c))
    ensures i * ChunkSize(c) + ChunkSize(c) <= PAGE_SIZE
  {
    var p, off := addr / PAGE_SIZE, addr % PAGE_SIZE;
    assert PageOk(wide, h, p);
    c :| 0 <= c < POOLS && Pooled(wide, h.pages[p], h.live[p], c);
    i := off / ChunkSize(c);
    ExactQuotient(off, ChunkSize(c));
    ProductGrows(ChunkSize(c), i, Chunks(c));
  }

  /** No two live allocations overlap, and each lies inside one used block of the page allocator. */
  lemma AllocsDisjoint(wide: bool, h: Heap, x: nat, y: nat)
    requires HeapOk(wide, h) && x in Allocs(h) && y in Allocs(h) && x < y
    ensures x + Allocs(h)[x] <= y
  {
    var p, q := x / PAGE_SIZE, y / PAGE_SIZE;
    if h.pages[p].chunk == PAGE_SIZE {
      BlockEndsBeforeNextUsedPage(wide, h, x, y);
    } else {
      var c, i := LiveChunk(wide, h, x);
      if p == q {
        var c', j := LiveChunk(wide, h, y);
        MultiplesApart(ChunkSize(c), i, j);
      }
    }
  }

  lemma BlockEndsBeforeNextUsedPage(wide: bool, h: Heap, x: nat, y: nat)
    requires HeapOk(wide, h) && x in Allocs(h) && y in Allocs(h) && x < y && h.pages[x / PAGE_SIZE].chunk == PAGE_SIZE
    ensures x + Allocs(h)[x] <= y
  {
    var p, q := x / PAGE_SIZE, y / PAGE_SIZE;
    assert h.a[q] < 0 by {
      if h.pages[q].chunk != PAGE_SIZE {
        var c, i := LiveChunk(wide, h, y);
      }
    }
    assert p < q;
    Apart(h.n, h.a, p, q);
  }

  lemma InsideUsedBlock(wide: bool, h: Heap, x: nat, b: nat)
    requires HeapOk(wide, h) && x in Allocs(h) && x <= b < x + Allocs(h)[x]
    ensures b / PAGE_SIZE < |h.a| && Used(h.n, h.a, b / PAGE_SIZE)
  {
    var p := x / PAGE_SIZE;
    if h.pages[p].chunk == PAGE_SIZE {
      BlockPagesUse(h.n, h.a, p);
      assert p <= b / PAGE_SIZE < p + Pow2(Order(h.a[p]));
    } else {
      var c, i := LiveChunk(wide, h, x);
      BlockPagesUse(h.n, h.a, p);
      assert b / PAGE_SIZE == p;
    }
  }
}
