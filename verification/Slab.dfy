/**
 The dynamic allocator: pools of pages cut into chunks of 16 to 2048 bytes, on top of the
 page allocator. Its abstract state is a map from addresses to sizes.
 */
module Slab {
  import opened Common
  import opened Dyadic
  import opened BuddyTags
  import opened SlabHeap
  import opened SlabPools
  import Buddy

  /** The pool whose chunks are the smallest that hold size bytes (POOLS means a whole page). */
  ghost predicate PoolFor(size: nat, c: nat) {
    c <= POOLS && size <= Pow2(c + MIN_POOL_SIZE_EXP) && (c > 0 ==> Pow2(c + MIN_POOL_SIZE_EXP - 1) < size)
  }

  /** The request is served from a pool. */
  ghost predicate HasPool(size: nat) {
    exists c :: 0 <= c < POOLS && PoolFor(size, c)
  }

  /** The circular successor of index i. */
  function NextIndex(i: nat, num: nat): (r: nat)
    requires i < num
    ensures r == if i + 1 < num then i + 1 else 0
  {
    RemainderBelow(i + 1, num);
    DivModUnique(num, num, 1, 0);
    (i + 1) % num
  }

  /** Index j lies behind cur and before i, in circular order. */
  predicate Passed(cur: int, i: nat, num: nat, j: nat) {
    if i > cur then cur < j < i else cur < j < num || j < i
  }

  lemma FreshPooled(wide: bool, c: nat, pg: Page)
    requires c < POOLS && pg == Page(ChunkSize(c), 1, {0}, 0, Null)
    ensures Pooled(wide, pg, {0}, c)
  {
    SumWith({}, 0, Chunks(c));
    SumZeroIffEmpty({}, Chunks(c));
    assert {} + {0} == {0};
    assert (set i | i in {0} :: Bit(wide, i)) == {Bit(wide, 0)};
  }

  lemma NoPoolFor(size: nat, e: nat)
    requires Buddy.Fits(e, size) && e > MAX_POOL_SIZE_EXP
    ensures 2048 < size && forall c :: 0 <= c < POOLS ==> !PoolFor(size, c)
  {
    Pow2Monotone(MAX_POOL_SIZE_EXP, e - 1);
    ChunkTable(7);
    forall c | 0 <= c < POOLS ensures !PoolFor(size, c) {
      Pow2Monotone(c + MIN_POOL_SIZE_EXP, e - 1);
    }
  }

  lemma PoolIs(size: nat, e: nat, c: nat)
    requires Buddy.Fits(e, size) && e <= MAX_POOL_SIZE_EXP
    requires c == if e < MIN_POOL_SIZE_EXP then 0 else e - MIN_POOL_SIZE_EXP
    ensures PoolFor(size, c) && size <= ChunkSize(c)
    ensures forall d :: 0 <= d < POOLS && PoolFor(size, d) ==> d == c
  {
    Pow2Monotone(e, c + MIN_POOL_SIZE_EXP);
    forall d | 0 <= d < POOLS && PoolFor(size, d) ensures d == c {
      if d < c {
        Pow2Monotone(d + MIN_POOL_SIZE_EXP, c + MIN_POOL_SIZE_EXP - 1);
      } else if c < d {
        Pow2Monotone(c + MIN_POOL_SIZE_EXP, d + MIN_POOL_SIZE_EXP - 1);
      }
    }
  }

  /** got is the least power of two that holds size bytes and is at least 16. */
  ghost predicate RoundedUp(size: nat, got: nat) {
    exists e: nat :: got == Pow2(e) && Buddy.Fits(e, Max(size, 16))
  }

  lemma PoolRounds(size: nat, c: nat)
    requires c < POOLS && PoolFor(size, c)
    ensures RoundedUp(size, ChunkSize(c))
  {
    ChunkTable(c);
    if c > 0 {
      ChunkTable(c - 1);
    }
    assert Pow2(3) == 8;
    assert Buddy.Fits(c + MIN_POOL_SIZE_EXP, Max(size, 16));
  }

  lemma {:induction false} PageBytes(k: nat)
    ensures Pow2(k + 12) == Pow2(k) * PAGE_SIZE
  {
    if k == 0 {
      ChunkTable(7);
      assert Pow2(12) == 2 * Pow2(11);
    } else {
      PageBytes(k - 1);
    }
  }

  lemma PagesRound(size: nat, k: nat)
    requires 2048 < size && Buddy.Fits(k, (size - 1) / PAGE_SIZE + 1)
    ensures RoundedUp(size, Pow2(k) * PAGE_SIZE) && size <= Pow2(k) * PAGE_SIZE
  {
    PageBytes(k);
    ChunkTable(7);
    if k > 0 {
      PageBytes(k - 1);
    }
    assert Buddy.Fits(k + 12, Max(size, 16));
  }

  lemma BitClearNotLive(wide: bool, pg: Page, live: set<nat>, c: nat, i: nat)
    requires Pooled(wide, pg, live, c) && Bit(wide, i) !in pg.bits
    ensures i !in live
  {
  }

  /** An address on a pooled page lies in the chunk that its offset divides to. */
  lemma ChunkHoldsAddress(h: Heap, c: nat, p: nat, i: nat, addr: nat)
    requires c < POOLS && addr / PAGE_SIZE == p && i == addr % PAGE_SIZE / ChunkSize(c)
    ensures ChunkAddr(p, i, ChunkSize(c)) <= addr < ChunkAddr(p, i, ChunkSize(c)) + ChunkSize(c)
    ensures addr % PAGE_SIZE % ChunkSize(c) == 0 ==> addr == ChunkAddr(p, i, ChunkSize(c))
  {
    QuotientBounds(addr % PAGE_SIZE, ChunkSize(c));
  }

  lemma LiveChunkSize(wide: bool, h: Heap, c: nat, p: nat, i: nat, addr: nat)
    requires HeapOk(wide, h) && p < |h.a| && Pooled(wide, h.pages[p], h.live[p], c) && i in h.live[p]
    requires addr / PAGE_SIZE == p && i == addr % PAGE_SIZE / ChunkSize(c)
    ensures var base := ChunkAddr(p, i, ChunkSize(c));
            base in Allocs(h) && Allocs(h)[base] == ChunkSize(c) && base <= addr < base + ChunkSize(c)
    ensures addr in Allocs(h) ==> addr == ChunkAddr(p, i, ChunkSize(c))
  {
    ChunkAddress(c, p, i);
    ChunkHoldsAddress(h, c, p, i, addr);
    assert IsLive(h, ChunkAddr(p, i, ChunkSize(c)));
  }

  class Allocator {
    const wide: bool
    const buddy: Buddy.Allocator
    const nodes: array<Page>   // dynamic_node_arr
    const pools: array<Link>   // mem_pool
    ghost var lists: seq<seq<nat>>
    ghost var live: seq<set<nat>>

    ghost function H(): (h: Heap)
      reads this, nodes, buddy.arr
    {
      Heap(buddy.n, buddy.arr[..], nodes[..], live)
    }

    ghost predicate Valid()
      reads this, buddy, buddy.arr, buddy.nodes, buddy.heads, nodes, pools
    {
      && pools != buddy.heads && buddy.Valid() && pools.Length == POOLS
      && HeapOk(wide, H()) && Pools(pools[..], lists, nodes[..])
    }

    /** dynamic_allocator_init. */
    constructor (buddy: Buddy.Allocator, wide: bool)
      requires buddy.Valid()
      ensures Valid() && this.buddy == buddy && this.wide == wide && fresh(nodes) && fresh(pools)
      ensures forall p :: 0 <= p < |live| ==> live[p] == {}
    {
      this.buddy, this.wide := buddy, wide;
      nodes := new Page[buddy.arr.Length](_ => Page(PAGE_SIZE, 0, {}, -1, Null));
      pools := new Link[POOLS](_ => Null);
      lists := seq(POOLS, _ => []);
      live := seq(buddy.arr.Length, _ => {});
      new;
      forall p | 0 <= p < |live| ensures PageOk(wide, H(), p) {
        assert Idle(nodes[p], live[p]);
      }
    }

    /** The circular search for a free chunk, from just after the last one allocated. */
    method FindChunk(p: nat, c: nat) returns (found: bool, i: nat)
      requires p < nodes.Length && c < POOLS && 0 <= nodes[p].cur < Chunks(c)
      ensures found ==> i < Chunks(c) && Bit(wide, i) !in nodes[p].bits
      ensures found ==> forall j: nat :: Passed(nodes[p].cur, i, Chunks(c), j) ==> Bit(wide, j) in nodes[p].bits
      ensures !found ==> forall j: nat :: j < Chunks(c) ==> Bit(wide, j) in nodes[p].bits
    {
      var cur, num := nodes[p].cur, Chunks(c);
      i := NextIndex(cur, num);
      while Bit(wide, i) in nodes[p].bits
        invariant i < num
        invariant forall j: nat :: Passed(cur, i, num, j) ==> Bit(wide, j) in nodes[p].bits
        decreases if i > cur then num - i + cur + 1 else cur - i
      {
        if i == cur {
          return false, i;
        }
        i := NextIndex(i, num);
      }
      return true, i;
    }

    ghost predicate PageFull(p: nat, c: nat)
      requires p < nodes.Length && c < POOLS
      reads this, nodes
    {
      forall i: nat :: i < Chunks(c) ==> Bit(wide, i) in nodes[p].bits
    }

    /** No page of pool c has a clear bit. */
    ghost predicate PoolFull(c: nat)
      requires c < POOLS && c < |lists|
      reads this, nodes
    {
      forall j :: 0 <= j < |lists[c]| && lists[c][j] < nodes.Length ==> PageFull(lists[c][j], c)
    }

    lemma PooledPage(c: nat, j: nat)
      requires Valid() && c < POOLS && j < |lists[c]|
      ensures lists[c][j] < nodes.Length && Pooled(wide, nodes[lists[c][j]], live[lists[c][j]], c)
      ensures buddy.arr[lists[c][j]] == NEG_ZERO && nodes[lists[c][j]].next == LinkTo(lists[c], j + 1)
    {
      var p := lists[c][j];
      assert p in lists[c];
      assert Pool(lists[c], pools[..][c], nodes[..]) && NextOk(lists[c], nodes[..], j);
      assert PageOk(wide, H(), p);
      var d :| 0 <= d < POOLS && Pooled(wide, nodes[p], live[p], d);
      ChunkSizesDiffer(c, d);
    }

    /** The walk of malloc over the pages of a pool. */
    method FindPage(c: nat) returns (found: bool, p: nat, i: nat, last: Link)
      requires Valid() && c < POOLS
      ensures found ==> p in lists[c] && i < Chunks(c) && p < nodes.Length && Bit(wide, i) !in nodes[p].bits
      ensures !found ==> last == LinkTo(lists[c], |lists[c]| - 1) && PoolFull(c)
    {
      found, p, i, last := false, 0, 0, Null;
      var cur := pools[c];
      ghost var j := 0;
      while cur != Null
        invariant 0 <= j <= |lists[c]| && cur == LinkTo(lists[c], j) && last == LinkTo(lists[c], j - 1)
        invariant forall x :: 0 <= x < j && lists[c][x] < nodes.Length ==> PageFull(lists[c][x], c)
        decreases |lists[c]| - j
      {
        PooledPage(c, j);
        p := cur.idx;
        found, i := FindChunk(p, c);
        if found {
          return;
        }
        assert PageFull(p, c);
        last, cur := cur, nodes[p].next;
        j := j + 1;
      }
    }

    /** Mark chunk i of pooled page p allocated. */
    method TakeFrom(p: nat, c: nat, i: nat) returns (addr: nat)
      requires Valid() && c < POOLS && p in lists[c] && p < nodes.Length && i < Chunks(c)
      requires Bit(wide, i) !in nodes[p].bits
      modifies this`live, nodes
      ensures Valid() && unchanged(buddy) && unchanged(buddy.arr) && nodes[p].cur == i
      ensures addr !in old(Allocs(H())) && Allocs(H()) == old(Allocs(H()))[addr := ChunkSize(c)]
    {
      ghost var h := H();
      ghost var j :| 0 <= j < |lists[c]| && lists[c][j] == p;
      PooledPage(c, j);
      var pg := WithChunk(wide, nodes[p], i);
      PoolsFrame(pools[..], lists, nodes[..], p, pg);
      ChunkTaken(wide, h, h.(pages := h.pages[p := pg], live := h.live[p := h.live[p] + {i}]), p, c, i);
      nodes[p] := pg;
      live := live[p := live[p] + {i}];
      addr := ChunkAddr(p, i, pg.chunk);
      assert nodes[..] == h.pages[p := pg];
    }

    /** malloc's last resort: a fresh page for pool c, whose first chunk is handed out. */
    method AddPage(c: nat, last: Link) returns (addr: nat)
      requires Valid() && c < POOLS && last == LinkTo(lists[c], |lists[c]| - 1)
      requires Buddy.Satisfiable(buddy.n, buddy.arr[..], 1)
      modifies this, nodes, pools, buddy, buddy.arr, buddy.nodes, buddy.heads
      ensures Valid()
      ensures addr !in old(Allocs(H())) && Allocs(H()) == old(Allocs(H()))[addr := ChunkSize(c)]
    {
      ghost var h := H();
      LastIsPooled(c);
      var p := TakePage();
      Install(p, c, last, h);
      addr := p * PAGE_SIZE;
    }

    /** One page from the page allocator. */
    method TakePage() returns (p: nat)
      requires buddy.Valid() && Buddy.Satisfiable(buddy.n, buddy.arr[..], 1)
      modifies buddy, buddy.arr, buddy.nodes, buddy.heads
      ensures buddy.Valid() && Buddy.Allocated(buddy.n, old(buddy.arr[..]), buddy.arr[..], p, 0)
    {
      var ok, frame;
      ghost var k;
      ok, frame, k := buddy.Malloc(1);
      assert k == 0;
      p := frame / PAGE_SIZE;
    }

    /** Make the page p just obtained the newest page of pool c; h is the heap before it was obtained. */
    method Install(p: nat, c: nat, last: Link, ghost h: Heap)
      requires pools != buddy.heads && buddy.Valid() && c < POOLS == pools.Length
      requires h.n == buddy.n && h.pages == nodes[..] && h.live == live
      requires HeapOk(wide, h) && Pools(pools[..], lists, h.pages) && Buddy.Allocated(h.n, h.a, buddy.arr[..], p, 0)
      requires last == LinkTo(lists[c], |lists[c]| - 1)
      requires last.At? ==> last.idx < |h.pages| && h.pages[last.idx].chunk != PAGE_SIZE
      modifies this`lists, this`live, nodes, pools
      ensures Valid()
      ensures p * PAGE_SIZE !in Allocs(h) && Allocs(H()) == Allocs(h)[p * PAGE_SIZE := ChunkSize(c)]
    {
      BlockAdded(wide, h, buddy.arr[..], p, 0);
      ghost var pg := Page(ChunkSize(c), 1, {0}, 0, Null);
      AppendPools(pools[..], lists, h.pages, c, p, pg, last);
      FreshPooled(wide, c, pg);
      LinkPage(p, c, last);
      lists := lists[c := lists[c] + [p]];
      live := live[p := {0}];
      PageAdded(wide, h, H(), p, c, pg, last);
    }

    lemma LastIsPooled(c: nat)
      requires Valid() && c < POOLS
      ensures lists[c] != [] ==>
                lists[c][|lists[c]| - 1] < nodes.Length && nodes[lists[c][|lists[c]| - 1]].chunk != PAGE_SIZE
    {
      if lists[c] != [] {
        PooledPage(c, |lists[c]| - 1);
      }
    }

    /** Fill in the record of idle page p and link it behind the last page of pool c. */
    method LinkPage(p: nat, c: nat, last: Link)
      requires c < POOLS == pools.Length && p < nodes.Length && Idle(nodes[p], {})
      requires last.At? ==> last.idx < nodes.Length && last.idx != p
      modifies nodes, pools
      ensures pools[..] == if last == Null then old(pools[..])[c := At(p)] else old(pools[..])
      ensures nodes[..] == Appended(old(nodes[..]), last, p, Page(ChunkSize(c), 1, {0}, 0, Null))
    {
      if last == Null {
        pools[c] := At(p);
      } else {
        nodes[last.idx] := nodes[last.idx].(next := At(p));
      }
      nodes[p] := nodes[p].(chunk := ChunkSize(c), sum := nodes[p].sum + 1, bits := nodes[p].bits + {0}, cur := 0);
      assert nodes[p] == Page(ChunkSize(c), 1, {0}, 0, Null);
    }

    /** The size loop of malloc: the least exponent whose power of two holds size bytes. */
    static method SizeExp(size: nat) returns (e: nat)
      requires 0 < size <= PAGE_SIZE
      ensures Buddy.Fits(e, size)
    {
      var i := 1;
      e := 0;
      while i < size
        invariant i == Pow2(e) && (e > 0 ==> Pow2(e - 1) < size)
        decreases 2 * size - i
      {
        i, e := i * 2, e + 1;
      }
    }

    /** What the page allocator must be able to supply for malloc(size) to succeed. */
    ghost predicate Supplied(size: nat)
      requires Valid()
      reads this, buddy, buddy.arr, buddy.nodes, buddy.heads, nodes, pools
    {
      if size >= PAGE_SIZE then Buddy.Satisfiable(buddy.n, buddy.arr[..], (size - 1) / PAGE_SIZE + 1)
      else Buddy.Satisfiable(buddy.n, buddy.arr[..], 1)
           || exists c :: 0 <= c < POOLS && PoolFor(size, c) && !PoolFull(c)
    }

    /** malloc: a live allocation of at least size bytes that was not live before, or NULL if there are no pages for a
        request of whole pages. A chunk must be there to be had: that the page allocator failed is not looked at. */
    method Malloc(size: nat) returns (addr: nat, ghost got: nat)
      requires Valid() && (size > 0 && HasPool(size) ==> Supplied(size))
      modifies this, nodes, pools, buddy, buddy.arr, buddy.nodes, buddy.heads
      ensures Valid()
      ensures size == 0 || !old(Supplied(size)) ==> addr == 0 && H() == old(H())
      ensures size > 0 && old(Supplied(size)) ==> got >= size && RoundedUp(size, got) && addr !in old(Allocs(H()))
      ensures size > 0 && old(Supplied(size)) ==> Allocs(H()) == old(Allocs(H()))[addr := got]
    {
      if size == 0 {
        return 0, 0;
      }
      if size >= PAGE_SIZE {
        addr, got := WholePages(size, (size - 1) / PAGE_SIZE + 1);
        return;
      }
      var e := SizeExp(size);
      if e > MAX_POOL_SIZE_EXP {
        NoPoolFor(size, e);
        addr, got := WholePages(size, 1);
      } else {
        var c := if e < MIN_POOL_SIZE_EXP then 0 else e - MIN_POOL_SIZE_EXP;
        PoolIs(size, e, c);
        addr, got := OneChunk(size, c);
      }
    }

    /** Requests served from the pool of the right chunk size. */
    method OneChunk(ghost size: nat, c: nat) returns (addr: nat, ghost got: nat)
      requires Valid() && c < POOLS && PoolFor(size, c) && size <= ChunkSize(c)
      requires Buddy.Satisfiable(buddy.n, buddy.arr[..], 1) || !PoolFull(c)
      modifies this, nodes, pools, buddy, buddy.arr, buddy.nodes, buddy.heads
      ensures Valid() && got >= size && RoundedUp(size, got)
      ensures addr !in old(Allocs(H())) && Allocs(H()) == old(Allocs(H()))[addr := got]
    {
      PoolRounds(size, c);
      got := ChunkSize(c);
      var found, p, i, last := FindPage(c);
      if found {
        addr := TakeFrom(p, c, i);
      } else {
        addr := AddPage(c, last);
      }
    }

    /** Requests served by whole pages. */
    method WholePages(ghost size: nat, num: nat) returns (addr: nat, ghost got: nat)
      requires Valid() && 2048 < size && num == (size - 1) / PAGE_SIZE + 1
      modifies buddy, buddy.arr, buddy.nodes, buddy.heads
      ensures Valid()
      ensures !old(Buddy.Satisfiable(buddy.n, buddy.arr[..], num)) ==> addr == 0 && H() == old(H())
      ensures old(Buddy.Satisfiable(buddy.n, buddy.arr[..], num)) ==>
                && got >= size && RoundedUp(size, got) && addr !in old(Allocs(H()))
                && Allocs(H()) == old(Allocs(H()))[addr := got]
    {
      ghost var k;
      addr, got, k := Block(num);
      if Buddy.Fits(k, num) && got == Pow2(k) * PAGE_SIZE {
        PagesRound(size, k);
      }
    }

    method Block(num: nat) returns (addr: nat, ghost got: nat, ghost k: nat)
      requires Valid() && num > 0
      modifies buddy, buddy.arr, buddy.nodes, buddy.heads
      ensures Valid()
      ensures !old(Buddy.Satisfiable(buddy.n, buddy.arr[..], num)) ==> addr == 0 && H() == old(H())
      ensures old(Buddy.Satisfiable(buddy.n, buddy.arr[..], num)) ==>
                && Buddy.Fits(k, num) && got == Pow2(k) * PAGE_SIZE && addr !in old(Allocs(H()))
                && Allocs(H()) == old(Allocs(H()))[addr := got]
    {
      ghost var h := H();
      var ok;
      ok, addr, k := buddy.Malloc(num);
      got := Pow2(k) * PAGE_SIZE;
      if ok {
        BlockAdded(wide, h, buddy.arr[..], addr / PAGE_SIZE, k);
      }
    }

    /** On a pooled page, the chunk that addr points into is live if its bit is set. */
    ghost predicate NamesOwnChunk(addr: nat)
      requires Valid()
      reads this, buddy, buddy.arr, buddy.nodes, buddy.heads, nodes, pools
    {
      var p, off := addr / PAGE_SIZE, addr % PAGE_SIZE;
      p < nodes.Length && 0 < nodes[p].chunk < PAGE_SIZE && Bit(wide, off / nodes[p].chunk) in nodes[p].bits
      ==> off / nodes[p].chunk in live[p]
    }

    /** With wide masks that is so for every address, and with any masks for the address of a live allocation. */
    lemma OwnChunkNamed(addr: nat)
      requires Valid() && (wide || addr in Allocs(H()))
      ensures NamesOwnChunk(addr)
    {
      var p, off := addr / PAGE_SIZE, addr % PAGE_SIZE;
      if p < nodes.Length && 0 < nodes[p].chunk < PAGE_SIZE && Bit(wide, off / nodes[p].chunk) in nodes[p].bits {
        if wide {
          assert PageOk(wide, H(), p);
          var c :| 0 <= c < POOLS && Pooled(wide, nodes[p], live[p], c);
          WideBitIsLive(nodes[p], live[p], c, off / nodes[p].chunk);
        } else {
          assert IsLive(H(), addr);
        }
      }
    }

    /**
     free. An address of a live allocation removes exactly that allocation. Any other address
     is reported, except that a pointer into the middle of a live chunk frees the chunk.
     */
    method Free(addr: nat) returns (r: Buddy.FreeResult, ghost base: nat)
      requires Valid() && NamesOwnChunk(addr)
      modifies this, nodes, pools, buddy, buddy.arr, buddy.nodes, buddy.heads
      ensures Valid()
      ensures r == Buddy.Freed ==> base in old(Allocs(H())) && base <= addr < base + old(Allocs(H()))[base]
      ensures r == Buddy.Freed ==> Allocs(H()) == old(Allocs(H())) - {base}
      ensures addr in old(Allocs(H())) ==> r == Buddy.Freed && base == addr
      ensures r != Buddy.Freed ==> H() == old(H())
    {
      base := 0;
      if addr >= Pow2(buddy.n) * PAGE_SIZE {
        return Buddy.InvalidPointer, 0;
      }
      if nodes[addr / PAGE_SIZE].chunk == PAGE_SIZE {
        r := FreeBlock(addr);
        base := addr;
      } else {
        r, base := FreeChunk(addr);
      }
    }

    /** free on a page that is in no pool. */
    method FreeBlock(addr: nat) returns (r: Buddy.FreeResult)
      requires Valid() && addr < Pow2(buddy.n) * PAGE_SIZE && nodes[addr / PAGE_SIZE].chunk == PAGE_SIZE
      modifies buddy, buddy.arr, buddy.nodes, buddy.heads
      ensures Valid()
      ensures r == Buddy.Freed <==> addr in old(Allocs(H()))
      ensures r == Buddy.Freed ==> Allocs(H()) == old(Allocs(H())) - {addr} && old(Allocs(H()))[addr] > 0
      ensures r != Buddy.Freed ==> H() == old(H())
    {
      ghost var h := H();
      r := buddy.Free(addr);
      if r == Buddy.Freed {
        BlockRemoved(wide, h, buddy.arr[..], addr / PAGE_SIZE);
      }
    }

    /** free on a page of a pool. */
    method FreeChunk(addr: nat) returns (r: Buddy.FreeResult, ghost base: nat)
      requires Valid() && addr < Pow2(buddy.n) * PAGE_SIZE && nodes[addr / PAGE_SIZE].chunk != PAGE_SIZE
               && NamesOwnChunk(addr)
      modifies this, nodes, pools, buddy, buddy.arr, buddy.nodes, buddy.heads
      ensures Valid()
      ensures r == Buddy.Freed ==> base in old(Allocs(H())) && base <= addr < base + old(Allocs(H()))[base]
      ensures r == Buddy.Freed ==> Allocs(H()) == old(Allocs(H())) - {base}
      ensures addr in old(Allocs(H())) ==> r == Buddy.Freed && base == addr
      ensures r != Buddy.Freed ==> H() == old(H())
    {
      base := 0;
      ghost var h := H();
      var p := addr / PAGE_SIZE;
      assert PageOk(wide, h, p);
      ghost var c :| 0 <= c < POOLS && Pooled(wide, nodes[p], live[p], c);
      var i := addr % PAGE_SIZE / nodes[p].chunk;
      if Bit(wide, i) !in nodes[p].bits {
        BitClearNotLive(wide, nodes[p], live[p], c, i);
        return Buddy.NotInUse, 0;
      }
      base := ChunkAddr(p, i, nodes[p].chunk);
      LiveChunkSize(wide, h, c, p, i, addr);
      ReturnChunk(wide, nodes[p], live[p], c, i);
      if WithoutChunk(wide, nodes[p], i).sum == 0 {
        DropPage(p, c, i);
      } else {
        PutBack(p, c, i);
      }
      return Buddy.Freed, base;
    }

    /** Clear the bit of a chunk whose page stays in its pool. */
    method PutBack(p: nat, ghost c: nat, i: nat)
      requires Valid() && p < nodes.Length && Pooled(wide, nodes[p], live[p], c) && i in live[p] && live[p] != {i}
      modifies this`live, nodes
      ensures Valid()
      ensures var at := ChunkAddr(p, i, ChunkSize(c));
              at in old(Allocs(H())) && Allocs(H()) == old(Allocs(H())) - {at}
    {
      ghost var h := H();
      assert PageOk(wide, h, p);
      var pg := WithoutChunk(wide, nodes[p], i);
      PoolsFrame(pools[..], lists, nodes[..], p, pg);
      ChunkReturned(wide, h, h.(pages := h.pages[p := pg], live := h.live[p := h.live[p] - {i}]), p, c, i);
      nodes[p] := pg;
      live := live[p := live[p] - {i}];
      assert nodes[..] == h.pages[p := pg];
    }

    /** The shift loop of free: the exponent of a chunk size. */
    static method Log2(chunk: nat, ghost k: nat) returns (e: int)
      requires chunk == Pow2(k)
      ensures e == k
    {
      e := -1;
      var size := chunk;
      while size > 0
        invariant -1 <= e <= k && size == if e < k then Pow2(k - 1 - e) else 0
        decreases size
      {
        e, size := e + 1, size / 2;
      }
    }

    /** The walk of free to a page's predecessor in its pool. */
    method FindPrev(p: nat, c: nat) returns (prev: Link, ghost j: nat)
      requires Valid() && c < POOLS && p in lists[c]
      ensures j < |lists[c]| && lists[c][j] == p && prev == LinkTo(lists[c], j - 1)
    {
      ghost var k: nat :| k < |lists[c]| && lists[c][k] == p;
      var cur := pools[c];
      prev, j := Null, 0;
      while cur != At(p)
        invariant j <= k && cur == LinkTo(lists[c], j) && prev == LinkTo(lists[c], j - 1)
        decreases k - j
      {
        PooledPage(c, j);
        prev, cur := cur, nodes[cur.idx].next;
        j := j + 1;
      }
    }

    /** Unlink page p from pool c and reset its record. */
    method UnlinkPage(p: nat, c: nat, prev: Link)
      requires c < POOLS == pools.Length && p < nodes.Length
      requires prev.At? ==> prev.idx < nodes.Length && prev.idx != p
      modifies nodes, pools
      ensures pools[..] == if prev == Null then old(pools[..])[c := old(nodes[p].next)] else old(pools[..])
      ensures nodes[..] == Dropped(old(nodes[..]), prev, p)[p := Page(PAGE_SIZE, 0, {}, old(nodes[p].cur), Null)]
    {
      if prev == Null {
        pools[c] := nodes[p].next;
      } else {
        nodes[prev.idx] := nodes[prev.idx].(next := nodes[p].next);
      }
      nodes[p] := nodes[p].(chunk := PAGE_SIZE, sum := 0, next := Null, bits := {});
    }

    /** The last chunk of page p goes: the page leaves its pool and returns to the page allocator. */
    method DropPage(p: nat, ghost c: nat, ghost i: nat)
      requires Valid() && p < nodes.Length && Pooled(wide, nodes[p], live[p], c) && live[p] == {i}
      modifies this, nodes, pools, buddy, buddy.arr, buddy.nodes, buddy.heads
      ensures Valid()
      ensures var at := ChunkAddr(p, i, ChunkSize(c));
              at in old(Allocs(H())) && Allocs(H()) == old(Allocs(H())) - {at}
    {
      ghost var h := H();
      assert PageOk(wide, h, p);
      var e := Log2(nodes[p].chunk, c + MIN_POOL_SIZE_EXP);
      ghost var prev, pg := TakeOut(p, e - MIN_POOL_SIZE_EXP);
      ReturnPage(p, c, i, prev, pg, h);
    }

    /** Find page p in its pool and unlink it. */
    method TakeOut(p: nat, c: nat) returns (ghost before: Link, ghost pg: Page)
      requires Valid() && p < nodes.Length && c < POOLS && nodes[p].chunk == ChunkSize(c)
      modifies this`lists, this`live, nodes, pools
      ensures Idle(pg, {}) && live == old(live)[p := {}]
      ensures before.At? ==> before.idx < |old(nodes[..])| && old(nodes[..])[before.idx].chunk != PAGE_SIZE
      ensures nodes[..] == Dropped(old(nodes[..]), before, p)[p := pg] && Pools(pools[..], lists, nodes[..])
    {
      var prev;
      ghost var j;
      assert p in lists[c];
      prev, j := FindPrev(p, c);
      if j > 0 {
        PooledPage(c, j - 1);
      }
      before, pg := prev, Page(PAGE_SIZE, 0, {}, nodes[p].cur, Null);
      DropPools(pools[..], lists, nodes[..], c, j, pg, prev);
      UnlinkPage(p, c, prev);
      lists := lists[c := Remove(lists[c], j)];
      live := live[p := {}];
    }

    /** Give the page p, already out of its pool, back to the page allocator. */
    method ReturnPage(p: nat, ghost c: nat, ghost i: nat, ghost prev: Link, ghost pg: Page, ghost h: Heap)
      requires pools != buddy.heads && buddy.Valid() && pools.Length == POOLS
      requires h.n == buddy.n && h.a == buddy.arr[..] && HeapOk(wide, h) && p < |h.a|
      requires Pooled(wide, h.pages[p], h.live[p], c) && h.live[p] == {i} && Idle(pg, {}) && h.a[p] == NEG_ZERO
      requires prev.At? ==> prev.idx < |h.pages| && h.pages[prev.idx].chunk != PAGE_SIZE
      requires nodes[..] == Dropped(h.pages, prev, p)[p := pg] && live == h.live[p := {}]
      requires Pools(pools[..], lists, nodes[..])
      modifies buddy, buddy.arr, buddy.nodes, buddy.heads
      ensures Valid()
      ensures var at := ChunkAddr(p, i, ChunkSize(c)); at in Allocs(h) && Allocs(H()) == Allocs(h) - {at}
    {
      var r := buddy.Free(p * PAGE_SIZE);
      PageReturned(wide, h, H(), p, c, i, prev, pg);
    }
  }
}
