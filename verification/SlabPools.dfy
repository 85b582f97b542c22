/**
 The singly linked page lists of the pools, and the effect of each allocator step on
 the map of live allocations.
 */
module SlabPools {
  import opened Common
  import opened Dyadic
  import opened BuddyTags
  import opened Buddy
  import opened SlabHeap

  // ----- the linked lists

  ghost predicate NextOk(l: seq<nat>, pages: seq<Page>, i: nat)
    requires i < |l|
  {
    l[i] < |pages| && pages[l[i]].next == LinkTo(l, i + 1)
  }

  ghost predicate Pool(l: seq<nat>, head: Link, pages: seq<Page>) {
    && head == LinkTo(l, 0)
    && (forall i {:trigger l[i]} :: 0 <= i < |l| ==> l[i] < |pages|)
    && (forall i {:trigger NextOk(l, pages, i)} :: 0 <= i < |l| ==> NextOk(l, pages, i))
    && Distinct(l)
  }

  /** Pool c lists exactly the pages cut into its chunks. */
  ghost predicate Pools(hs: seq<Link>, ls: seq<seq<nat>>, pages: seq<Page>) {
    && |hs| == |ls| == POOLS
    && (forall c :: 0 <= c < POOLS ==> Pool(ls[c], hs[c], pages))
    && (forall c: int, p: nat {:trigger p in ls[c]} :: 0 <= c < POOLS ==>
          (p in ls[c] <==> p < |pages| && pages[p].chunk == ChunkSize(c)))
  }

  lemma PoolFrame(l: seq<nat>, head: Link, pages: seq<Page>, pages': seq<Page>)
    requires Pool(l, head, pages) && |pages'| == |pages|
    requires forall i {:trigger l[i]} :: 0 <= i < |l| ==> pages'[l[i]].next == pages[l[i]].next
    ensures Pool(l, head, pages')
  {
    forall i | 0 <= i < |l| ensures NextOk(l, pages', i) {
      assert NextOk(l, pages, i) && pages'[l[i]].next == pages[l[i]].next;
    }
  }

  /** Updates that keep every page's chunk size and link keep the pools. */
  lemma PoolsFrame(hs: seq<Link>, ls: seq<seq<nat>>, pages: seq<Page>, p: nat, pg: Page)
    requires Pools(hs, ls, pages) && p < |pages| && pg.chunk == pages[p].chunk && pg.next == pages[p].next
    ensures Pools(hs, ls, pages[p := pg])
  {
    var pages' := pages[p := pg];
    forall c | 0 <= c < POOLS ensures Pool(ls[c], hs[c], pages') {
      PoolFrame(ls[c], hs[c], pages, pages');
    }
  }

  /** The page records after page p, with record pg, joins the end of list l. */
  function Appended(pages: seq<Page>, last: Link, p: nat, pg: Page): (r: seq<Page>)
    requires p < |pages| && (last.At? ==> last.idx < |pages|)
  {
    var b := if last.At? then pages[last.idx := pages[last.idx].(next := At(p))] else pages;
    b[p := pg]
  }

  lemma AppendPool(l: seq<nat>, head: Link, pages: seq<Page>, p: nat, pg: Page)
    requires Pool(l, head, pages) && p !in l && p < |pages| && pg.next == Null
    ensures LinkTo(l, |l| - 1).At? ==> l[|l| - 1] < |pages|
    ensures Pool(l + [p], if l == [] then At(p) else head, Appended(pages, LinkTo(l, |l| - 1), p, pg))
  {
    var m := l + [p];
    var pages' := Appended(pages, LinkTo(l, |l| - 1), p, pg);
    forall i | 0 <= i < |m| ensures NextOk(m, pages', i) {
      if i < |l| {
        assert NextOk(l, pages, i) && m[i] == l[i] && l[i] in l;
        assert i < |l| - 1 ==> l[i] != l[|l| - 1];
      }
    }
  }

  lemma ChunkSizesDiffer(c: nat, d: nat)
    requires c < POOLS && d < POOLS && ChunkSize(c) == ChunkSize(d)
    ensures c == d
  {
    SameSizeSameOrder(c + MIN_POOL_SIZE_EXP, d + MIN_POOL_SIZE_EXP);
  }

  /** The pages of another pool are not in this one. */
  lemma OtherPool(hs: seq<Link>, ls: seq<seq<nat>>, pages: seq<Page>, c: nat, d: nat, i: nat)
    requires Pools(hs, ls, pages) && c < POOLS && d < POOLS && c != d && i < |ls[d]|
    ensures ls[d][i] < |pages| && ls[d][i] !in ls[c] && pages[ls[d][i]].chunk == ChunkSize(d)
  {
    assert ls[d][i] in ls[d];
    if ChunkSize(c) == ChunkSize(d) {
      ChunkSizesDiffer(c, d);
    }
  }

  lemma OtherPoolsKept(hs: seq<Link>, ls: seq<seq<nat>>, pages: seq<Page>, pages': seq<Page>, c: nat, p: nat)
    requires Pools(hs, ls, pages) && c < POOLS && |pages'| == |pages| && p < |pages|
    requires pages[p].chunk == PAGE_SIZE || p in ls[c]
    requires forall q :: 0 <= q < |pages| && q != p && q !in ls[c] ==> pages'[q] == pages[q]
    ensures forall d :: 0 <= d < POOLS && d != c ==> Pool(ls[d], hs[d], pages')
  {
    forall d | 0 <= d < POOLS && d != c ensures Pool(ls[d], hs[d], pages') {
      forall i | 0 <= i < |ls[d]| ensures pages'[ls[d][i]].next == pages[ls[d][i]].next {
        OtherPool(hs, ls, pages, c, d, i);
      }
      PoolFrame(ls[d], hs[d], pages, pages');
    }
  }

  lemma PoolsFromParts(hs: seq<Link>, ls: seq<seq<nat>>, pages: seq<Page>, c: nat)
    requires |hs| == |ls| == POOLS && c < POOLS && Pool(ls[c], hs[c], pages)
    requires forall d :: 0 <= d < POOLS && d != c ==> Pool(ls[d], hs[d], pages)
    requires forall d: int, q: nat {:trigger q in ls[d]} :: 0 <= d < POOLS ==>
               (q in ls[d] <==> q < |pages| && pages[q].chunk == ChunkSize(d))
    ensures Pools(hs, ls, pages)
  {
  }

  lemma AppendPools(hs: seq<Link>, ls: seq<seq<nat>>, pages: seq<Page>, c: nat, p: nat, pg: Page, last: Link)
    requires Pools(hs, ls, pages) && c < POOLS && p < |pages|
    requires pages[p].chunk == PAGE_SIZE && pg.chunk == ChunkSize(c) && pg.next == Null
             && last == LinkTo(ls[c], |ls[c]| - 1)
    ensures last.At? ==> last.idx < |pages|
    ensures Pools(if ls[c] == [] then hs[c := At(p)] else hs, ls[c := ls[c] + [p]], Appended(pages, last, p, pg))
  {
    var l := ls[c];
    assert p !in l;
    AppendPool(l, hs[c], pages, p, pg);
    assert last.At? ==> last.idx in l;
    var pages' := Appended(pages, last, p, pg);
    OtherPoolsKept(hs, ls, pages, pages', c, p);
    AppendMembers(hs, ls, pages, pages', c, p);
    PoolsFromParts(if l == [] then hs[c := At(p)] else hs, ls[c := l + [p]], pages', c);
  }

  lemma AppendMembers(hs: seq<Link>, ls: seq<seq<nat>>, pages: seq<Page>, pages': seq<Page>, c: nat, p: nat)
    requires Pools(hs, ls, pages) && c < POOLS && p < |pages| == |pages'|
    requires pages[p].chunk == PAGE_SIZE && pages'[p].chunk == ChunkSize(c)
    requires forall q :: 0 <= q < |pages| && q != p ==> pages'[q].chunk == pages[q].chunk
    ensures forall d: int, q: nat {:trigger q in ls[c := ls[c] + [p]][d]} :: 0 <= d < POOLS ==>
              (q in ls[c := ls[c] + [p]][d] <==> q < |pages'| && pages'[q].chunk == ChunkSize(d))
  {
    var ls' := ls[c := ls[c] + [p]];
    forall d: int, q: nat | 0 <= d < POOLS ensures q in ls'[d] <==> q < |pages'| && pages'[q].chunk == ChunkSize(d) {
      assert q in ls[d] <==> q < |pages| && pages[q].chunk == ChunkSize(d);
      if ChunkSize(c) == ChunkSize(d) {
        ChunkSizesDiffer(c, d);
      }
    }
  }

  /** The page records after the page behind prev (or the head) leaves its list. */
  function Dropped(pages: seq<Page>, prev: Link, p: nat): (r: seq<Page>)
    requires p < |pages| && (prev.At? ==> prev.idx < |pages|)
  {
    if prev.At? then pages[prev.idx := pages[prev.idx].(next := pages[p].next)] else pages
  }

  lemma DropMember(l: seq<nat>, head: Link, pages: seq<Page>, i: nat, pg: Page, j: nat)
    requires Pool(l, head, pages) && i < |l| && j < |l| - 1 && (i > 0 ==> l[i - 1] < |pages|)
    ensures NextOk(Remove(l, i), Dropped(pages, LinkTo(l, i - 1), l[i])[l[i] := pg], j)
  {
    var k := Was(i, j);
    RemoveLinks(l, i, j);
    assert NextOk(l, pages, k) && NextOk(l, pages, i);
    assert l[k] != l[i];
    assert i > 0 && k != i - 1 ==> l[k] != l[i - 1];
  }

  lemma DropPool(l: seq<nat>, head: Link, pages: seq<Page>, i: nat, pg: Page)
    requires Pool(l, head, pages) && i < |l|
    ensures i > 0 ==> l[i - 1] < |pages|
    ensures Pool(Remove(l, i), if i == 0 then pages[l[i]].next else head,
                 Dropped(pages, LinkTo(l, i - 1), l[i])[l[i] := pg])
  {
    assert i > 0 ==> l[i - 1] < |pages|;
    var m, pages' := Remove(l, i), Dropped(pages, LinkTo(l, i - 1), l[i])[l[i] := pg];
    forall j | 0 <= j < |m| ensures NextOk(m, pages', j) {
      DropMember(l, head, pages, i, pg, j);
    }
    forall j | 0 <= j < |m| ensures m[j] < |pages'| {
      assert NextOk(m, pages', j);
    }
    RemoveDistinct(l, i);
    assert NextOk(l, pages, i);
  }

  lemma DropPools(hs: seq<Link>, ls: seq<seq<nat>>, pages: seq<Page>, c: nat, i: nat, pg: Page, prev: Link)
    requires Pools(hs, ls, pages) && c < POOLS && i < |ls[c]| && pg.chunk == PAGE_SIZE && prev == LinkTo(ls[c], i - 1)
    ensures ls[c][i] < |pages| && (prev.At? ==> prev.idx < |pages|)
    ensures Pools(if i == 0 then hs[c := pages[ls[c][i]].next] else hs, ls[c := Remove(ls[c], i)],
                  Dropped(pages, prev, ls[c][i])[ls[c][i] := pg])
  {
    var l, p := ls[c], ls[c][i];
    assert p in l;
    DropPool(l, hs[c], pages, i, pg);
    assert prev.At? ==> prev.idx in l;
    var pages' := Dropped(pages, prev, p)[p := pg];
    OtherPoolsKept(hs, ls, pages, pages', c, p);
    DropMembers(hs, ls, pages, pages', c, i);
    PoolsFromParts(if i == 0 then hs[c := pages[p].next] else hs, ls[c := Remove(l, i)], pages', c);
  }

  lemma DropMembers(hs: seq<Link>, ls: seq<seq<nat>>, pages: seq<Page>, pages': seq<Page>, c: nat, i: nat)
    requires Pools(hs, ls, pages) && c < POOLS && i < |ls[c]| && |pages| == |pages'|
    requires forall q :: 0 <= q < |pages| && q != ls[c][i] ==> pages'[q].chunk == pages[q].chunk
    requires ls[c][i] < |pages| && pages'[ls[c][i]].chunk == PAGE_SIZE
    ensures forall d: int, q: nat {:trigger q in ls[c := Remove(ls[c], i)][d]} :: 0 <= d < POOLS ==>
              (q in ls[c := Remove(ls[c], i)][d] <==> q < |pages'| && pages'[q].chunk == ChunkSize(d))
  {
    var l, ls' := ls[c], ls[c := Remove(ls[c], i)];
    assert l[i] in l && Pool(l, hs[c], pages);
    RemoveDistinct(l, i);
    forall d: int, q: nat {:trigger q in ls'[d]} | 0 <= d < POOLS
      ensures q in ls'[d] <==> q < |pages'| && pages'[q].chunk == ChunkSize(d) {
      assert q in ls[d] <==> q < |pages| && pages[q].chunk == ChunkSize(d);
      if ChunkSize(c) == ChunkSize(d) {
        ChunkSizesDiffer(c, d);
      }
    }
  }

  // ----- the map of live allocations

  /** Pages other than p are recorded as before, up to their list links. */
  ghost predicate SameElsewhere(h: Heap, h': Heap, p: nat) {
    && h'.n == h.n && |h.a| == |h.pages| == |h.live| == |h'.a| == |h'.pages| == |h'.live| && p < |h.a|
    && (forall q :: 0 <= q < |h.a| && q != p ==> h'.live[q] == h.live[q])
    && (forall q :: 0 <= q < |h.a| && q != p ==>
          h'.pages[q] == h.pages[q].(next := h'.pages[q].next)
            && (h.pages[q].chunk == PAGE_SIZE ==> h'.pages[q] == h.pages[q]))
    && (forall q :: 0 <= q < |h.a| && q != p && (h.a[q] < 0 || h'.a[q] < 0) ==> h'.a[q] == h.a[q])
  }

  /** An address on another page keeps its status and size. */
  lemma ElsewhereKept(h: Heap, h': Heap, p: nat, addr: nat)
    requires SameElsewhere(h, h', p) && addr / PAGE_SIZE != p
    ensures IsLive(h', addr) <==> IsLive(h, addr)
    ensures IsLive(h, addr) ==> SizeAt(h', addr) == SizeAt(h, addr)
  {
  }

  lemma HeapOkFromPage(wide: bool, h: Heap, h': Heap, p: nat)
    requires HeapOk(wide, h) && SameElsewhere(h, h', p) && PageOk(wide, h', p)
    requires Tiled(h'.n, h'.a) && Coalesced(h'.n, h'.a)
    ensures HeapOk(wide, h')
  {
    forall q | 0 <= q < |h'.a| ensures PageOk(wide, h', q) {
      assert PageOk(wide, h, q);
      if q != p && !Idle(h.pages[q], h.live[q]) {
        var c :| 0 <= c < POOLS && Pooled(wide, h.pages[q], h.live[q], c);
        assert Pooled(wide, h'.pages[q], h'.live[q], c);
      }
    }
  }

  /** Handing out the block (p, k) adds it to the map. */
  lemma BlockAdded(wide: bool, h: Heap, b: seq<int>, p: nat, k: nat)
    requires HeapOk(wide, h) && Allocated(h.n, h.a, b, p, k) && Coalesced(h.n, b) && k <= h.n
    ensures HeapOk(wide, h.(a := b)) && Idle(h.pages[p], h.live[p])
    ensures p * PAGE_SIZE !in Allocs(h) && Allocs(h.(a := b)) == Allocs(h)[p * PAGE_SIZE := Pow2(k) * PAGE_SIZE]
  {
    var h' := h.(a := b);
    assert PageOk(wide, h, p);
    HeapOkFromPage(wide, h, h', p);
    forall addr: nat
      ensures IsLive(h', addr) <==> IsLive(h, addr) || addr == p * PAGE_SIZE
      ensures IsLive(h, addr) ==> SizeAt(h', addr) == SizeAt(h, addr)
    {
      if addr / PAGE_SIZE != p {
        ElsewhereKept(h, h', p, addr);
      }
    }
    assert IsLive(h', p * PAGE_SIZE);
  }

  /** Returning a whole block removes it from the map. */
  lemma BlockRemoved(wide: bool, h: Heap, b: seq<int>, p: nat)
    requires HeapOk(wide, h) && Released(h.n, h.a, b, p) && Coalesced(h.n, b) && h.pages[p].chunk == PAGE_SIZE
    ensures HeapOk(wide, h.(a := b))
    ensures p * PAGE_SIZE in Allocs(h) && Allocs(h.(a := b)) == Allocs(h) - {p * PAGE_SIZE}
  {
    var h' := h.(a := b);
    assert PageOk(wide, h, p);
    HeapOkFromPage(wide, h, h', p);
    forall addr: nat
      ensures IsLive(h', addr) <==> IsLive(h, addr) && addr != p * PAGE_SIZE
      ensures IsLive(h', addr) ==> SizeAt(h', addr) == SizeAt(h, addr)
    {
      if addr / PAGE_SIZE != p {
        ElsewhereKept(h, h', p, addr);
      }
    }
    assert IsLive(h, p * PAGE_SIZE);
  }

  /** The address of chunk i of page p, and back. */
  lemma ChunkAddress(c: nat, p: nat, i: nat)
    requires c < POOLS && i < Chunks(c)
    ensures var addr := ChunkAddr(p, i, ChunkSize(c));
            addr / PAGE_SIZE == p && addr % PAGE_SIZE == i * ChunkSize(c) &&
            addr % PAGE_SIZE / ChunkSize(c) == i && addr % PAGE_SIZE % ChunkSize(c) == 0
  {
    ProductGrows(ChunkSize(c), i, Chunks(c));
    DivModUnique(p * PAGE_SIZE + i * ChunkSize(c), PAGE_SIZE, p, i * ChunkSize(c));
    DivModUnique(i * ChunkSize(c), ChunkSize(c), i, 0);
  }

  lemma ChunkOfAddress(c: nat, p: nat, i: nat, addr: nat)
    requires c < POOLS && i < Chunks(c) && addr / PAGE_SIZE == p
    ensures addr % PAGE_SIZE % ChunkSize(c) == 0 && addr % PAGE_SIZE / ChunkSize(c) == i <==>
            addr == ChunkAddr(p, i, ChunkSize(c))
  {
    ChunkAddress(c, p, i);
    var off := addr % PAGE_SIZE;
    assert addr == p * PAGE_SIZE + off;
    if off % ChunkSize(c) == 0 && off / ChunkSize(c) == i {
      ExactQuotient(off, ChunkSize(c));
    }
  }

  /** On a page that stays in its pool, adding or removing chunk i changes the map at its address only. */
  lemma ChunkToggled(wide: bool, h: Heap, h': Heap, p: nat, c: nat, i: nat)
    requires SameElsewhere(h, h', p) && c < POOLS && i < Chunks(c)
    requires h.pages[p].chunk == h'.pages[p].chunk == ChunkSize(c)
    requires h'.live[p] == h.live[p] + {i} && i !in h.live[p]
    ensures var addr := ChunkAddr(p, i, ChunkSize(c));
            addr !in Allocs(h) && Allocs(h') == Allocs(h)[addr := ChunkSize(c)] && Allocs(h) == Allocs(h') - {addr}
  {
    var at := ChunkAddr(p, i, ChunkSize(c));
    ChunkAddress(c, p, i);
    forall addr: nat
      ensures IsLive(h', addr) <==> IsLive(h, addr) || addr == at
      ensures IsLive(h, addr) ==> SizeAt(h', addr) == SizeAt(h, addr)
    {
      if addr / PAGE_SIZE != p {
        ElsewhereKept(h, h', p, addr);
      } else {
        ChunkOfAddress(c, p, i, addr);
      }
    }
    AllocsExtended(h, h', at);
  }

  /** A page that enters a pool with its first chunk, or leaves it with its last. */
  lemma FirstChunk(wide: bool, h: Heap, h': Heap, p: nat, c: nat, i: nat)
    requires SameElsewhere(h, h', p) && c < POOLS && i < Chunks(c)
    requires Idle(h.pages[p], h.live[p]) && h.a[p] >= 0
    requires h'.pages[p].chunk == ChunkSize(c) && h'.live[p] == {i}
    ensures var addr := ChunkAddr(p, i, ChunkSize(c));
            addr !in Allocs(h) && Allocs(h') == Allocs(h)[addr := ChunkSize(c)] && Allocs(h) == Allocs(h') - {addr}
  {
    var at := ChunkAddr(p, i, ChunkSize(c));
    ChunkAddress(c, p, i);
    forall addr: nat
      ensures IsLive(h', addr) <==> IsLive(h, addr) || addr == at
      ensures IsLive(h, addr) ==> SizeAt(h', addr) == SizeAt(h, addr)
    {
      if addr / PAGE_SIZE != p {
        ElsewhereKept(h, h', p, addr);
      } else {
        ChunkOfAddress(c, p, i, addr);
      }
    }
    AllocsExtended(h, h', at);
  }

  lemma AllocsExtended(h: Heap, h': Heap, at: nat)
    requires |h.pages| == |h.live| == |h.a| == |h'.a| == |h'.pages| == |h'.live|
    requires !IsLive(h, at) && IsLive(h', at)
    requires forall addr: nat {:trigger IsLive(h, addr)} {:trigger IsLive(h', addr)} ::
               (IsLive(h', addr) <==> IsLive(h, addr) || addr == at) &&
               (IsLive(h, addr) ==> SizeAt(h', addr) == SizeAt(h, addr))
    ensures at !in Allocs(h) && Allocs(h') == Allocs(h)[at := SizeAt(h', at)] && Allocs(h) == Allocs(h') - {at}
  {
    assert at < |h'.a| * PAGE_SIZE;
  }

  /** Taking a free chunk of a pooled page, as a step of the whole heap. */
  lemma ChunkTaken(wide: bool, h: Heap, h': Heap, p: nat, c: nat, i: nat)
    requires HeapOk(wide, h) && p < |h.a| && Pooled(wide, h.pages[p], h.live[p], c) && h.a[p] == NEG_ZERO
    requires i < Chunks(c) && Bit(wide, i) !in h.pages[p].bits
    requires h' == h.(pages := h.pages[p := WithChunk(wide, h.pages[p], i)], live := h.live[p := h.live[p] + {i}])
    ensures HeapOk(wide, h')
    ensures var addr := ChunkAddr(p, i, ChunkSize(c));
            addr !in Allocs(h) && Allocs(h') == Allocs(h)[addr := ChunkSize(c)]
  {
    TakeChunk(wide, h.pages[p], h.live[p], c, i);
    assert SameElsewhere(h, h', p);
    ChunkToggled(wide, h, h', p, c, i);
    HeapOkFromPage(wide, h, h', p);
  }

  /** A new page joining pool c with its first chunk live, as a step of the whole heap. */
  lemma PageAdded(wide: bool, h: Heap, h': Heap, p: nat, c: nat, pg: Page, last: Link)
    requires HeapOk(wide, h) && Allocated(h.n, h.a, h'.a, p, 0) && Coalesced(h.n, h'.a)
    requires h'.n == h.n && c < POOLS && Pooled(wide, pg, {0}, c)
    requires last.At? ==> last.idx < |h.pages| && h.pages[last.idx].chunk != PAGE_SIZE
    requires h'.pages == Appended(h.pages, last, p, pg) && h'.live == h.live[p := {0}]
    ensures HeapOk(wide, h')
    ensures p * PAGE_SIZE !in Allocs(h) && Allocs(h') == Allocs(h)[p * PAGE_SIZE := ChunkSize(c)]
  {
    PageAddedElsewhere(wide, h, h', p, pg, last);
    FirstChunk(wide, h, h', p, c, 0);
    HeapOkFromPage(wide, h, h', p);
  }

  lemma PageAddedElsewhere(wide: bool, h: Heap, h': Heap, p: nat, pg: Page, last: Link)
    requires HeapOk(wide, h) && Allocated(h.n, h.a, h'.a, p, 0) && Coalesced(h.n, h'.a) && h'.n == h.n
    requires last.At? ==> last.idx < |h.pages| && h.pages[last.idx].chunk != PAGE_SIZE
    requires h'.pages == Appended(h.pages, last, p, pg) && h'.live == h.live[p := {0}]
    ensures SameElsewhere(h, h', p) && Idle(h.pages[p], h.live[p])
  {
    assert PageOk(wide, h, p);
  }

  /** Returning a chunk that is not the last one of its page. */
  lemma ChunkReturned(wide: bool, h: Heap, h': Heap, p: nat, c: nat, i: nat)
    requires HeapOk(wide, h) && p < |h.a| && Pooled(wide, h.pages[p], h.live[p], c) && h.a[p] == NEG_ZERO
    requires i in h.live[p] && h.live[p] != {i}
    requires h' == h.(pages := h.pages[p := WithoutChunk(wide, h.pages[p], i)], live := h.live[p := h.live[p] - {i}])
    ensures HeapOk(wide, h')
    ensures var addr := ChunkAddr(p, i, ChunkSize(c)); addr in Allocs(h) && Allocs(h') == Allocs(h) - {addr}
  {
    ReturnChunk(wide, h.pages[p], h.live[p], c, i);
    assert SameElsewhere(h', h, p) && SameElsewhere(h, h', p);
    assert h.live[p] == h'.live[p] + {i};
    ChunkToggled(wide, h', h, p, c, i);
    HeapOkFromPage(wide, h, h', p);
  }

  /** Returning the last chunk of a page returns the page. */
  lemma PageReturned(wide: bool, h: Heap, h': Heap, p: nat, c: nat, i: nat, prev: Link, pg: Page)
    requires HeapOk(wide, h) && p < |h.a| && Pooled(wide, h.pages[p], h.live[p], c)
    requires h.live[p] == {i} && Idle(pg, {})
    requires prev.At? ==> prev.idx < |h.pages| && h.pages[prev.idx].chunk != PAGE_SIZE
    requires h'.n == h.n && Released(h.n, h.a, h'.a, p) && Coalesced(h.n, h'.a)
    requires h'.pages == Dropped(h.pages, prev, p)[p := pg] && h'.live == h.live[p := {}]
    ensures HeapOk(wide, h')
    ensures var addr := ChunkAddr(p, i, ChunkSize(c)); addr in Allocs(h) && Allocs(h') == Allocs(h) - {addr}
  {
    assert SameElsewhere(h', h, p) && SameElsewhere(h, h', p);
    assert i in h.live[p];
    FirstChunk(wide, h', h, p, c, i);
    HeapOkFromPage(wide, h, h', p);
  }

  // ----- the live allocations determine the page allocator

  /** Two heaps with the same live allocations have the same page blocks. */
  lemma AllocsDeterminePages(wide: bool, h: Heap, h': Heap)
    requires HeapOk(wide, h) && HeapOk(wide, h') && h.n == h'.n && Allocs(h) == Allocs(h')
    ensures h.a == h'.a
  {
    forall p | 0 <= p < |h.a| && h.a[p] < 0 ensures h'.a[p] == h.a[p] {
      UsedPageIsKnown(wide, h, h', p);
    }
    forall p | 0 <= p < |h.a| && h'.a[p] < 0 ensures h'.a[p] == h.a[p] {
      UsedPageIsKnown(wide, h', h, p);
    }
    CanonicalTags(h.n, h.a, h'.a);
  }

  lemma UsedPageIsKnown(wide: bool, h: Heap, h': Heap, p: nat)
    requires HeapOk(wide, h) && HeapOk(wide, h') && h.n == h'.n && Allocs(h) == Allocs(h')
    requires p < |h.a| && h.a[p] < 0
    ensures h'.a[p] == h.a[p]
  {
    assert PageOk(wide, h, p) && PageOk(wide, h', p);
    if Idle(h.pages[p], h.live[p]) {
      assert IsLive(h, p * PAGE_SIZE) && p * PAGE_SIZE in Allocs(h);
      assert p * PAGE_SIZE in Allocs(h') && IsLive(h', p * PAGE_SIZE);
      assert SizeAt(h', p * PAGE_SIZE) == SizeAt(h, p * PAGE_SIZE) >= PAGE_SIZE;
      assert h'.pages[p].chunk == PAGE_SIZE;
      assert BlockAt(h.n, h.a, p) && BlockAt(h.n, h'.a, p);
      SameSizeSameOrder(Order(h.a[p]), Order(h'.a[p]));
      assert h.a[p] == UsedTag(Order(h.a[p]));
    } else {
      var c :| 0 <= c < POOLS && Pooled(wide, h.pages[p], h.live[p], c);
      var i :| i in h.live[p];
      var addr := ChunkAddr(p, i, ChunkSize(c));
      ChunkAddress(c, p, i);
      assert IsLive(h, addr) && addr in Allocs(h);
      assert addr in Allocs(h') && IsLive(h', addr);
      assert SizeAt(h', addr) == ChunkSize(c);
      assert h'.pages[p].chunk != PAGE_SIZE;
    }
  }

  lemma SameSizeSameOrder(j: nat, k: nat)
    requires Pow2(j) == Pow2(k)
    ensures j == k
  {
    if j < k {
      Pow2Monotone(j, k);
    } else if k < j {
      Pow2Monotone(k, j);
    }
  }
}
