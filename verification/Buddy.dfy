/**
 The buddy page allocator: a tag per page, one doubly linked free list per block order,
 and the operations that cut, merge, clear and reserve blocks in place.

 Interrupt masking is not modelled: each operation is one step.
 */
module Buddy {
  import opened Common
  import opened Dyadic
  import opened BuddyTags
  import opened FreeLists

  /** The least k such that 2^k pages hold the request. */
  ghost predicate Fits(k: nat, size: nat) {
    size <= Pow2(k) && (k > 0 ==> Pow2(k - 1) < size)
  }

  /** A free block of at least size pages starts at p. */
  ghost predicate LargeFree(n: nat, a: seq<int>, p: nat, size: nat) {
    p < |a| && 0 <= a[p] <= n && size <= Pow2(a[p])
  }

  /** A free block that is large enough starts at p, and none that is large enough is smaller. */
  ghost predicate BestFit(n: nat, a: seq<int>, p: nat, size: nat) {
    && LargeFree(n, a, p, size)
    && forall q: nat {:trigger LargeFree(n, a, q, size)} :: LargeFree(n, a, q, size) ==> a[p] <= a[q]
  }

  /** b is a with one more used block (p, k), whose pages were all free. */
  ghost predicate Allocated(n: nat, a: seq<int>, b: seq<int>, p: nat, k: nat) {
    && Tiled(n, a) && Tiled(n, b) && p + Pow2(k) <= |a|
    && a[p] >= 0 && b[p] == UsedTag(k)
    && FreeRun(n, a, p, k)
    && (forall q :: 0 <= q < |a| && q != p && (a[q] < 0 || b[q] < 0) ==> a[q] == b[q])
    && (forall q {:trigger Used(n, b, q)} :: 0 <= q < |a| ==> (Used(n, b, q) <==> Used(n, a, q) || InBlock(p, k, q)))
  }

  /** b is a without its used block at p. */
  ghost predicate Released(n: nat, a: seq<int>, b: seq<int>, p: nat) {
    && Tiled(n, a) && Tiled(n, b) && p < |a|
    && a[p] < 0 && b[p] >= 0
    && (forall q :: 0 <= q < |a| && q != p && (a[q] < 0 || b[q] < 0) ==> a[q] == b[q])
    && (forall q {:trigger Used(n, b, q)} :: 0 <= q < |a| ==>
      (Used(n, b, q) <==> Used(n, a, q) && !InBlock(p, Order(a[p]), q)))
  }

  /** b uses exactly the pages that a uses and those of the block (p, k). */
  ghost predicate Reserved(n: nat, a: seq<int>, b: seq<int>, p: nat, k: nat) {
    && Tiled(n, a) && Tiled(n, b)
    && (forall q {:trigger Used(n, b, q)} :: 0 <= q < |a| ==> (Used(n, b, q) <==> Used(n, a, q) || InBlock(p, k, q)))
  }

  /** Some aligned run of free pages is as long as the block the request needs. */
  ghost predicate Satisfiable(n: nat, a: seq<int>, size: nat)
    requires Tiled(n, a)
  {
    exists p: nat, k: nat :: Fits(k, size) && Aligned(p, k) && FreeRun(n, a, p, k)
  }

  /** With every list that could serve the request empty, no aligned run is free. */
  lemma NothingFits(n: nat, a: seq<int>, size: nat)
    requires Tiled(n, a) && Coalesced(n, a)
    requires forall q, j: nat :: 0 <= q < |a| && j <= n && a[q] == j ==> Pow2(j) < size
    ensures !Satisfiable(n, a, size)
  {
    forall p: nat, k: nat | Fits(k, size) && Aligned(p, k) && FreeRun(n, a, p, k) ensures false {
      if k > n {
        Pow2Monotone(n, k);
      } else {
        FreeRunInOneBlock(n, a, p, k);
        Cover(n, a, p);
        Pow2Monotone(k, a[HeadOf(a, p)]);
      }
    }
  }

  /** A free block of sufficient order contains an aligned free run of the needed order. */
  lemma LargeBlockFits(n: nat, a: seq<int>, p: nat, size: nat)
    requires Tiled(n, a) && p < |a| && 0 <= a[p] <= n && 0 < size <= Pow2(a[p])
    ensures Satisfiable(n, a, size)
  {
    var k := LeastOrder(size, a[p]);
    assert BlockAt(n, a, p);
    BlockPagesUse(n, a, p);
    AlignedCoarse(p, k, a[p]);
    Pow2Monotone(k, a[p]);
    assert FreeRun(n, a, p, k);
  }

  lemma {:induction false} LeastOrder(size: nat, o: nat) returns (k: nat)
    requires 0 < size <= Pow2(o)
    ensures k <= o && Fits(k, size)
  {
    k := o;
    if o > 0 && size <= Pow2(o - 1) {
      k := LeastOrder(size, o - 1);
    }
  }

  lemma JoinedState(n: nat, a: seq<int>, b: seq<int>, p: nat, k: nat, x: nat)
    requires Tiled(n, a) && k < n && Aligned(p, k + 1) && p + Pow2(k) < |a| && a[p] == a[p + Pow2(k)] == k
    requires CoalescedBut(n, a, x) && (x == p || x == p + Pow2(k))
    requires b == a[p := k + 1][p + Pow2(k) := EMPTY]
    ensures Tiled(n, b) && CoalescedBut(n, b, p) && SameUsedPages(n, a, b)
  {
    MergeKeepsCoalesced(n, a, p, k, x);
    Join(n, a, p, k, k + 1);
    BlockPagesUse(n, a, p);
    BlockPagesUse(n, a, p + Pow2(k));
    forall q | 0 <= q < |a| ensures Used(n, a, q) <==> Used(n, b, q) {
      InHalves(p, k, q);
    }
  }

  lemma HalvedUsed(n: nat, a: seq<int>, b: seq<int>, p: nat, k: nat)
    requires Tiled(n, a) && Coalesced(n, a) && p + Pow2(k) < |a| && k < n && a[p] == UsedTag(k + 1)
    requires b == a[p := UsedTag(k)][p + Pow2(k) := k]
    ensures Tiled(n, b) && Coalesced(n, b)
  {
    SplitTiles(n, a, p, k, UsedTag(k), k);
    CutKeepsCoalesced(n, a, p, k, UsedTag(k));
  }

  /** Taking the free block (p, o) and shrinking it to order k allocates the block (p, k). */
  lemma TakenAndShrunk(n: nat, a: seq<int>, b: seq<int>, p: nat, o: nat, k: nat)
    requires Tiled(n, a) && p < |a| && o <= n && a[p] == o
    requires Tiled(n, a[p := UsedTag(o)]) && Shrunk(n, a[p := UsedTag(o)], b, p, o, k)
    ensures Aligned(p, k) && Allocated(n, a, b, p, k)
  {
    var c := a[p := UsedTag(o)];
    Retag(n, a, p, UsedTag(o));
    BlockPagesUse(n, a, p);
    assert BlockAt(n, a, p);
    Pow2Monotone(k, o);
    AlignedCoarse(p, k, o);
    forall q | 0 <= q < |a| ensures Used(n, b, q) <==> Used(n, a, q) || InBlock(p, k, q) {
      assert Used(n, c, q) <==> if InBlock(p, o, q) then true else Used(n, a, q);
    }
  }

  datatype FreeResult = Freed | InvalidPointer | NotInUse

  lemma FreedMayMerge(n: nat, a: seq<int>, p: nat, t: int)
    requires Coalesced(n, a) && p < |a|
    ensures CoalescedBut(n, a[p := t], p)
  {
    var b := a[p := t];
    forall x: nat, k: nat | FreePair(n, b, x, k) ensures p == x || p == x + Pow2(k) {
      assert !FreePair(n, a, x, k);
    }
  }

  lemma FreedAndMerged(n: nat, a: seq<int>, b: seq<int>, c: seq<int>, p: nat, k: nat)
    requires Tiled(n, a) && p < |a| && a[p] < 0 && Order(a[p]) == k && b == a[p := k]
    requires Tiled(n, b) && Tiled(n, c) && SameUsedTags(b, c) && SameUsedPages(n, b, c)
    ensures Released(n, a, c, p)
  {
    Retag(n, a, p, k);
    assert c[p] >= 0;
    forall q | 0 <= q < |a| ensures Used(n, c, q) <==> Used(n, a, q) && !InBlock(p, Order(a[p]), q) {
      assert Used(n, b, q) <==> Used(n, c, q);
    }
  }

  /** b is a with the aligned region (p, k) turned into one free block. */
  ghost predicate Cleared(n: nat, a: seq<int>, b: seq<int>, p: nat, k: nat) {
    && Tiled(n, b) && |a| == |b| && p + Pow2(k) <= |a| && b[p] == k
    && (forall q :: 0 <= q < |a| && !InBlock(p, k, q) ==> b[q] == a[q])
    && (forall q :: 0 <= q < |a| && InBlock(p, k, q) && q != p ==> b[q] == EMPTY)
  }

  lemma ClearedAlready(n: nat, a: seq<int>, p: nat, k: nat)
    requires Tiled(n, a) && p < |a| && a[p] == k <= n
    ensures Cleared(n, a, a, p, k)
  {
    assert BlockAt(n, a, p);
  }

  lemma RetagFree(n: nat, a: seq<int>, p: nat, k: nat)
    requires Tiled(n, a) && p < |a| && a[p] != EMPTY && Order(a[p]) == k
    ensures Cleared(n, a, a[p := k], p, k)
  {
    assert BlockAt(n, a, p);
    Retag(n, a, p, k);
  }

  lemma HalvesAreFree(n: nat, a: seq<int>, b: seq<int>, c: seq<int>, p: nat, k: nat)
    requires p + Pow2(k) < |a| && Cleared(n, a, b, p, k) && Cleared(n, b, c, p + Pow2(k), k)
    ensures c[p] == c[p + Pow2(k)] == k
  {
    assert !InBlock(p + Pow2(k), k, p);
  }

  lemma ClearedHalves(n: nat, a: seq<int>, b: seq<int>, c: seq<int>, d: seq<int>, p: nat, k: nat)
    requires k < n && Aligned(p, k + 1) && p + Pow2(k) < |a|
    requires Cleared(n, a, b, p, k) && Cleared(n, b, c, p + Pow2(k), k)
    requires d == c[p := k + 1][p + Pow2(k) := EMPTY]
    ensures Cleared(n, a, d, p, k + 1)
  {
    HalvesAreFree(n, a, b, c, p, k);
    Join(n, c, p, k, k + 1);
    forall q | 0 <= q < |a|
      ensures !InBlock(p, k + 1, q) ==> c[q] == a[q]
      ensures InBlock(p, k + 1, q) && q != p && q != p + Pow2(k) ==> c[q] == EMPTY
    {
      InHalves(p, k, q);
    }
  }

  // ----- the block that memory_reserve looks for

  /** start rounded down to a multiple of 2^k pages. */
  function CoverStart(start: nat, k: nat): (r: nat)
    ensures r <= start
  {
    RemainderBelow(start, Pow2(k) * PAGE_SIZE);
    start - start % (Pow2(k) * PAGE_SIZE)
  }

  ghost predicate Covers(start: nat, end: nat, k: nat) {
    end <= CoverStart(start, k) + Pow2(k) * PAGE_SIZE
  }

  /** Block (idx, k) holds start, ends at or after end, and no smaller aligned block does both. */
  ghost predicate LeastCover(start: nat, end: nat, idx: nat, k: nat) {
    && Aligned(idx, k)
    && idx * PAGE_SIZE <= start < (idx + Pow2(k)) * PAGE_SIZE && end <= (idx + Pow2(k)) * PAGE_SIZE
    && (forall p: nat, j: nat {:trigger Aligned(p, j)} ::
          Aligned(p, j) && p * PAGE_SIZE <= start < (p + Pow2(j)) * PAGE_SIZE && end <= (p + Pow2(j)) * PAGE_SIZE
          ==> k <= j)
  }

  lemma CoverStartBelow(start: nat, k: nat)
    ensures start < CoverStart(start, k) + Pow2(k) * PAGE_SIZE
  {
    RemainderBelow(start, Pow2(k) * PAGE_SIZE);
  }

  lemma CoverStartAligned(start: nat, k: nat)
    ensures var idx := CoverStart(start, k) / PAGE_SIZE;
            idx * PAGE_SIZE == CoverStart(start, k) && Aligned(idx, k)
  {
    var q := RoundedDown(start, Pow2(k), Pow2(k) * PAGE_SIZE);
    MultipleAligned(k, q);
    PageOf(CoverStart(start, k), Pow2(k) * q);
  }

  /** Rounding down to a multiple of w pages gives a multiple of w pages. */
  lemma RoundedDown(x: nat, w: nat, m: nat) returns (q: nat)
    requires w > 0 && m == w * PAGE_SIZE
    ensures x % m <= x && x - x % m == (w * q) * PAGE_SIZE
  {
    q := x / m;
    RemainderBelow(x, m);
    assert x == m * q + x % m;
    Regroup(w, q);
  }

  lemma PageOf(addr: nat, p: nat)
    requires addr == p * PAGE_SIZE
    ensures addr / PAGE_SIZE == p && addr % PAGE_SIZE == 0
  {
  }

  lemma Regroup(w: nat, q: nat)
    ensures (w * PAGE_SIZE) * q == (w * q) * PAGE_SIZE
  {
  }

  lemma MultipleAligned(k: nat, q: nat)
    ensures Aligned(Pow2(k) * q, k)
  {
    DivModUnique(Pow2(k) * q, Pow2(k), q, 0);
    AlignedIsMod(Pow2(k) * q, k);
  }

  /** An aligned block that holds start begins where start is rounded down to. */
  lemma CoverStartUnique(start: nat, p: nat, j: nat)
    requires Aligned(p, j) && p * PAGE_SIZE <= start < (p + Pow2(j)) * PAGE_SIZE
    ensures CoverStart(start, j) == p * PAGE_SIZE
  {
    AlignedIsMod(p, j);
    var w := Pow2(j);
    var q := p / w;
    assert p == w * q;
    Regroup(w, q);
    DivModUnique(start, w * PAGE_SIZE, q, start - p * PAGE_SIZE);
  }

  lemma CoverIsLeast(start: nat, end: nat, idx: nat, k: nat)
    requires idx * PAGE_SIZE == CoverStart(start, k) && Aligned(idx, k) && Covers(start, end, k)
    requires forall j: nat :: j < k ==> !Covers(start, end, j)
    ensures LeastCover(start, end, idx, k)
  {
    CoverStartBelow(start, k);
    forall p: nat, j: nat |
      Aligned(p, j) && p * PAGE_SIZE <= start < (p + Pow2(j)) * PAGE_SIZE && end <= (p + Pow2(j)) * PAGE_SIZE
      ensures k <= j
    {
      BlockCovers(start, end, p, j);
    }
  }

  lemma BlockCovers(start: nat, end: nat, p: nat, j: nat)
    requires Aligned(p, j) && p * PAGE_SIZE <= start < (p + Pow2(j)) * PAGE_SIZE && end <= (p + Pow2(j)) * PAGE_SIZE
    ensures Covers(start, end, j)
  {
    CoverStartUnique(start, p, j);
  }

  // ----- what memory_reserve does to the tags

  lemma HalvedState(n: nat, a: seq<int>, b: seq<int>, p: nat, k: nat, x: nat)
    requires Tiled(n, a) && p + Pow2(k) < |a| && k < n && a[p] == k + 1 && CoalescedBut(n, a, p)
    requires (x == p || x == p + Pow2(k)) && b == a[p := k][p + Pow2(k) := k]
    ensures Tiled(n, b) && CoalescedBut(n, b, x) && SameUsedPages(n, a, b)
  {
    assert BlockAt(n, a, p);
    Split(n, a, p, k, k, k);
    HalvingKeepsCoalesced(n, a, p, k, x);
    BlockPagesUse(n, a, p);
    forall q | 0 <= q < |a| ensures Used(n, a, q) <==> Used(n, b, q) {
      InHalves(p, k, q);
    }
  }

  lemma AlreadyReserved(n: nat, a: seq<int>, h: nat, p: nat, k: nat)
    requires Tiled(n, a) && k <= n && Aligned(p, k) && p + Pow2(k) <= |a| && h == HeadOf(a, p)
    requires a[h] <= -(k as int) && a[h] != NEG_ZERO
    ensures Reserved(n, a, a, p, k) <==> !(k == 0 && a[p] == 0)
  {
    Cover(n, a, p);
    if a[h] < 0 {
      SwallowsInterval(n, a, h, p, k, p);
      BlockPagesUse(n, a, h);
      forall q | 0 <= q < |a| && InBlock(p, k, q) ensures Used(n, a, q) {
      }
    } else {
      assert InBlock(p, k, p) && !Used(n, a, p);
    }
  }

  lemma ReservedByRetag(n: nat, a: seq<int>, b: seq<int>, p: nat, k: nat)
    requires Tiled(n, a) && Tiled(n, b) && SameUsedPages(n, a, b) && k <= n
    requires p < |b| && b[p] == k && CoalescedBut(n, b, p)
    ensures Coalesced(n, b[p := UsedTag(k)]) && Reserved(n, a, b[p := UsedTag(k)], p, k)
  {
    Retag(n, b, p, UsedTag(k));
    UsedNeedsNoBuddy(n, b, p, UsedTag(k));
  }

  /** A head of smaller order whose block holds an aligned page index is that page. */
  lemma SmallHeadIsBlock(n: nat, a: seq<int>, h: nat, p: nat, k: nat)
    requires Tiled(n, a) && p < |a| && h == HeadOf(a, p) && Aligned(p, k) && Order(a[h]) <= k
    ensures h == p
  {
    Cover(n, a, p);
    Nested(h, Order(a[h]), p, k);
  }

  lemma ReservedByClear(n: nat, a: seq<int>, b: seq<int>, p: nat, k: nat)
    requires Tiled(n, a) && Coalesced(n, a) && k <= n && Cleared(n, a, b, p, k) && a[p] != EMPTY
    ensures Coalesced(n, b[p := UsedTag(k)]) && Reserved(n, a, b[p := UsedTag(k)], p, k)
  {
    ClearedKeepsCoalesced(n, a, b, p, k);
    UsedNeedsNoBuddy(n, b, p, UsedTag(k));
    var c := b[p := UsedTag(k)];
    Retag(n, b, p, UsedTag(k));
    assert BlockAt(n, b, p);
    forall q | 0 <= q < |a| ensures Used(n, c, q) <==> Used(n, a, q) || InBlock(p, k, q) {
      if !InBlock(p, k, q) {
        OutsideUnchanged(n, b, a, p, k, q);
      }
    }
  }

  class Allocator {
    const n: nat              // num_pages_exp
    const arr: array<int>
    const nodes: array<Node>  // buddy_node_arr
    const heads: array<Link>  // free_blocks_list
    ghost var lists: seq<seq<nat>>

    ghost predicate Linked()
      reads this, arr, nodes, heads
    {
      && n <= MAX_EXP && arr.Length == nodes.Length == Pow2(n) && heads.Length == n + 1
      && Lists(n, arr[..], nodes[..], heads[..], lists)
    }

    ghost predicate Valid()
      reads this, arr, nodes, heads
    {
      Linked() && Tiled(n, arr[..]) && Coalesced(n, arr[..])
    }

    /** buddy_insert_free_block: push page idx on the list of order k. */
    method InsertFree(idx: nat, k: nat)
      requires Linked() && idx < arr.Length && k <= n && !(0 <= arr[idx] <= n)
      modifies this`lists, arr, nodes, heads
      ensures Linked() && arr[..] == old(arr[..])[idx := k]
      ensures lists == old(lists)[k := [idx] + old(lists[k])]
    {
      PushLists(n, arr[..], nodes[..], heads[..], lists, idx, k);
      ghost var ns := Pushed(nodes[..], heads[k], idx);
      var head := heads[k];
      if head.At? {
        nodes[head.idx] := nodes[head.idx].(prev := At(idx));
      }
      nodes[idx] := nodes[idx].(next := head);
      heads[k] := At(idx);
      arr[idx] := k;
      lists := lists[k := [idx] + lists[k]];
      assert nodes[..] == ns;
    }

    /** The pointer surgery of buddy_delete_free_block. */
    method UnlinkInPlace(idx: nat)
      requires idx < nodes.Length
      requires nodes[idx].prev.At? ==> nodes[idx].prev.idx < nodes.Length
      requires nodes[idx].next.At? ==> nodes[idx].next.idx < nodes.Length
      modifies nodes
      ensures nodes[..] == Unlinked(old(nodes[..]), idx)
    {
      var nd := nodes[idx];
      if nd.prev.At? {
        nodes[nd.prev.idx] := nodes[nd.prev.idx].(next := nd.next);
      }
      if nd.next.At? {
        nodes[nd.next.idx] := nodes[nd.next.idx].(prev := nd.prev);
      }
      nodes[idx] := UNLINKED;
    }

    /** buddy_delete_free_block: unlink page idx and mark it used, or report an error and do nothing. */
    method DeleteFree(idx: nat, k: nat) returns (ok: bool)
      requires Linked() && idx < arr.Length && k <= n
      modifies this`lists, arr, nodes, heads
      ensures Linked() && ok == (old(arr[idx]) == k)
      ensures arr[..] == if ok then old(arr[..])[idx := UsedTag(k)] else old(arr[..])
    {
      if arr[idx] != k {
        return false;
      }
      ghost var a, ns, hs, l := arr[..], nodes[..], heads[..], lists[k];
      assert idx in l;
      ghost var i :| 0 <= i < |l| && l[i] == idx;
      UnlinkLists(n, a, ns, hs, lists, k, i, UsedTag(k));
      assert nodes[idx] == ns[l[i]] == Node(LinkTo(l, i - 1), LinkTo(l, i + 1));
      var next := nodes[idx].next;
      UnlinkInPlace(idx);
      if heads[k] == At(idx) {
        heads[k] := next;
      }
      arr[idx] := if k == 0 then NEG_ZERO else 0 - k;
      lists := lists[k := Remove(l, i)];
      assert heads[..] == if i == 0 then hs[k := LinkTo(l, 1)] else hs;
      assert arr[..] == a[idx := UsedTag(k)];
      return true;
    }

    /** Overwrite a tag that names no free list. */
    method SetTag(idx: nat, t: int)
      requires Linked() && idx < arr.Length && !(0 <= arr[idx] <= n) && !(0 <= t <= n)
      modifies arr
      ensures Linked() && arr[..] == old(arr[..])[idx := t]
    {
      RetagLists(n, arr[..], nodes[..], heads[..], lists, idx, t);
      arr[idx] := t;
      assert arr[..] == old(arr[..])[idx := t];
    }

    /** The sizing loop of buddy_init: the least power of two of pages that reaches top. */
    static method SizeOf(top: nat) returns (exp: nat)
      requires top <= 0x1_0000_0000
      ensures exp <= MAX_EXP && top <= Pow2(exp) * PAGE_SIZE && (exp > 0 ==> Pow2(exp - 1) * PAGE_SIZE < top)
    {
      assert Pow2(10) == 1024;
      assert Pow2(20) == 1048576;
      var size := PAGE_SIZE;
      exp := 0;
      while size < top
        invariant size == Pow2(exp) * PAGE_SIZE && exp <= MAX_EXP
        invariant exp > 0 ==> Pow2(exp - 1) * PAGE_SIZE < top
        decreases MAX_EXP - exp
      {
        size, exp := size * 2, exp + 1;
      }
    }

    /** buddy_init, for usable memory that ends at address top. */
    constructor (top: nat)
      requires top <= 0x1_0000_0000
      ensures Valid() && fresh(arr) && fresh(nodes) && fresh(heads)
      ensures top <= Pow2(n) * PAGE_SIZE && (n > 0 ==> Pow2(n - 1) * PAGE_SIZE < top)
      ensures arr[0] == n && forall q :: 0 <= q < arr.Length ==> !Used(n, arr[..], q)
    {
      var exp := SizeOf(top);
      n := exp;
      arr := new int[Pow2(exp)](_ => EMPTY);
      nodes := new Node[Pow2(exp)](_ => UNLINKED);
      heads := new Link[exp + 1](_ => Null);
      lists := seq(exp + 1, _ => []);
      new;
      InsertFree(0, n);
      WholeMemoryFree(n, arr[..]);
    }

    /** One halving of buddy_cut_block: the lower half stays used, the upper half becomes free. */
    method Halve(idx: nat, k: nat)
      requires Valid() && idx < arr.Length && k < n && arr[idx] == UsedTag(k + 1)
      modifies this`lists, arr, nodes, heads
      ensures Valid() && idx + Pow2(k) < arr.Length
      ensures arr[..] == old(arr[..])[idx := UsedTag(k)][idx + Pow2(k) := k]
    {
      ghost var a := arr[..];
      assert BlockAt(n, a, idx);
      ShrinkUsed(idx, idx + Pow2(k), k);
      HalvedUsed(n, a, arr[..], idx, k);
    }

    method ShrinkUsed(p: nat, q: nat, k: nat)
      requires Linked() && k < n && p != q && p < arr.Length && q < arr.Length
      requires arr[p] == UsedTag(k + 1) && arr[q] == EMPTY
      modifies this`lists, arr, nodes, heads
      ensures Linked() && arr[..] == old(arr[..])[p := UsedTag(k)][q := k]
    {
      var t := arr[p] + 1;
      SetTag(p, if t == 0 then NEG_ZERO else t);
      InsertFree(q, k);
    }

    /** buddy_cut_block: halve the used block (idx, o) until it fits, freeing the upper halves. */
    method Cut(idx: nat, o: nat, size: nat) returns (ghost k: nat)
      requires Valid() && idx < arr.Length && o <= n && arr[idx] == UsedTag(o) && 0 < size <= Pow2(o)
      modifies this`lists, arr, nodes, heads
      ensures Valid() && Fits(k, size) && Shrunk(n, old(arr[..]), arr[..], idx, o, k)
      decreases o
    {
      ghost var a := arr[..];
      if o == 0 || Pow2(o - 1) < size {
        ShrunkAlready(n, a, idx, o);
        return o;
      }
      Halve(idx, o - 1);
      ghost var c := arr[..];
      k := Cut(idx, o - 1, size);
      ShrunkStep(n, a, c, arr[..], idx, o, k);
    }

    lemma ListsTooSmall(size: nat)
      requires Linked() && forall j: nat :: j <= n ==> Pow2(j) < size || heads[j] == Null
      ensures forall q, j: nat :: 0 <= q < arr.Length && j <= n && arr[..][q] == j ==> Pow2(j) < size
    {
      forall q, j: nat | 0 <= q < arr.Length && j <= n && arr[..][q] == j ensures Pow2(j) < size {
        assert q in lists[j];
        assert Chain(lists[j], heads[..][j], nodes[..]);
      }
    }

    lemma ListsBelowTooSmall(size: nat, o: nat)
      requires Linked() && o <= n && heads[o] != Null && size <= Pow2(o)
      requires forall j: nat :: j < o ==> Pow2(j) < size || heads[j] == Null
      ensures BestFit(n, arr[..], heads[o].idx, size)
    {
      FirstOfList(o);
      forall q: nat | LargeFree(n, arr[..], q, size) ensures o <= arr[q] {
        assert q in lists[arr[q]];
        assert Chain(lists[arr[q]], heads[..][arr[q]], nodes[..]);
      }
    }

    lemma FirstOfList(o: nat)
      requires Linked() && o <= n && heads[o] != Null
      ensures heads[o].idx < arr.Length && arr[heads[o].idx] == o
    {
      assert Chain(lists[o], heads[..][o], nodes[..]);
      assert heads[o].idx in lists[o];
    }

    /** The search loop of buddy_malloc: the first non-empty list whose blocks are large enough. */
    method SearchLists(size: nat) returns (found: bool, o: nat)
      requires heads.Length == n + 1
      ensures found ==> o <= n && size <= Pow2(o) && heads[o] != Null
      ensures found ==> forall j: nat :: j < o ==> Pow2(j) < size || heads[j] == Null
      ensures !found ==> forall j: nat :: j <= n ==> Pow2(j) < size || heads[j] == Null
    {
      o := 0;
      while Pow2(o) < size || heads[o] == Null
        invariant o <= n
        invariant forall j: nat :: j < o ==> Pow2(j) < size || heads[j] == Null
        decreases n - o
      {
        if o == n {
          return false, o;
        }
        o := o + 1;
      }
      return true, o;
    }

    /** The search succeeds exactly if an aligned run of free pages is long enough. */
    method FindList(size: nat) returns (found: bool, o: nat)
      requires Valid() && size > 0
      ensures found <==> Satisfiable(n, arr[..], size)
      ensures found ==> o <= n && size <= Pow2(o) && heads[o] != Null && BestFit(n, arr[..], heads[o].idx, size)
    {
      found, o := SearchLists(size);
      if found {
        FirstOfList(o);
        ListsBelowTooSmall(size, o);
        LargeBlockFits(n, arr[..], heads[o].idx, size);
      } else {
        ListsTooSmall(size);
        NothingFits(n, arr[..], size);
      }
    }

    /** buddy_malloc: the address of a block of exactly the needed order, or NULL (0). */
    method Malloc(size: nat) returns (ok: bool, addr: nat, ghost k: nat)
      requires Valid()
      modifies this`lists, arr, nodes, heads
      ensures Valid()
      ensures ok <==> size > 0 && old(Satisfiable(n, arr[..], size))
      ensures ok ==> addr % PAGE_SIZE == 0 && k <= n && Fits(k, size) && Aligned(addr / PAGE_SIZE, k)
      ensures ok ==> Allocated(n, old(arr[..]), arr[..], addr / PAGE_SIZE, k)
      ensures ok ==> BestFit(n, old(arr[..]), addr / PAGE_SIZE, size)
      ensures !ok ==> addr == 0 && arr[..] == old(arr[..])
    {
      addr, k := 0, 0;
      if size == 0 {
        return false, 0, 0;
      }
      var o;
      ok, o := FindList(size);
      if ok {
        var idx := heads[o].idx;
        k := Take(idx, o, size);
        addr := idx * PAGE_SIZE;
        PageOf(addr, idx);
      }
    }

    /** Unlink the free block (idx, o), mark it used and cut it down to size. */
    method Take(idx: nat, o: nat, size: nat) returns (ghost k: nat)
      requires Valid() && o <= n && heads[o] == At(idx) && 0 < size <= Pow2(o)
      modifies this`lists, arr, nodes, heads
      ensures Valid() && k <= n && Fits(k, size) && Aligned(idx, k)
      ensures Allocated(n, old(arr[..]), arr[..], idx, k)
    {
      ghost var a := arr[..];
      FirstOfList(o);
      Retag(n, a, idx, UsedTag(o));
      UsedNeedsNoBuddy(n, a, idx, UsedTag(o));
      var deleted := DeleteFree(idx, o);
      k := Cut(idx, o, size);
      TakenAndShrunk(n, a, arr[..], idx, o, k);
    }

    /** buddy_merge_block: join the free block (idx, k) with its buddy as long as that is free too. */
    method Merge(idx: nat, k: nat)
      requires Linked() && Tiled(n, arr[..]) && idx < arr.Length && k <= n && arr[idx] == k
      requires CoalescedBut(n, arr[..], idx)
      modifies this`lists, arr, nodes, heads
      ensures Valid()
      ensures SameUsedTags(old(arr[..]), arr[..]) && SameUsedPages(n, old(arr[..]), arr[..])
      decreases n - k
    {
      ghost var a := arr[..];
      assert BlockAt(n, a, idx);
      if k == n {
        NoFreeBuddy(n, a, idx, k);
        return;
      }
      BuddyIsOtherHalf(n, idx, k);
      var buddy := BuddyOf(idx, k);
      if arr[buddy] != k {
        NoFreeBuddy(n, a, idx, k);
        return;
      }
      var small := if idx < buddy then idx else buddy;
      var big := if idx < buddy then buddy else idx;
      JoinFree(idx, buddy, small, big, k);
      ghost var b := arr[..];
      Merge(small, k + 1);
    }

    /** One join of buddy_merge_block. */
    method JoinFree(idx: nat, buddy: nat, small: nat, big: nat, k: nat)
      requires Linked() && Tiled(n, arr[..]) && k < n && small + Pow2(k) == big < arr.Length
      requires Aligned(small, k + 1) && arr[small] == arr[big] == k
      requires (idx == small && buddy == big) || (idx == big && buddy == small)
      requires CoalescedBut(n, arr[..], idx)
      modifies this`lists, arr, nodes, heads
      ensures Linked() && Tiled(n, arr[..]) && CoalescedBut(n, arr[..], small)
      ensures arr[..] == old(arr[..])[small := k + 1][big := EMPTY]
      ensures SameUsedPages(n, old(arr[..]), arr[..])
    {
      ghost var a := arr[..];
      ReplaceHalves(small, big, k);
      JoinedState(n, a, arr[..], small, k, idx);
    }

    /** buddy_free. A page inside a block is tagged EMPTY, which is positive, so it reads as not in use. */
    method Free(addr: nat) returns (r: FreeResult)
      requires Valid()
      modifies this`lists, arr, nodes, heads
      ensures Valid()
      ensures r == InvalidPointer <==> addr >= Pow2(n) * PAGE_SIZE || addr % PAGE_SIZE != 0
      ensures r == Freed <==> addr < Pow2(n) * PAGE_SIZE && addr % PAGE_SIZE == 0 && old(arr[addr / PAGE_SIZE]) < 0
      ensures r == Freed ==> Released(n, old(arr[..]), arr[..], addr / PAGE_SIZE)
      ensures r != Freed ==> arr[..] == old(arr[..])
    {
      if addr >= Pow2(n) * PAGE_SIZE || addr % PAGE_SIZE != 0 {
        return InvalidPointer;
      }
      var idx := addr / PAGE_SIZE;
      if arr[idx] >= 0 {
        return NotInUse;
      }
      ghost var a := arr[..];
      assert BlockAt(n, a, idx);
      var k := if arr[idx] == NEG_ZERO then 0 else 0 - arr[idx];
      Retag(n, a, idx, k);
      FreedMayMerge(n, a, idx, k);
      InsertFree(idx, k);
      ghost var b := arr[..];
      Merge(idx, k);
      FreedAndMerged(n, a, b, arr[..], idx, k);
      return Freed;
    }

    /** buddy_clear_block: turn the aligned region (idx, k) into one free block, whatever tiles it. */
    method Clear(idx: nat, k: nat) returns (ok: bool)
      requires Linked() && Tiled(n, arr[..]) && k <= n && idx < arr.Length
      requires arr[idx] != EMPTY && Order(arr[idx]) <= k
      modifies this`lists, arr, nodes, heads
      ensures Linked() && ok == Aligned(idx, k)
      ensures ok ==> Cleared(n, old(arr[..]), arr[..], idx, k)
      ensures !ok ==> arr[..] == old(arr[..])
      decreases k, 1
    {
      AlignedIsMod(idx, k);
      if idx % Pow2(k) != 0 {
        return false;
      }
      ghost var a := arr[..];
      if arr[idx] >= k {
        ClearedAlready(n, a, idx, k);
        return true;
      }
      if (arr[idx] != NEG_ZERO && arr[idx] <= 0 - k) || (arr[idx] == NEG_ZERO && k == 0) {
        RetagFree(n, a, idx, k);
        InsertFree(idx, k);
        return true;
      }
      ClearHalves(idx, k - 1);
      return true;
    }

    /** The recursive part of buddy_clear_block: clear both halves of (idx, k + 1), then join them. */
    method ClearHalves(idx: nat, k: nat)
      requires Linked() && Tiled(n, arr[..]) && k < n && idx < arr.Length && Aligned(idx, k + 1)
      requires arr[idx] != EMPTY && Order(arr[idx]) <= k
      modifies this`lists, arr, nodes, heads
      ensures Linked() && Cleared(n, old(arr[..]), arr[..], idx, k + 1)
      decreases k + 1, 0
    {
      ghost var a := arr[..];
      Halves(idx, k);
      MidpointIsHead(n, a, idx, k);
      var ok := Clear(idx, k);
      ghost var b := arr[..];
      ok := Clear(idx + Pow2(k), k);
      ghost var c := arr[..];
      HalvesAreFree(n, a, b, c, idx, k);
      ReplaceHalves(idx, idx + Pow2(k), k);
      ClearedHalves(n, a, b, c, arr[..], idx, k);
    }

    /** Two free halves become one free block, as in buddy_merge_block and buddy_clear_block. */
    method ReplaceHalves(small: nat, big: nat, k: nat)
      requires Linked() && k < n && small != big && small < arr.Length && big < arr.Length
      requires arr[small] == arr[big] == k
      modifies this`lists, arr, nodes, heads
      ensures Linked() && arr[..] == old(arr[..])[small := k + 1][big := EMPTY]
    {
      var deleted := DeleteFree(small, k);
      deleted := DeleteFree(big, k);
      InsertFree(small, k + 1);
      SetTag(big, EMPTY);
    }

    /** A free block becomes its two free halves, as in memory_reserve. */
    method ReplaceBlock(p: nat, q: nat, i: nat)
      requires Linked() && 0 < i <= n && p != q && p < arr.Length && q < arr.Length
      requires arr[p] == i && arr[q] == EMPTY
      modifies this`lists, arr, nodes, heads
      ensures Linked() && arr[..] == old(arr[..])[p := i - 1][q := i - 1]
    {
      var deleted := DeleteFree(p, i);
      InsertFree(p, i - 1);
      InsertFree(q, i - 1);
    }

    /** The search loop of memory_reserve: the smallest aligned block that covers [start, end). */
    method CoverBlock(start: nat, end: nat) returns (idx: nat, k: nat)
      requires start <= end <= Pow2(n) * PAGE_SIZE && start < Pow2(n) * PAGE_SIZE
      ensures k <= n && LeastCover(start, end, idx, k)
      ensures idx + Pow2(k) <= Pow2(n)
    {
      RemainderBelow(start, Pow2(n) * PAGE_SIZE);
      var size, i := end - start, PAGE_SIZE;
      k := 0;
      while i < size || start - start % i + i < end
        invariant k <= n && i == Pow2(k) * PAGE_SIZE
        invariant forall j: nat :: j < k ==> !Covers(start, end, j)
        decreases n - k
      {
        CoverStartBelow(start, k);
        i, k := i * 2, k + 1;
      }
      CoverStartAligned(start, k);
      idx := (start - start % i) / PAGE_SIZE;
      FitsBelow(idx, k, n);
      CoverIsLeast(start, end, idx, k);
    }

    /** The lowest-set-bit walk of memory_reserve reaches the head of the enclosing block. */
    method FindHead(idx: nat) returns (p: nat)
      requires Linked() && Tiled(n, arr[..]) && idx < arr.Length
      ensures p == HeadOf(arr[..], idx)
    {
      ghost var a := arr[..];
      ghost var h := HeadOf(a, idx);
      Cover(n, a, idx);
      p := idx;
      while arr[p] == EMPTY
        invariant h <= p <= idx
        decreases p
      {
        LowBitStaysInside(p, h, Order(a[h]));
        p := p - LowBit(p);
      }
    }

    /** The splitting loop of memory_reserve: carve the free block (idx, k) out of the one at parent. */
    method Carve(parent: nat, idx: nat, k: nat)
      requires Valid() && parent < arr.Length && k <= arr[parent] <= n
      requires InBlock(parent, arr[parent], idx) && Aligned(idx, k)
      modifies this`lists, arr, nodes, heads
      ensures Linked() && Tiled(n, arr[..]) && CoalescedBut(n, arr[..], idx)
      ensures idx < arr.Length && arr[idx] == k && SameUsedPages(n, old(arr[..]), arr[..])
    {
      ghost var a := arr[..];
      assert BlockAt(n, a, parent);
      var p: nat, i: nat := parent, arr[parent];
      while i > k
        invariant k <= i <= n && p < arr.Length && arr[p] == i && InBlock(p, i, idx)
        invariant Linked() && Tiled(n, arr[..]) && CoalescedBut(n, arr[..], p)
        invariant SameUsedPages(n, a, arr[..])
      {
        ghost var b := arr[..];
        var next := SplitFree(p, i, idx);
        p, i := next, i - 1;
        assert forall q {:trigger Used(n, arr[..], q)} :: 0 <= q < |a| ==> (Used(n, b, q) <==> Used(n, arr[..], q));
      }
      SwallowsInterval(n, arr[..], p, idx, k, idx);
    }

    /** One step of the splitting loop: replace the free block (p, i) by its halves and pick the one with idx. */
    method SplitFree(p: nat, i: nat, idx: nat) returns (next: nat)
      requires Linked() && Tiled(n, arr[..]) && p < arr.Length && 0 < i <= n && arr[p] == i
      requires CoalescedBut(n, arr[..], p) && InBlock(p, i, idx)
      modifies this`lists, arr, nodes, heads
      ensures Linked() && Tiled(n, arr[..]) && CoalescedBut(n, arr[..], next)
      ensures next < arr.Length && arr[next] == i - 1 && InBlock(next, i - 1, idx)
      ensures SameUsedPages(n, old(arr[..]), arr[..])
    {
      var idx1, idx2 := p, p + Pow2(i - 1);
      next := if idx2 > idx then idx1 else idx2;
      ghost var a := arr[..];
      assert BlockAt(n, a, p);
      ReplaceBlock(idx1, idx2, i);
      HalvedState(n, a, arr[..], p, i - 1, next);
    }

    /**
     memory_reserve. The block it looks for becomes used, except when that block is a single
     page that is already a free block of its own: then nothing happens.
     */
    method Reserve(start: nat, end: nat) returns (ghost idx: nat, ghost k: nat)
      requires Valid()
      requires start <= end <= Pow2(n) * PAGE_SIZE && start < Pow2(n) * PAGE_SIZE
      modifies this`lists, arr, nodes, heads
      ensures Valid()
      ensures LeastCover(start, end, idx, k) && idx + Pow2(k) <= Pow2(n)
      ensures Reserved(n, old(arr[..]), arr[..], idx, k) <==> !(k == 0 && old(arr[idx]) == 0)
      ensures k == 0 && old(arr[idx]) == 0 ==> arr[..] == old(arr[..])
    {
      ghost var a := arr[..];
      var block, exp := CoverBlock(start, end);
      idx, k := block, exp;
      var parent := FindHead(block);
      Cover(n, a, block);
      if arr[parent] <= 0 - exp && arr[parent] != NEG_ZERO {
        AlreadyReserved(n, a, parent, idx, k);
      } else if arr[parent] >= exp {
        Carve(parent, block, exp);
        ghost var b := arr[..];
        var deleted := DeleteFree(block, exp);
        ReservedByRetag(n, a, b, idx, k);
      } else {
        SmallHeadIsBlock(n, a, parent, idx, k);
        var ok := Clear(block, exp);
        ghost var b := arr[..];
        var deleted := DeleteFree(block, exp);
        ReservedByClear(n, a, b, idx, k);
      }
    }
  }
}
