/**
 The tag array of the page allocator as a value: which pages head a block, which
 blocks are free, and why the free blocks are a function of the used pages.
 */
module BuddyTags {
  import opened Dyadic

  const EMPTY: int := 2147483647
  const NEG_ZERO: int := -2147483647

  /** Number of pages can be at most 2^20: memory is bounded by a 32-bit address. */
  const MAX_EXP: nat := 20

  function UsedTag(k: nat): (t: int)
    ensures k <= MAX_EXP ==> t < 0 && t != EMPTY && Order(t) == k
  {
    if k == 0 then NEG_ZERO else 0 - k
  }

  /** The size (as an exponent) recorded in a head's tag. */
  function Order(t: int): nat {
    if t == NEG_ZERO then 0 else if t >= 0 then t else -t
  }

  /** Page p heads a block that is aligned, inside memory, and followed by another head. */
  ghost predicate BlockAt(n: nat, a: seq<int>, p: nat)
    requires p < |a|
  {
    var o := Order(a[p]);
    && o <= n
    && Aligned(p, o)
    && p + Pow2(o) <= |a|
    && (forall q :: p < q < p + Pow2(o) ==> a[q] == EMPTY)
    && (p + Pow2(o) < |a| ==> a[p + Pow2(o)] != EMPTY)
  }

  /** The heads tile [0, 2^n) with aligned blocks, and every other page is EMPTY. */
  ghost predicate Tiled(n: nat, a: seq<int>) {
    && n <= MAX_EXP
    && |a| == Pow2(n)
    && a[0] != EMPTY
    && (forall p {:trigger BlockAt(n, a, p)} :: 0 <= p < |a| && a[p] != EMPTY ==> BlockAt(n, a, p))
  }

  /** The blocks of order k at p and just above it are both free and form one aligned block. */
  ghost predicate FreePair(n: nat, a: seq<int>, p: nat, k: nat) {
    k < n && Aligned(p, k + 1) && p + Pow2(k) < |a| && a[p] == k && a[p + Pow2(k)] == k
  }

  ghost predicate Coalesced(n: nat, a: seq<int>) {
    forall p: nat, k: nat {:trigger FreePair(n, a, p, k)} :: !FreePair(n, a, p, k)
  }

  /** Coalesced, except that the block headed by x may have a free buddy. */
  ghost predicate CoalescedBut(n: nat, a: seq<int>, x: nat) {
    forall p: nat, k: nat {:trigger FreePair(n, a, p, k)} :: FreePair(n, a, p, k) ==> x == p || x == p + Pow2(k)
  }

  /** The nearest head at or below q. */
  ghost function HeadOf(a: seq<int>, q: nat): (r: nat)
    requires q < |a| && a[0] != EMPTY
    ensures r <= q && a[r] != EMPTY
    ensures forall i :: r < i <= q ==> a[i] == EMPTY
  {
    if a[q] != EMPTY then q else HeadOf(a, q - 1)
  }

  ghost predicate InBlock(p: nat, k: nat, q: int) {
    p <= q < p + Pow2(k)
  }

  /** Page q belongs to a block handed out or reserved. */
  ghost predicate Used(n: nat, a: seq<int>, q: nat)
    requires Tiled(n, a) && q < |a|
  {
    a[HeadOf(a, q)] < 0
  }

  /** Every page lies in the block of its nearest head, and in no other. */
  lemma Cover(n: nat, a: seq<int>, q: nat)
    requires Tiled(n, a) && q < |a|
    ensures var h := HeadOf(a, q); BlockAt(n, a, h) && InBlock(h, Order(a[h]), q)
  {
    assert BlockAt(n, a, HeadOf(a, q));
  }

  lemma HeadOfBlock(n: nat, a: seq<int>, p: nat, q: nat)
    requires Tiled(n, a) && p < |a| && q < |a| && a[p] != EMPTY && InBlock(p, Order(a[p]), q)
    ensures BlockAt(n, a, p) && HeadOf(a, q) == p
  {
    assert BlockAt(n, a, p);
  }

  // ----- the three ways in which the tiling changes

  lemma TiledFromBlocks(n: nat, a: seq<int>)
    requires n <= MAX_EXP && |a| == Pow2(n) && a[0] != EMPTY
    requires forall p :: 0 <= p < |a| && a[p] != EMPTY ==> BlockAt(n, a, p)
    ensures Tiled(n, a)
  {
  }

  /** Changing a block between free and used keeps the tiling; only its own pages change use. */
  lemma Retag(n: nat, a: seq<int>, p: nat, t: int)
    requires Tiled(n, a) && p < |a| && a[p] != EMPTY && t != EMPTY && Order(t) == Order(a[p])
    ensures Tiled(n, a[p := t])
    ensures forall q {:trigger Used(n, a[p := t], q)} :: 0 <= q < |a| ==>
                          (Used(n, a[p := t], q) <==> if InBlock(p, Order(t), q) then t < 0 else Used(n, a, q))
  {
    var b := a[p := t];
    forall q | 0 <= q < |b| && b[q] != EMPTY ensures BlockAt(n, b, q) {
      assert BlockAt(n, a, q);
    }
    TiledFromBlocks(n, b);
    forall q | 0 <= q < |a|
      ensures Used(n, b, q) <==> if InBlock(p, Order(t), q) then t < 0 else Used(n, a, q)
    {
      Cover(n, a, q);
      HeadOfBlock(n, b, HeadOf(a, q), q);
      if InBlock(p, Order(t), q) {
        HeadOfBlock(n, a, p, q);
      }
    }
  }

  /** Two blocks do not overlap. */
  lemma Apart(n: nat, a: seq<int>, p: nat, q: nat)
    requires Tiled(n, a) && p < q < |a| && a[p] != EMPTY && a[q] != EMPTY
    ensures BlockAt(n, a, p) && BlockAt(n, a, q) && p + Pow2(Order(a[p])) <= q
  {
    assert BlockAt(n, a, p) && BlockAt(n, a, q);
  }

  /** A block outside an aligned region stays a block if the tags outside the region are kept. */
  lemma BlockKept(n: nat, a: seq<int>, b: seq<int>, p: nat, k: nat, q: nat)
    requires Tiled(n, a) && |b| == |a| && p < |a| && a[p] != EMPTY && b[p] != EMPTY
    requires q < |a| && !InBlock(p, k, q) && a[q] != EMPTY
    requires forall i :: 0 <= i < |a| && !InBlock(p, k, i) ==> a[i] == b[i]
    ensures BlockAt(n, b, q)
  {
    assert BlockAt(n, a, q);
    if q < p {
      Apart(n, a, q, p);
    }
  }

  lemma SplitTiles(n: nat, a: seq<int>, p: nat, k: nat, t: int, u: int)
    requires Tiled(n, a) && p < |a| && a[p] != EMPTY && Order(a[p]) == k + 1
    requires t != EMPTY && u != EMPTY && Order(t) == k && Order(u) == k
    ensures BlockAt(n, a, p)
    ensures Tiled(n, a[p := t][p + Pow2(k) := u])
  {
    assert BlockAt(n, a, p);
    Halves(p, k);
    var m := p + Pow2(k);
    var b := a[p := t][m := u];
    assert BlockAt(n, b, p);
    assert BlockAt(n, b, m);
    forall q | 0 <= q < |b| && b[q] != EMPTY ensures BlockAt(n, b, q) {
      if !InBlock(p, k + 1, q) {
        BlockKept(n, a, b, p, k + 1, q);
      }
    }
    TiledFromBlocks(n, b);
  }

  /** Cutting a block in two: each half gets its own tag, every other page keeps its use. */
  lemma Split(n: nat, a: seq<int>, p: nat, k: nat, t: int, u: int)
    requires Tiled(n, a) && p < |a| && a[p] != EMPTY && Order(a[p]) == k + 1
    requires t != EMPTY && u != EMPTY && Order(t) == k && Order(u) == k
    ensures p + Pow2(k + 1) <= |a|
    ensures Tiled(n, a[p := t][p + Pow2(k) := u])
    ensures forall q {:trigger Used(n, a[p := t][p + Pow2(k) := u], q)} :: 0 <= q < |a| ==>
                          (Used(n, a[p := t][p + Pow2(k) := u], q) <==>
                           if InBlock(p, k, q) then t < 0
                           else if InBlock(p + Pow2(k), k, q) then u < 0 else Used(n, a, q))
  {
    SplitTiles(n, a, p, k, t, u);
    var m := p + Pow2(k);
    var b := a[p := t][m := u];
    forall q | 0 <= q < |a|
      ensures Used(n, b, q) <==> if InBlock(p, k, q) then t < 0 else if InBlock(m, k, q) then u < 0 else Used(n, a, q)
    {
      if InBlock(p, k, q) {
        HeadOfBlock(n, b, p, q);
      } else if InBlock(m, k, q) {
        HeadOfBlock(n, b, m, q);
      } else {
        OutsideUnchanged(n, a, b, p, k + 1, q);
      }
    }
  }

  /** A page outside an aligned region keeps its head if the tags outside the region are kept. */
  lemma OutsideUnchanged(n: nat, a: seq<int>, b: seq<int>, p: nat, k: nat, q: nat)
    requires Tiled(n, a) && Tiled(n, b) && p < |a| && a[p] != EMPTY && b[p] != EMPTY
    requires q < |a| && !InBlock(p, k, q) && p + Pow2(k) <= |a|
    requires forall i :: 0 <= i < |a| && !InBlock(p, k, i) ==> a[i] == b[i]
    requires p + Pow2(k) < |a| ==> a[p + Pow2(k)] != EMPTY
    ensures HeadOf(b, q) == HeadOf(a, q)
    ensures Used(n, b, q) <==> Used(n, a, q)
  {
    assert !InBlock(p, k, HeadOf(a, q));
    assert !InBlock(p, k, HeadOf(b, q));
  }

  lemma JoinTiles(n: nat, a: seq<int>, p: nat, k: nat, t: int)
    requires Tiled(n, a) && k < n && Aligned(p, k + 1) && p + Pow2(k) < |a|
    requires a[p] != EMPTY && Order(a[p]) == k && a[p + Pow2(k)] != EMPTY && Order(a[p + Pow2(k)]) == k
    requires t != EMPTY && Order(t) == k + 1
    ensures p + Pow2(k + 1) <= |a| && BlockAt(n, a, p + Pow2(k))
    ensures Tiled(n, a[p := t][p + Pow2(k) := EMPTY])
  {
    var b := a[p := t][p + Pow2(k) := EMPTY];
    HalvesEmpty(n, a, p, k);
    forall q | 0 <= q < |b| && b[q] != EMPTY ensures BlockAt(n, b, q) {
      if q != p {
        assert !(p < q < p + Pow2(k + 1));
        BlockKept(n, a, b, p, k + 1, q);
      }
    }
    TiledFromBlocks(n, b);
  }

  /** Two blocks side by side hold no heads but their own, and end where a block may end. */
  lemma HalvesEmpty(n: nat, a: seq<int>, p: nat, k: nat)
    requires Tiled(n, a) && p + Pow2(k) < |a|
    requires a[p] != EMPTY && Order(a[p]) == k && a[p + Pow2(k)] != EMPTY && Order(a[p + Pow2(k)]) == k
    ensures p + Pow2(k + 1) <= |a| && BlockAt(n, a, p + Pow2(k))
    ensures forall q :: p < q < p + Pow2(k + 1) && q != p + Pow2(k) ==> a[q] == EMPTY
    ensures p + Pow2(k + 1) < |a| ==> a[p + Pow2(k + 1)] != EMPTY
  {
    assert BlockAt(n, a, p) && BlockAt(n, a, p + Pow2(k));
  }

  /** Joining two halves into one block. */
  lemma Join(n: nat, a: seq<int>, p: nat, k: nat, t: int)
    requires Tiled(n, a) && k < n && Aligned(p, k + 1) && p + Pow2(k) < |a|
    requires a[p] != EMPTY && Order(a[p]) == k && a[p + Pow2(k)] != EMPTY && Order(a[p + Pow2(k)]) == k
    requires t != EMPTY && Order(t) == k + 1
    ensures p + Pow2(k + 1) <= |a|
    ensures Tiled(n, a[p := t][p + Pow2(k) := EMPTY])
    ensures forall q {:trigger Used(n, a[p := t][p + Pow2(k) := EMPTY], q)} :: 0 <= q < |a| ==>
                          (Used(n, a[p := t][p + Pow2(k) := EMPTY], q) <==>
                           if InBlock(p, k + 1, q) then t < 0 else Used(n, a, q))
  {
    JoinTiles(n, a, p, k, t);
    var b := a[p := t][p + Pow2(k) := EMPTY];
    forall q | 0 <= q < |a|
      ensures Used(n, b, q) <==> if InBlock(p, k + 1, q) then t < 0 else Used(n, a, q)
    {
      if InBlock(p, k + 1, q) {
        HeadOfBlock(n, b, p, q);
      } else {
        OutsideUnchanged(n, a, b, p, k + 1, q);
      }
    }
  }

  // ----- free runs

  /** If an aligned interval starts at a smaller block, its midpoint heads a block within the upper half. */
  lemma MidpointIsHead(n: nat, a: seq<int>, p: nat, k: nat)
    requires Tiled(n, a) && k < n && Aligned(p, k + 1) && p < |a|
    requires a[p] != EMPTY && Order(a[p]) <= k
    ensures p + Pow2(k + 1) <= |a|
    ensures a[p + Pow2(k)] != EMPTY && Order(a[p + Pow2(k)]) <= k
  {
    FitsBelow(p, k + 1, n);
    Halves(p, k);
    var m := p + Pow2(k);
    Cover(n, a, m);
    var h := HeadOf(a, m);
    var j := Order(a[h]);
    if j <= k {
      Nested(h, j, m, k);
    } else {
      Nested(p, k + 1, h, j);
      HeadOfBlock(n, a, h, p);
      HeadOfBlock(n, a, p, p);
    }
  }

  /** A block at least as large as an aligned interval that it meets contains the whole interval. */
  lemma SwallowsInterval(n: nat, a: seq<int>, h: nat, p: nat, k: nat, q: nat)
    requires Tiled(n, a) && h < |a| && a[h] != EMPTY && k <= Order(a[h])
    requires Aligned(p, k) && InBlock(p, k, q) && InBlock(h, Order(a[h]), q) && q < |a|
    ensures InBlock(h, Order(a[h]), p) && p + Pow2(k) <= h + Pow2(Order(a[h])) && p < |a|
    ensures HeadOf(a, p) == h
    ensures Order(a[h]) == k ==> h == p
  {
    assert BlockAt(n, a, h);
    Nested(p, k, h, Order(a[h]));
    HeadOfBlock(n, a, h, p);
  }

  ghost predicate FreeRun(n: nat, a: seq<int>, p: nat, k: nat)
    requires Tiled(n, a)
  {
    p + Pow2(k) <= |a| && forall q {:trigger Used(n, a, q)} :: p <= q < p + Pow2(k) ==> !Used(n, a, q)
  }

  /** In a coalesced state an aligned run of free pages lies inside one free block. */
  lemma {:induction false} FreeRunInOneBlock(n: nat, a: seq<int>, p: nat, k: nat)
    requires Tiled(n, a) && Coalesced(n, a) && k <= n && Aligned(p, k) && FreeRun(n, a, p, k)
    ensures var h := HeadOf(a, p); a[h] >= k && Order(a[h]) >= k
    decreases k
  {
    Cover(n, a, p);
    var h := HeadOf(a, p);
    assert !Used(n, a, p);
    if k > 0 && Order(a[h]) < k {
      Halves(p, k - 1);
      FreeRunInOneBlock(n, a, p, k - 1);
      FreeRunInOneBlock(n, a, p + Pow2(k - 1), k - 1);
      FreeHalvesAreOneBlock(n, a, p, k - 1);
    }
  }

  /** Two halves that each lie in one free block lie in the same one. */
  lemma FreeHalvesAreOneBlock(n: nat, a: seq<int>, p: nat, k: nat)
    requires Tiled(n, a) && Coalesced(n, a) && k < n && Aligned(p, k + 1) && p + Pow2(k) < |a|
    requires a[HeadOf(a, p)] >= k && Order(a[HeadOf(a, p)]) >= k
    requires a[HeadOf(a, p + Pow2(k))] >= k && Order(a[HeadOf(a, p + Pow2(k))]) >= k
    ensures Order(a[HeadOf(a, p)]) > k
  {
    Halves(p, k);
    var h, m := HeadOf(a, p), p + Pow2(k);
    var g := HeadOf(a, m);
    Cover(n, a, p);
    Cover(n, a, m);
    SwallowsInterval(n, a, h, p, k, p);
    if Order(a[g]) > k {
      SwallowsInterval(n, a, g, p, k + 1, m);
    } else {
      SwallowsInterval(n, a, g, m, k, m);
      assert !FreePair(n, a, p, k);
    }
  }

  ghost predicate SameUsedPages(n: nat, a: seq<int>, b: seq<int>)
    requires Tiled(n, a) && Tiled(n, b)
  {
    forall q {:trigger Used(n, a, q)} {:trigger Used(n, b, q)} :: 0 <= q < |a| ==> (Used(n, a, q) <==> Used(n, b, q))
  }

  /** The used pages determine the free blocks. */
  lemma CanonicalFreeBlocks(n: nat, a: seq<int>, b: seq<int>, p: nat)
    requires Tiled(n, a) && Coalesced(n, a) && Tiled(n, b) && Coalesced(n, b) && SameUsedPages(n, a, b)
    requires p < |a| && 0 <= a[p] <= n
    ensures b[p] == a[p]
  {
    var k := a[p];
    assert BlockAt(n, a, p);
    BlockPagesUse(n, a, p);
    FreeRunInOneBlock(n, b, p, k);
    var h := HeadOf(b, p);
    var j := b[h];
    Cover(n, b, p);
    BlockPagesUse(n, b, h);
    FreeRunInOneBlock(n, a, h, j);
    var g := HeadOf(a, h);
    Cover(n, a, h);
    SwallowsInterval(n, a, g, h, j, h);
    HeadOfBlock(n, a, g, p);
    HeadOfBlock(n, a, p, p);
    SwallowsInterval(n, b, h, p, k, p);
  }

  /** All pages of a block share the use that its head's tag records. */
  lemma BlockPagesUse(n: nat, a: seq<int>, p: nat)
    requires Tiled(n, a) && p < |a| && a[p] != EMPTY
    ensures p + Pow2(Order(a[p])) <= |a|
    ensures forall q {:trigger Used(n, a, q)} :: p <= q < p + Pow2(Order(a[p])) ==> (Used(n, a, q) <==> a[p] < 0)
  {
    assert BlockAt(n, a, p);
    forall q | p <= q < p + Pow2(Order(a[p])) ensures Used(n, a, q) <==> a[p] < 0 {
      HeadOfBlock(n, a, p, q);
    }
  }

  ghost predicate SameUsedTags(a: seq<int>, b: seq<int>) {
    |a| == |b| && forall q :: 0 <= q < |a| && (a[q] < 0 || b[q] < 0) ==> a[q] == b[q]
  }

  /** The used blocks determine the whole tag array. */
  lemma CanonicalTags(n: nat, a: seq<int>, b: seq<int>)
    requires Tiled(n, a) && Coalesced(n, a) && Tiled(n, b) && Coalesced(n, b) && SameUsedTags(a, b)
    ensures a == b
  {
    forall q | 0 <= q < |a| ensures Used(n, a, q) <==> Used(n, b, q) {
      Cover(n, a, q);
      Cover(n, b, q);
      if Used(n, a, q) {
        HeadOfBlock(n, b, HeadOf(a, q), q);
      }
      if Used(n, b, q) {
        HeadOfBlock(n, a, HeadOf(b, q), q);
      }
    }
    forall q | 0 <= q < |a| ensures a[q] == b[q] {
      if a[q] >= 0 && b[q] >= 0 && a[q] != b[q] {
        if a[q] != EMPTY {
          assert BlockAt(n, a, q);
          CanonicalFreeBlocks(n, a, b, q);
        } else {
          assert BlockAt(n, b, q);
          CanonicalFreeBlocks(n, b, a, q);
        }
      }
    }
  }

  // ----- how the tag changes affect coalescing

  lemma UsedNeedsNoBuddy(n: nat, a: seq<int>, p: nat, t: int)
    requires p < |a| && CoalescedBut(n, a, p) && t < 0
    ensures Coalesced(n, a[p := t])
  {
    var b := a[p := t];
    forall x: nat, k: nat ensures !FreePair(n, b, x, k) {
      assert FreePair(n, a, x, k) ==> p == x || p == x + Pow2(k);
    }
  }

  lemma CutKeepsCoalesced(n: nat, a: seq<int>, p: nat, k: nat, t: int)
    requires Coalesced(n, a) && Aligned(p, k + 1) && p + Pow2(k) < |a| && t < 0
    ensures Coalesced(n, a[p := t][p + Pow2(k) := k])
  {
    Halves(p, k);
    var b := a[p := t][p + Pow2(k) := k];
    forall x: nat, j: nat ensures !FreePair(n, b, x, j) {
      assert !FreePair(n, a, x, j);
    }
  }

  lemma HalvingKeepsCoalesced(n: nat, a: seq<int>, p: nat, k: nat, x: nat)
    requires CoalescedBut(n, a, p) && Aligned(p, k + 1) && p + Pow2(k) < |a| && (x == p || x == p + Pow2(k))
    ensures CoalescedBut(n, a[p := k][p + Pow2(k) := k], x)
  {
    var b := a[p := k][p + Pow2(k) := k];
    Halves(p, k);
    forall y: nat, j: nat | FreePair(n, b, y, j) ensures x == y || x == y + Pow2(j) {
      Halves(y, j);
      assert FreePair(n, a, y, j) ==> p == y || p == y + Pow2(j);
    }
  }

  lemma MergeKeepsCoalesced(n: nat, a: seq<int>, p: nat, k: nat, x: nat)
    requires n < EMPTY && CoalescedBut(n, a, x) && p + Pow2(k) < |a| && (x == p || x == p + Pow2(k))
    ensures CoalescedBut(n, a[p := k + 1][p + Pow2(k) := EMPTY], p)
  {
    var b := a[p := k + 1][p + Pow2(k) := EMPTY];
    forall y: nat, j: nat | FreePair(n, b, y, j) ensures p == y || p == y + Pow2(j) {
      assert FreePair(n, a, y, j) ==> x == y || x == y + Pow2(j);
    }
  }

  /** The page index of the buddy of block (p, k). */
  function BuddyOf(p: nat, k: nat): (r: int) {
    if p % Pow2(k + 1) == 0 then p + Pow2(k) else p - Pow2(k)
  }

  /** The buddy is the other half of the block's parent, and it is in memory. */
  lemma BuddyIsOtherHalf(n: nat, p: nat, k: nat)
    requires k < n && Aligned(p, k) && p < Pow2(n)
    ensures var b := BuddyOf(p, k);
            0 <= b < Pow2(n) && Aligned(if p < b then p else b, k + 1) &&
            (if p < b then b == p + Pow2(k) else p == b + Pow2(k))
  {
    AlignedIsMod(p, k + 1);
    if Aligned(p, k + 1) {
      FitsBelow(p, k + 1, n);
    } else {
      UpperHalf(p, k);
    }
  }

  lemma NoFreeBuddy(n: nat, a: seq<int>, p: nat, k: nat)
    requires |a| == Pow2(n) && p < |a| && Aligned(p, k) && CoalescedBut(n, a, p) && a[p] == k
    requires k < n ==> 0 <= BuddyOf(p, k) < |a| && a[BuddyOf(p, k)] != k
    ensures Coalesced(n, a)
  {
    AlignedIsMod(p, k + 1);
    forall y: nat, j: nat ensures !FreePair(n, a, y, j) {
      NoPairAt(n, a, p, k, y, j);
    }
  }

  lemma NoPairAt(n: nat, a: seq<int>, p: nat, k: nat, y: nat, j: nat)
    requires |a| == Pow2(n) && p < |a| && Aligned(p, k) && CoalescedBut(n, a, p) && a[p] == k
    requires k < n ==> 0 <= BuddyOf(p, k) < |a| && a[BuddyOf(p, k)] != k
    requires Aligned(p, k + 1) <==> p % Pow2(k + 1) == 0
    ensures !FreePair(n, a, y, j)
  {
    if Aligned(y, j + 1) {
      Halves(y, j);
    }
  }

  /** Emptying an aligned region into one block leaves the pairs outside it alone. */
  lemma ClearedKeepsCoalesced(n: nat, a: seq<int>, b: seq<int>, p: nat, k: nat)
    requires Coalesced(n, a) && |a| == |b| && n < EMPTY
    requires forall q :: 0 <= q < |a| && !InBlock(p, k, q) ==> a[q] == b[q]
    requires forall q :: 0 <= q < |a| && InBlock(p, k, q) && q != p ==> b[q] == EMPTY
    ensures CoalescedBut(n, b, p)
  {
    forall y: nat, j: nat | FreePair(n, b, y, j) ensures p == y || p == y + Pow2(j) {
      assert !FreePair(n, a, y, j);
    }
  }

  /** One free block covering all of memory. */
  lemma WholeMemoryFree(n: nat, a: seq<int>)
    requires n <= MAX_EXP && |a| == Pow2(n) && a[0] == n && forall q :: 0 < q < |a| ==> a[q] == EMPTY
    ensures Tiled(n, a) && Coalesced(n, a)
    ensures forall q :: 0 <= q < |a| ==> !Used(n, a, q)
  {
    ZeroAligned(n);
    assert BlockAt(n, a, 0);
    forall x: nat, k: nat ensures !FreePair(n, a, x, k) {
    }
    BlockPagesUse(n, a, 0);
  }

  /** b is a with the used block (p, o) shrunk to its first 2^k pages, the rest being free. */
  ghost predicate Shrunk(n: nat, a: seq<int>, b: seq<int>, p: nat, o: nat, k: nat) {
    && Tiled(n, a) && Tiled(n, b) && p < |a| && k <= o && b[p] == UsedTag(k)
    && (forall q :: 0 <= q < |a| && !InBlock(p, o, q) ==> b[q] == a[q])
    && (forall q :: 0 <= q < |a| && InBlock(p, o, q) && q != p ==> b[q] >= 0)
    && (forall q {:trigger Used(n, b, q)} :: 0 <= q < |a| ==>
                      (Used(n, b, q) <==> if InBlock(p, o, q) then InBlock(p, k, q) else Used(n, a, q)))
  }

  lemma ShrunkAlready(n: nat, a: seq<int>, p: nat, o: nat)
    requires Tiled(n, a) && p < |a| && o <= n && a[p] == UsedTag(o)
    ensures Shrunk(n, a, a, p, o, o)
  {
    assert BlockAt(n, a, p);
    BlockPagesUse(n, a, p);
  }

  lemma InHalves(p: nat, k: nat, q: int)
    ensures InBlock(p, k + 1, q) <==> InBlock(p, k, q) || InBlock(p + Pow2(k), k, q)
  {
  }

  /** Halving the block and then shrinking the lower half shrinks the block. */
  lemma ShrunkStep(n: nat, a: seq<int>, c: seq<int>, b: seq<int>, p: nat, o: nat, k: nat)
    requires Tiled(n, a) && p < |a| && 0 < o <= n && a[p] == UsedTag(o)
    requires p + Pow2(o - 1) < |a| && c == a[p := UsedTag(o - 1)][p + Pow2(o - 1) := o - 1]
    requires Shrunk(n, c, b, p, o - 1, k)
    ensures Shrunk(n, a, b, p, o, k)
  {
    ShrunkStepTags(n, a, c, b, p, o, k);
    Split(n, a, p, o - 1, UsedTag(o - 1), o - 1);
    forall q | 0 <= q < |a| ensures Used(n, b, q) <==> if InBlock(p, o, q) then InBlock(p, k, q) else Used(n, a, q) {
      InHalves(p, o - 1, q);
      Pow2Monotone(k, o - 1);
      assert Used(n, b, q) <==> if InBlock(p, o - 1, q) then InBlock(p, k, q) else Used(n, c, q);
    }
  }

  lemma ShrunkStepTags(n: nat, a: seq<int>, c: seq<int>, b: seq<int>, p: nat, o: nat, k: nat)
    requires Tiled(n, a) && p < |a| && 0 < o <= n && a[p] == UsedTag(o)
    requires p + Pow2(o - 1) < |a| && c == a[p := UsedTag(o - 1)][p + Pow2(o - 1) := o - 1]
    requires Shrunk(n, c, b, p, o - 1, k)
    ensures forall q :: 0 <= q < |a| && !InBlock(p, o, q) ==> b[q] == a[q]
    ensures forall q :: 0 <= q < |a| && InBlock(p, o, q) && q != p ==> b[q] >= 0
  {
    assert BlockAt(n, a, p);
    forall q | 0 <= q < |a|
      ensures !InBlock(p, o, q) ==> b[q] == a[q]
      ensures InBlock(p, o, q) && q != p ==> b[q] >= 0
    {
      InHalves(p, o - 1, q);
    }
  }
}
