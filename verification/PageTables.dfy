/**
 Translation tables in memory: v2p_trans, fill_page_table, page_table_fork and
 replace_page_entry over a store of tables that they update in place.
 */
module PageTables {
  import opened Common
  import opened PageWalk
  import opened PageFork
  import Dyadic

  // ----- what filling a range means

  /** A level-l table starts at page b. */
  ghost predicate StartsTable(b: nat, l: nat) {
    b % Span(l + 1) == 0
  }

  /** Page v is covered by a table that starts inside (s, e), where filling [s, e) crosses into it. */
  ghost predicate Crossed(s: nat, e: nat, v: nat) {
    exists b: nat, l: nat {:trigger StartsTable(b, l)} ::
      s < b < e && l <= PUD && StartsTable(b, l) && b <= v < b + Span(l + 1)
  }

  /** The descriptor that fill_page_table writes for frame f. */
  function LeafEntry(f: nat, attrs: nat, rdonly: bool): (e: Entry) {
    Entry(true, true, f, rdonly, attrs)
  }

  /** The test that fill_page_table makes for a boundary between pages s and s + 1. */
  predicate Crosses(s: nat, l: nat) {
    Idx(s, l) != 0 && Idx(s + 1, l) == 0
  }

  /** Moving to the next page increments the digits above level l only where a level-l table starts. */
  lemma Carry(s: nat, l: nat)
    requires l <= PUD
    ensures Shift(s + 1, l + 1) == Shift(s, l + 1) + (if StartsTable(s + 1, l) then 1 else 0)
    ensures StartsTable(s + 1, l) ==> (l == 0 || StartsTable(s + 1, l - 1))
  {
    ShiftIsDiv(s, l + 1);
    ShiftIsDiv(s + 1, l + 1);
    Dyadic.NextQuotient(s, Span(l + 1));
    if StartsTable(s + 1, l) {
      var q := (s + 1) / Span(l + 1);
      Dyadic.ExactQuotient(s + 1, Span(l + 1));
      assert s + 1 == Span(l) * (512 * q);
      Dyadic.DivModUnique(s + 1, Span(l), 512 * q, 0);
    }
  }

  /** The test is right: it holds exactly when a level-l table starts at s + 1. */
  lemma {:induction false} CrossesIsStart(s: nat, l: nat)
    requires l <= PUD
    ensures Crosses(s, l) <==> StartsTable(s + 1, l)
    ensures Crosses(s, l) ==> forall j: nat :: j <= l ==> Crosses(s, j)
    ensures !Crosses(s, l) ==> Prefix(s + 1, l) == Prefix(s, l)
  {
    Carry(s, l);
    if l == 0 {
      Spans();
    } else {
      Carry(s, l - 1);
      CrossesIsStart(s, l - 1);
    }
  }

  /** The pages that share a level-l table with its first page. */
  lemma TableRange(b: nat, l: nat, v: nat)
    requires l <= PUD && StartsTable(b, l)
    ensures Prefix(v, l) == Prefix(b, l) <==> b <= v < b + Span(l + 1)
  {
    Spans();
    ShiftIsDiv(b, l + 1);
    ShiftIsDiv(v, l + 1);
  }

  lemma CrossedStep(s: nat, e: nat, v: nat)
    requires s < e
    ensures Crossed(s, e + 1, v) <==>
            Crossed(s, e, v) || exists l: nat :: l <= PUD && StartsTable(e, l) && e <= v < e + Span(l + 1)
  {
    if Crossed(s, e + 1, v) && !Crossed(s, e, v) {
      var b: nat, l: nat :| s < b < e + 1 && l <= PUD && StartsTable(b, l) && b <= v < b + Span(l + 1);
      assert b == e;
    }
  }

  lemma FreshTable(m: Store)
    ensures exists t: nat :: t !in m
  {
    var t := Above(m.Keys);
    assert t !in m;
  }

  lemma FollowLink(m: Store, pl: Places, r: nat, tab: seq<nat>, v: nat, k: nat, t: nat)
    requires Wf(m, pl, {}) && k < PGD && Path(m, pl, r, tab, v, k + 1)
    requires m[tab[k + 1]][Idx(v, k + 1)].valid && t == m[tab[k + 1]][Idx(v, k + 1)].frame
    ensures Path(m, pl, r, tab[k := t], v, k)
  {
    var tab' := tab[k := t];
    NextOnWalk(m, pl, {}, tab[k + 1], r, k + 1, v);
    forall j: nat | k <= j < PGD ensures LinkDown(m, tab', v, j) {
      assert j > k ==> LinkDown(m, tab, v, j);
    }
    forall j: nat | k <= j <= PGD ensures tab'[j] in m && OnWalk(pl, tab'[j], r, j, v) {
      assert j > k ==> OnWalk(pl, tab[j], r, j, v);
    }
  }

  /** With no table linked, the pages it would cover are not mapped. */
  lemma MissingLink(m: Store, pl: Places, r: nat, tab: seq<nat>, v: nat, k: nat)
    requires k < PGD && Path(m, pl, r, tab, v, k + 1) && !m[tab[k + 1]][Idx(v, k + 1)].valid
    ensures forall w: nat {:trigger Trans(m, r, w)} :: Prefix(w, k) == Prefix(v, k) ==> Trans(m, r, w) == None
  {
    forall w: nat | Prefix(w, k) == Prefix(v, k) ensures Trans(m, r, w) == None {
      SamePrefixAbove(v, w, k, k + 1);
      PathWalk(m, pl, r, tab, v, k + 1, w);
    }
  }

  /** Page w is covered by a table of level k or higher that starts at page b. */
  ghost predicate StartedAt(b: nat, k: nat, w: nat) {
    exists l: nat {:trigger StartsTable(b, l)} :: k <= l <= PUD && StartsTable(b, l) && b <= w < b + Span(l + 1)
  }

  lemma StartedStep(b: nat, k: nat)
    requires k <= PUD
    ensures forall w: nat {:trigger StartedAt(b, k, w)} ::
              StartedAt(b, k, w) <==> StartedAt(b, k + 1, w) || (StartsTable(b, k) && Prefix(w, k) == Prefix(b, k))
  {
    forall w: nat
      ensures StartedAt(b, k, w) <==> StartedAt(b, k + 1, w) || (StartsTable(b, k) && Prefix(w, k) == Prefix(b, k))
    {
      if StartsTable(b, k) {
        TableRange(b, k, w);
      }
    }
  }

  lemma PathStart(m: Store, pl: Places, r: nat, tab: seq<nat>, s: nat)
    requires Path(m, pl, r, tab, s, PTE) && IsRoot(pl, r) && s + 1 < PAGES
    ensures Path(m, pl, r, tab, s + 1, PGD)
  {
    RootOnWalk(pl, r, s + 1);
  }

  /** Where no boundary is crossed, the next page is reached through the same table. */
  lemma KeepLink(m: Store, pl: Places, r: nat, tab: seq<nat>, s: nat, v: nat, k: nat)
    requires v == s + 1 && k < PGD && Path(m, pl, r, tab, s, PTE) && Path(m, pl, r, tab, v, k + 1) && !Crosses(s, k)
    ensures Path(m, pl, r, tab, v, k)
  {
    CrossesIsStart(s, k);
    SamePrefixAbove(s, v, k, k + 1);
    assert LinkDown(m, tab, s, k);
    assert OnWalk(pl, tab[k], r, k, s);
    forall j: nat | k <= j < PGD ensures LinkDown(m, tab, v, j) {
      assert j > k ==> LinkDown(m, tab, v, j);
    }
  }

  /** How page w translates after [s, e) is mapped to consecutive frames from pa, if it translated to before. */
  ghost function Filled(s: nat, e: nat, pa: nat, attrs: nat, rdonly: bool, w: nat,
                        before: Option<Entry>): (r: Option<Entry>) {
    if s <= w < e then Some(LeafEntry(pa + (w - s), attrs, rdonly))
    else if Crossed(s, e, w) then None
    else before
  }

  /** The pages below c are written, and the tables that start at or below c are linked. */
  ghost function Partly(s: nat, c: nat, pa: nat, attrs: nat, rdonly: bool, w: nat,
                        before: Option<Entry>): (r: Option<Entry>) {
    if s <= w < c then Some(LeafEntry(pa + (w - s), attrs, rdonly))
    else if Crossed(s, c + 1, w) then None
    else before
  }

  /** Writing page c and then crossing to c + 1 extends the filled range by one page. */
  lemma PartlyStep(s: nat, c: nat, pa: nat, attrs: nat, rdonly: bool, w: nat, before: Option<Entry>)
    requires s <= c
    ensures var written := if w == c then Some(LeafEntry(pa + (c - s), attrs, rdonly))
                           else Partly(s, c, pa, attrs, rdonly, w, before);
            Partly(s, c + 1, pa, attrs, rdonly, w, before) == if StartedAt(c + 1, PTE, w) then None else written
  {
    CrossedStep(s, c + 1, w);
    if StartedAt(c + 1, PTE, w) {
      var l: nat :| l <= PUD && StartsTable(c + 1, l) && c + 1 <= w < c + 1 + Span(l + 1);
    }
  }

  lemma PartlyDone(s: nat, c: nat, e: nat, pa: nat, attrs: nat, rdonly: bool, w: nat, before: Option<Entry>)
    requires s <= c && (c + 1 == e || (c == s && e <= s))
    ensures var written := if w == c && c < e then Some(LeafEntry(pa + (c - s), attrs, rdonly))
                           else Partly(s, c, pa, attrs, rdonly, w, before);
            Filled(s, e, pa, attrs, rdonly, w, before) == written
  {
  }

  /**
   Filling [s, e) leaves every other page alone exactly when no page past e that shares a
   table with a boundary crossed on the way was mapped: such a table is replaced, not reused.
   */
  lemma FillKeepsOthersIff(s: nat, e: nat, pa: nat, attrs: nat, rdonly: bool, before: nat -> Option<Entry>)
    ensures (forall w: nat :: w < PAGES && !(s <= w < e) ==> Filled(s, e, pa, attrs, rdonly, w, before(w)) == before(w))
            <==>
            (forall w: nat :: w < PAGES && e <= w && Crossed(s, e, w) ==> before(w) == None)
  {
    forall w: nat | w < s ensures !Crossed(s, e, w) {
    }
  }

  /** Page 513 is lost by mapping pages 511 and 512, which crosses into its table. */
  lemma FillLosesNeighbour(pa: nat, attrs: nat, e: Entry)
    ensures Filled(511, 513, pa, attrs, false, 513, Some(e)) == None
  {
    Spans();
    assert StartsTable(512, 0);
  }

  ghost predicate WholeFork(job: Job, m0: Store, m1: Store, pl0: Places, pl1: Places) {
    && Wf(m0, pl0, {}) && IsRoot(pl0, job.src) && job.dst !in m0
    && job == Job(job.ram, job.src, job.dst, job.src, job.dst, PGD, 0)
    && m1 == m0[job.dst := ZeroTable()] && pl1 == pl0[job.dst := Place(job.dst, PGD, 0)]
  }

  lemma ForkSeen(job: Job, m0: Store, m1: Store, m: Store, pl0: Places, pl1: Places, pl: Places)
    requires WholeFork(job, m0, m1, pl0, pl1) && Done(job, m1, m, pl1, pl, {job.dst})
    ensures forall w {:trigger Trans(m, job.src, w)} {:trigger Trans(m, job.dst, w)} :: 0 <= w < PAGES ==>
              Trans(m, job.src, w) == Trans(m, job.dst, w) == Forked(job.ram, Trans(m0, job.src, w))
    ensures forall x, w {:trigger Trans(m, x, w)} :: IsRoot(pl0, x) && x != job.src && 0 <= w < PAGES ==>
              Trans(m, x, w) == Trans(m0, x, w)
  {
    forall w | 0 <= w < PAGES
      ensures Trans(m, job.src, w) == Trans(m, job.dst, w) == Forked(job.ram, Trans(m0, job.src, w))
    {
      RootOnWalk(pl0, job.src, w);
      AddTableFrame(m0, pl0, {}, job.dst, ZeroTable(), job.src, job.src, PGD, w);
      assert Walk(m, job.src, job.level, w) == Forked(job.ram, Walk(m1, job.src, job.level, w));
      assert Walk(m, job.dst, job.level, w) == Forked(job.ram, Walk(m1, job.src, job.level, w));
    }
    forall x, w | IsRoot(pl0, x) && x != job.src && 0 <= w < PAGES ensures Trans(m, x, w) == Trans(m0, x, w) {
      RootOnWalk(pl0, x, w);
      AddTableFrame(m0, pl0, {}, job.dst, ZeroTable(), x, x, PGD, w);
      KeptWalk(m1, m, pl1, {job.dst}, job.srcRoot, PGD, 0, job.dst, x, x, PGD, w);
    }
  }

  lemma ForkRecorded(job: Job, m0: Store, m1: Store, pl0: Places, w0: set<nat>, w1: set<nat>)
    requires WholeFork(job, m0, m1, pl0, pl0[job.dst := Place(job.dst, PGD, 0)])
    requires Recorded(job, m1, w0, w1, NUM_PT_ENTRIES)
    ensures w0 <= w1
    ensures forall w :: 0 <= w < PAGES && WasWritable(job.ram, Trans(m0, job.src, w)) ==>
            Trans(m0, job.src, w).value.frame in w1
    ensures forall f :: f in w1 ==> f in w0 || f == 0 ||
                                    exists w: nat :: WasWritable(job.ram, Trans(m0, job.src, w))
                                      && Trans(m0, job.src, w).value.frame == f
  {
    forall w: nat | w < PAGES ensures Prefix(w, PGD) == 0 && Walk(m1, job.src, PGD, w) == Trans(m0, job.src, w) {
      RootOnWalk(pl0, job.src, w);
      AddTableFrame(m0, pl0, {}, job.dst, ZeroTable(), job.src, job.src, PGD, w);
    }
    forall w: nat | w < PAGES && WasWritable(job.ram, Trans(m0, job.src, w))
      ensures Trans(m0, job.src, w).value.frame in w1 {
      assert Witness(job, m1, w, NUM_PT_ENTRIES, Trans(m0, job.src, w).value.frame);
    }
    forall f | f in w1 && f !in w0 && f != 0
      ensures exists w: nat :: WasWritable(job.ram, Trans(m0, job.src, w)) && Trans(m0, job.src, w).value.frame == f
    {
      var v: nat :| Witness(job, m1, v, NUM_PT_ENTRIES, f);
      ShiftIsDiv(v, 4);
      Spans();
      assert WasWritable(job.ram, Trans(m0, job.src, v)) && Trans(m0, job.src, v).value.frame == f;
    }
  }

  /** All that linking a fresh table changes. */
  lemma LinkedState(m: Store, m': Store, pl: Places, r: nat, tab: seq<nat>, v: nat, k: nat, t: nat)
    requires Wf(m, pl, {}) && IsRoot(pl, r) && k < PGD && Path(m, pl, r, tab, v, k + 1) && t !in m
    requires m' == Linked(m, tab[k + 1], Idx(v, k + 1), t)
    ensures var pl' := pl[t := Place(r, k, Prefix(v, k))];
            Wf(m', pl', {}) && Extends(pl, pl') && Path(m', pl', r, tab[k := t], v, k)
    ensures forall x, w {:trigger Trans(m', x, w)} :: IsRoot(pl, x) && 0 <= w < PAGES ==>
              Trans(m', x, w) == if x == r && Prefix(w, k) == Prefix(v, k) then None else Trans(m, x, w)
  {
    LinkPath(m, pl, r, tab, v, k, t);
    PrefixStep(v, k + 1);
    assert OnWalk(pl, tab[k + 1], r, k + 1, v);
    LinkKeepsWf(m, pl, tab[k + 1], Idx(v, k + 1), t);
    forall x, w | IsRoot(pl, x) && 0 <= w < PAGES
      ensures Trans(m', x, w) == if x == r && Prefix(w, k) == Prefix(v, k) then None else Trans(m, x, w)
    {
      LinkTrans(m, pl, r, tab, v, k, t, x, w);
    }
  }

  class Tables {
    var m: Store
    var wperm: set<nat>     // pages whose w_permission is set
    ghost var pl: Places

    ghost predicate Valid()
      reads this
    {
      Wf(m, pl, {})
    }

    constructor ()
      ensures Valid() && m == map[] && pl == map[] && wperm == {}
    {
      m, pl, wperm := map[], map[], {};
    }

    /** init_ttbr: a zeroed root table, which translates nothing. */
    method NewRoot() returns (r: nat)
      requires Valid()
      modifies this`m, this`pl
      ensures Valid() && Extends(old(pl), pl) && r !in old(m) && IsRoot(pl, r)
      ensures forall w {:trigger Trans(m, r, w)} :: 0 <= w < PAGES ==> Trans(m, r, w) == None
      ensures forall x, w {:trigger Trans(m, x, w)} :: IsRoot(old(pl), x) && 0 <= w < PAGES ==>
                Trans(m, x, w) == Trans(old(m), x, w)
    {
      FreshTable(m);
      r :| r !in m;
      AddTable(m, pl, {}, r, Place(r, PGD, 0));
      forall x, w | IsRoot(pl, x) && 0 <= w < PAGES ensures Trans(m[r := ZeroTable()], x, w) == Trans(m, x, w) {
        RootOnWalk(pl, x, w);
        AddTableFrame(m, pl, {}, r, ZeroTable(), x, x, PGD, w);
      }
      m := m[r := ZeroTable()];
      pl := pl[r := Place(r, PGD, 0)];
    }

    /** Allocate a zeroed table for level k and link it on the walk of page v. */
    method LinkNew(r: nat, tab: seq<nat>, v: nat, k: nat) returns (t: nat)
      requires Valid() && IsRoot(pl, r) && k < PGD && Path(m, pl, r, tab, v, k + 1)
      modifies this`m, this`pl
      ensures Valid() && Extends(old(pl), pl) && t !in old(m) && Path(m, pl, r, tab[k := t], v, k)
      ensures forall x, w {:trigger Trans(m, x, w)} :: IsRoot(old(pl), x) && 0 <= w < PAGES ==>
                Trans(m, x, w) == if x == r && Prefix(w, k) == Prefix(v, k) then None else Trans(old(m), x, w)
    {
      FreshTable(m);
      t :| t !in m;
      ghost var m0, pl0 := m, pl;
      m := m[t := ZeroTable()];
      m := m[tab[k + 1] := m[tab[k + 1]][Idx(v, k + 1) := LinkEntry(t)]];
      pl := pl[t := Place(r, k, Prefix(v, k))];
      LinkedState(m0, m, pl0, r, tab, v, k, t);
    }

    /** The first loop of fill_page_table: find or create the tables on the walk of page v. */
    method Descend(r: nat, v: nat) returns (tab: seq<nat>)
      requires Valid() && IsRoot(pl, r) && v < PAGES
      modifies this`m, this`pl
      ensures Valid() && Extends(old(pl), pl) && Path(m, pl, r, tab, v, PTE)
      ensures forall x, w {:trigger Trans(m, x, w)} :: IsRoot(old(pl), x) && 0 <= w < PAGES ==>
                Trans(m, x, w) == Trans(old(m), x, w)
    {
      tab := [0, 0, 0, r];
      RootOnWalk(pl, r, v);
      var k: nat := PGD;
      while k > PTE
        invariant k <= PGD && Valid() && Extends(old(pl), pl) && IsRoot(pl, r) && Path(m, pl, r, tab, v, k)
        invariant forall x, w {:trigger Trans(m, x, w)} :: IsRoot(old(pl), x) && 0 <= w < PAGES ==>
                    Trans(m, x, w) == Trans(old(m), x, w)
      {
        ghost var m1, pl1 := m, pl;
        var entry := m[tab[k]][Idx(v, k)];
        if entry.valid {
          FollowLink(m, pl, r, tab, v, k - 1, entry.frame);
          tab := tab[k - 1 := entry.frame];
        } else {
          MissingLink(m, pl, r, tab, v, k - 1);
          var t := LinkNew(r, tab, v, k - 1);
          tab := tab[k - 1 := t];
          assert forall x {:trigger IsRoot(pl1, x)} :: IsRoot(old(pl), x) ==> IsRoot(pl1, x);
          assert forall x, w {:trigger Trans(m, x, w)} :: IsRoot(old(pl), x) && 0 <= w < PAGES ==>
              IsRoot(pl1, x) && Trans(m, x, w) == Trans(m1, x, w);
        }
        k := k - 1;
      }
    }

    /** The boundary loop of fill_page_table: link fresh tables wherever page s + 1 starts one. */
    method CrossTo(r: nat, tab0: seq<nat>, s: nat) returns (tab: seq<nat>)
      requires Valid() && IsRoot(pl, r) && s + 1 < PAGES && Path(m, pl, r, tab0, s, PTE)
      modifies this`m, this`pl
      ensures Valid() && Extends(old(pl), pl) && Path(m, pl, r, tab, s + 1, PTE)
      ensures forall x, w {:trigger Trans(m, x, w)} :: IsRoot(old(pl), x) && 0 <= w < PAGES ==>
                Trans(m, x, w) == if x == r && StartedAt(s + 1, PTE, w) then None else Trans(old(m), x, w)
    {
      tab := tab0;
      RootOnWalk(pl, r, s + 1);
      var k: nat := PGD;
      ghost var crossed := false;
      PathStart(m, pl, r, tab, s);
      while k > PTE
        invariant k <= PGD && Valid() && Extends(old(pl), pl) && IsRoot(pl, r) && Path(m, pl, r, tab, s + 1, k)
        invariant if crossed then forall j: nat :: j < k ==> Crosses(s, j)
                  else m == old(m) && pl == old(pl) && tab == tab0
        invariant forall x, w {:trigger Trans(m, x, w)} :: IsRoot(old(pl), x) && 0 <= w < PAGES ==>
                    Trans(m, x, w) == if x == r && StartedAt(s + 1, k, w) then None else Trans(old(m), x, w)
      {
        ghost var m1, pl1 := m, pl;
        CrossesIsStart(s, k - 1);
        StartedStep(s + 1, k - 1);
        if Crosses(s, k - 1) {
          var t := LinkNew(r, tab, s + 1, k - 1);
          tab := tab[k - 1 := t];
          crossed := true;
          assert forall x {:trigger IsRoot(pl1, x)} :: IsRoot(old(pl), x) ==> IsRoot(pl1, x);
        } else {
          KeepLink(m, pl, r, tab, s, s + 1, k - 1);
        }
        k := k - 1;
      }
    }

    /** One leaf of fill_page_table. */
    method WriteLeaf(r: nat, ghost tab: seq<nat>, v: nat, t: nat, entry: Entry)
      requires Valid() && IsRoot(pl, r) && Path(m, pl, r, tab, v, PTE) && t == tab[PTE] && entry.valid
      modifies this`m
      ensures Valid() && Path(m, pl, r, tab, v, PTE)
      ensures forall x, w {:trigger Trans(m, x, w)} :: IsRoot(pl, x) && 0 <= w < PAGES ==>
                Trans(m, x, w) == if x == r && w == v then Some(entry) else Trans(old(m), x, w)
    {
      assert OnWalk(pl, t, r, PTE, v);
      WriteKeepsWf(m, pl, {}, t, Idx(v, PTE), entry);
      LeafPath(m, pl, r, tab, v, entry);
      ghost var m0 := m;
      m := m[t := m[t][Idx(v, PTE) := entry]];
      forall x, w | IsRoot(pl, x) && 0 <= w < PAGES
        ensures Trans(m, x, w) == if x == r && w == v then Some(entry) else Trans(m0, x, w)
      {
        LeafTrans(m0, pl, r, tab, v, entry, x, w);
      }
    }

    /** fill_page_table: map pages [s, e) of address space r to consecutive frames from pa. */
    method Fill(r: nat, s: nat, e: nat, pa: nat, attrs: nat, rdonly: bool)
      requires Valid() && IsRoot(pl, r) && s < PAGES && e <= PAGES
      modifies this`m, this`pl
      ensures Valid() && Extends(old(pl), pl)
      ensures forall x, w {:trigger Trans(m, x, w)} :: IsRoot(old(pl), x) && 0 <= w < PAGES ==>
                Trans(m, x, w) ==
                if x == r then Filled(s, e, pa, attrs, rdonly, w, Trans(old(m), x, w)) else Trans(old(m), x, w)
    {
      var tab := Descend(r, s);
      var c := s;
      while c < e
        invariant s <= c < PAGES && (c == s || c < e) && Valid() && Extends(old(pl), pl) && Path(m, pl, r, tab, c, PTE)
        invariant forall x, w {:trigger Trans(m, x, w)} :: IsRoot(old(pl), x) && 0 <= w < PAGES ==>
                    Trans(m, x, w) ==
                    if x == r then Partly(s, c, pa, attrs, rdonly, w, Trans(old(m), x, w)) else Trans(old(m), x, w)
        decreases e - c
      {
        var entry := LeafEntry(pa + (c - s), attrs, rdonly);
        if c + 1 == e {
          WriteLeaf(r, tab, c, tab[PTE], entry);
          forall x, w | IsRoot(old(pl), x) && 0 <= w < PAGES
            ensures x == r ==> Trans(m, x, w) == Filled(s, e, pa, attrs, rdonly, w, Trans(old(m), x, w))
          {
            PartlyDone(s, c, e, pa, attrs, rdonly, w, Trans(old(m), x, w));
          }
          return;
        }
        ghost var m1 := m;
        tab := Advance(r, tab, c, entry);
        forall x, w | IsRoot(old(pl), x) && 0 <= w < PAGES
          ensures x == r ==> Trans(m, x, w) == Partly(s, c + 1, pa, attrs, rdonly, w, Trans(old(m), x, w))
        {
          PartlyStep(s, c, pa, attrs, rdonly, w, Trans(old(m), x, w));
        }
        c := c + 1;
      }
      forall x, w | IsRoot(old(pl), x) && 0 <= w < PAGES
        ensures x == r ==> Trans(m, x, w) == Filled(s, e, pa, attrs, rdonly, w, Trans(old(m), x, w))
      {
        PartlyDone(s, c, e, pa, attrs, rdonly, w, Trans(old(m), x, w));
      }
    }

    /** Write the leaf of page c and move on to page c + 1. */
    method Advance(r: nat, tab0: seq<nat>, c: nat, entry: Entry) returns (tab: seq<nat>)
      requires Valid() && IsRoot(pl, r) && c + 1 < PAGES && Path(m, pl, r, tab0, c, PTE) && entry.valid
      modifies this`m, this`pl
      ensures Valid() && Extends(old(pl), pl) && Path(m, pl, r, tab, c + 1, PTE)
      ensures forall x, w {:trigger Trans(m, x, w)} :: IsRoot(old(pl), x) && 0 <= w < PAGES ==>
                Trans(m, x, w) ==
                if x == r && StartedAt(c + 1, PTE, w) then None
                else if x == r && w == c then Some(entry)
                else Trans(old(m), x, w)
    {
      WriteLeaf(r, tab0, c, tab0[PTE], entry);
      tab := CrossTo(r, tab0, c);
    }

    /** The walk shared by v2p_trans and replace_page_entry: the table and level where page v's lookup ends. */
    method FindLeaf(r: nat, v: nat) returns (found: bool, t: nat, l: nat, ghost tab: seq<nat>)
      requires Valid() && IsRoot(pl, r) && v < PAGES
      ensures found ==> l == PTE && Path(m, pl, r, tab, v, PTE) && tab[PTE] == t && m[t][Idx(v, l)].valid
      ensures Trans(m, r, v) == if found then Some(m[t][Idx(v, l)]) else None
    {
      t, l := r, PGD;
      tab := [0, 0, 0, r];
      RootOnWalk(pl, r, v);
      while true
        invariant l <= PGD && Path(m, pl, r, tab, v, l) && tab[l] == t
        decreases l
      {
        PathWalk(m, pl, r, tab, v, l, v);
        assert t in m;
        var entry := m[t][Idx(v, l)];
        if !entry.valid {
          return false, t, l, tab;
        }
        if l > 0 {
          NextOnWalk(m, pl, {}, t, r, l, v);
        }
        if !entry.table || l == PTE {
          return true, t, l, tab;
        }
        FollowLink(m, pl, r, tab, v, l - 1, entry.frame);
        tab := tab[l - 1 := entry.frame];
        t, l := entry.frame, l - 1;
      }
    }

    /** v2p_trans: the physical page of virtual page v, or None for NULL. */
    method Translate(r: nat, v: nat) returns (page: Option<nat>)
      requires Valid() && IsRoot(pl, r) && v < PAGES
      ensures page == match Trans(m, r, v) case None => None case Some(e) => Some(e.frame)
    {
      var found, t, l;
      ghost var tab;
      found, t, l, tab := FindLeaf(r, v);
      if !found {
        return None;
      }
      return Some(m[t][Idx(v, l)].frame + v % Span(l));
    }

    /** v2p_trans for a user address: the frame of its page, and the same offset in it. */
    method TranslateAddress(r: nat, addr: nat) returns (pa: Option<nat>)
      requires Valid() && IsRoot(pl, r) && addr < PAGES * PAGE_SIZE
      ensures match Trans(m, r, addr / PAGE_SIZE)
              case None => pa == None
              case Some(e) => pa.Some? && pa.value / PAGE_SIZE == e.frame && pa.value % PAGE_SIZE == addr % PAGE_SIZE
    {
      var page := Translate(r, addr / PAGE_SIZE);
      match page {
        case None => return None;
        case Some(f) => return Some(f * PAGE_SIZE + addr % PAGE_SIZE);
      }
    }

    /** replace_page_entry: give a mapped page another frame and permission; leave an unmapped page alone. */
    method Replace(r: nat, v: nat, f: nat, w: bool)
      requires Valid() && IsRoot(pl, r) && v < PAGES
      modifies this`m
      ensures Valid()
      ensures forall x, u {:trigger Trans(m, x, u)} :: IsRoot(pl, x) && 0 <= u < PAGES ==>
                Trans(m, x, u) ==
                if x == r && u == v && Trans(old(m), r, v).Some?
                then Some(Trans(old(m), r, v).value.(frame := f, rdonly := !w))
                else Trans(old(m), x, u)
    {
      var found, t, l;
      ghost var tab;
      found, t, l, tab := FindLeaf(r, v);
      if !found {
        return;
      }
      WriteLeaf(r, tab, v, t, m[t][Idx(v, l)].(rdonly := !w, frame := f));
    }

    /** page_table_fork: copy the level-l table src, and all below it, into the fresh table dst. */
    method ForkTable(dst: nat, src: nat, l: nat, ram: nat, ghost job: Job, ghost raw: set<nat>)
      requires job.ram == ram && job.src == src && job.dst == dst && job.level == l
      requires JobOk(job, pl, raw) && Wf(m, pl, raw)
      modifies this
      ensures Done(job, old(m), m, old(pl), pl, raw)
      ensures Recorded(job, old(m), old(wperm), wperm, NUM_PT_ENTRIES)
      decreases l, 3
    {
      ghost var m0, pl0, w0 := m, pl, wperm;
      StartCopy(job, m0, pl0, raw);
      RecordStart(job, m0, w0);
      CopyEntries(dst, src, l, ram, job, raw, m0, pl0, w0);
      FinishCopy(job, m0, m, pl0, pl, raw);
    }

    /** The loop of page_table_fork over the entries of a table. */
    method CopyEntries(dst: nat, src: nat, l: nat, ram: nat, ghost job: Job, ghost raw: set<nat>,
                       ghost m0: Store, ghost pl0: Places, ghost w0: set<nat>)
      requires job.ram == ram && job.src == src && job.dst == dst && job.level == l && Given(job, m0, pl0, raw)
      requires Upto(job, m0, m, pl0, pl, raw, 0) && Recorded(job, m0, w0, wperm, 0)
      modifies this
      ensures Upto(job, m0, m, pl0, pl, raw, NUM_PT_ENTRIES) && Recorded(job, m0, w0, wperm, NUM_PT_ENTRIES)
      decreases l, 2
    {
      var i := 0;
      ghost var m1, pl1, w1 := m, pl, wperm;
      while i < NUM_PT_ENTRIES
        invariant i <= NUM_PT_ENTRIES && m == m1 && pl == pl1 && wperm == w1
        invariant Upto(job, m0, m1, pl0, pl1, raw, i) && Recorded(job, m0, w0, w1, i)
      {
        CopyEntry(dst, src, l, i, ram, job, raw, m0, pl0, w0);
        i, m1, pl1, w1 := i + 1, m, pl, wperm;
      }
    }

    /** One turn of the loop of page_table_fork. */
    method CopyEntry(dst: nat, src: nat, l: nat, i: nat, ram: nat, ghost job: Job, ghost raw: set<nat>,
                     ghost m0: Store, ghost pl0: Places, ghost w0: set<nat>)
      requires job.ram == ram && job.src == src && job.dst == dst && job.level == l && i < NUM_PT_ENTRIES
      requires Given(job, m0, pl0, raw) && Upto(job, m0, m, pl0, pl, raw, i) && Recorded(job, m0, w0, wperm, i)
      modifies this
      ensures Upto(job, m0, m, pl0, pl, raw, i + 1) && Recorded(job, m0, w0, wperm, i + 1)
      decreases l, 1
    {
      ghost var m1, pl1, w1 := m, pl, wperm;
      var entry := m[src][i];
      if l != PTE && (entry.valid || entry.table) {
        assert pl[src] == pl0[src];
        assert EntryOk(pl, raw, pl[src], i, entry);
        ghost var n, junk := ForkChild(dst, src, l, i, ram, job, raw, m0, pl0);
        RecordTable(job, m0, m1, pl0, pl1, raw, i, n, junk, w0, w1, wperm);
        TableStep(job, m0, m1, m, pl0, pl1, pl, raw, i, n, junk);
      } else {
        LeafStep(job, m0, m1, pl0, pl1, raw, i);
        CopyLeaf(dst, src, i, ram, job);
        RecordLeaf(job, m0, m1, pl0, pl1, raw, i, w0, w1, wperm);
      }
    }

    /** The block-or-page branch of page_table_fork. */
    method CopyLeaf(dst: nat, src: nat, i: nat, ram: nat, ghost job: Job)
      requires job.ram == ram && job.src == src && job.dst == dst
      requires src in m && dst in m && src != dst && i < NUM_PT_ENTRIES
      modifies this`m, this`wperm
      ensures m == LeafCopied(job, old(m), i)
      ensures var e := old(m)[src][i];
              wperm == if e.frame < ram && !e.rdonly then old(wperm) + {e.frame} else old(wperm)
    {
      var page := m[src][i].frame;
      if page < ram {
        if !m[src][i].rdonly {
          wperm := wperm + {page};
        }
        m := m[src := m[src][i := m[src][i].(rdonly := true)]];
      } else {
        assert m[src][i := m[src][i]] == m[src];
      }
      m := m[dst := m[dst][i := m[src][i]]];
    }

    /** The table branch of page_table_fork: a fresh table, not cleared, linked and then filled recursively. */
    method ForkChild(dst: nat, src: nat, l: nat, i: nat, ram: nat, ghost job: Job, ghost raw: set<nat>,
                     ghost m0: Store, ghost pl0: Places) returns (ghost n: nat, ghost junk: Table)
      requires job.ram == ram && job.src == src && job.dst == dst && job.level == l > 0
      requires Copied(job, m0, m, pl0, pl, raw, i) && i < NUM_PT_ENTRIES && m[src][i].valid
      modifies this
      ensures ChildDone(job, m0, old(m), m, pl0, old(pl), pl, raw, i, n, junk)
      ensures Recorded(ChildJob(job, old(m), i, n), ChildLinked(job, old(m), i, n, junk), old(wperm), wperm,
              NUM_PT_ENTRIES)
      decreases l, 0
    {
      var child := m[src][i].frame;
      FreshTable(m);
      var t :| t !in m;
      var contents: Table := *;
      n, junk := t, contents;
      TableStepStart(job, m0, m, pl0, pl, raw, i, t, contents);
      ghost var cj := ChildJob(job, m, i, t);
      m := m[t := contents];
      m := m[dst := m[dst][i := LinkEntry(t)]];
      pl := pl[t := Place(job.dstRoot, l - 1, job.prefix * 512 + i)];
      ForkTable(t, child, l - 1, ram, cj, raw + {t});
    }

    /** The address-space part of fork: a new root whose tables are a copy of those of src. */
    method ForkSpace(src: nat, ram: nat) returns (dst: nat)
      requires Valid() && IsRoot(pl, src)
      modifies this
      ensures Valid() && Extends(old(pl), pl) && dst !in old(m) && IsRoot(pl, dst)
      ensures forall t :: t in pl && t !in old(pl) ==> pl[t].root == dst
      ensures forall w {:trigger Trans(m, src, w)} {:trigger Trans(m, dst, w)} :: 0 <= w < PAGES ==>
                Trans(m, src, w) == Trans(m, dst, w) == Forked(ram, Trans(old(m), src, w))
      ensures forall w {:trigger Trans(m, src, w)} {:trigger Trans(m, dst, w)} :: 0 <= w < PAGES ==>
                match Trans(old(m), src, w)
                case None => Trans(m, src, w) == Trans(m, dst, w) == None
                case Some(e) => Trans(m, src, w) == Trans(m, dst, w) == Some(e.(rdonly := e.rdonly || e.frame < ram))
      ensures forall x, w {:trigger Trans(m, x, w)} :: IsRoot(old(pl), x) && x != src && 0 <= w < PAGES ==>
                Trans(m, x, w) == Trans(old(m), x, w)
      ensures old(wperm) <= wperm
      ensures forall w :: 0 <= w < PAGES && WasWritable(ram, Trans(old(m), src, w)) ==>
              Trans(old(m), src, w).value.frame in wperm
      ensures forall f :: f in wperm ==> f in old(wperm) || f == 0 ||
                                         exists w: nat :: WasWritable(ram, Trans(old(m), src, w))
                                           && Trans(old(m), src, w).value.frame == f
    {
      FreshTable(m);
      dst :| dst !in m;
      ghost var m0, pl0 := m, pl;
      AddRaw(m, pl, {}, dst, Place(dst, PGD, 0), ZeroTable());
      m := m[dst := ZeroTable()];
      pl := pl[dst := Place(dst, PGD, 0)];
      ghost var m1, pl1, w1 := m, pl, wperm;
      ghost var job := Job(ram, src, dst, src, dst, PGD, 0);
      assert {} + {dst} == {dst};
      ForkTable(dst, src, PGD, ram, job, {dst});
      assert {dst} - {dst} == {};
      ForkSeen(job, m0, m1, m, pl0, pl1, pl);
      ForkRecorded(job, m0, m1, pl0, w1, wperm);
    }
  }
}
