/**
 Four-level translation tables as values: a store of 512-entry tables, and the walk that
 a virtual page number takes through them. The layout is the 4KB-granule, 48-bit scheme
 of the Arm Architecture Reference Manual for A-profile ("The AArch64 Virtual Memory
 System Architecture").

 A descriptor is kept as its fields: bit 0 (valid), bit 1 (table), bits 47-12 (frame),
 bit 7 (read-only), and the remaining attribute bits as one number.
 */
module PageWalk {
  import opened Common

  const NUM_PT_ENTRIES: nat := 512
  const PTE: nat := 0
  const PUD: nat := 2
  const PGD: nat := 3

  datatype Entry = Entry(valid: bool, table: bool, frame: nat, rdonly: bool, attrs: nat)

  const ZERO := Entry(false, false, 0, false, 0)

  type Table = t: seq<Entry> | |t| == NUM_PT_ENTRIES witness seq(512, _ => ZERO)
  type Store = map<nat, Table>

  function ZeroTable(): (t: Table) {
    seq(512, _ => ZERO)
  }

  function LinkEntry(t: nat): (e: Entry) {
    Entry(true, true, t, false, 0)
  }

  /** Virtual pages covered by one entry of a level-l table. */
  function Span(l: nat): (r: nat)
    ensures r > 0
  {
    if l == 0 then 1 else 512 * Span(l - 1)
  }

  lemma Spans()
    ensures Span(0) == 1 && Span(1) == 512 && Span(2) == 262144 && Span(3) == 134217728 && Span(4) == 68719476736
  {
    assert Span(2) == 512 * Span(1);
    assert Span(4) == 512 * Span(3);
  }

  /** Number of virtual pages of a 48-bit address space. */
  const PAGES: nat := 68719476736

  /** The page number without its last l base-512 digits. */
  function Shift(v: nat, l: nat): (r: nat) {
    if l == 0 then v else Shift(v, l - 1) / 512
  }

  lemma ShiftIsDiv(v: nat, l: nat)
    requires l <= 4
    ensures Shift(v, l) == v / Span(l)
  {
    Spans();
    assert Shift(v, 1) == v / 512 && Shift(v, 2) == v / 512 / 512 == v / 262144;
    assert Shift(v, 3) == v / 262144 / 512 == v / 134217728;
    assert Shift(v, 4) == v / 134217728 / 512 == v / 68719476736;
  }

  /** IDX(page_idx, level). */
  function Idx(v: nat, l: nat): (i: nat)
    ensures i < NUM_PT_ENTRIES
  {
    Shift(v, l) % 512
  }

  /** Which level-l table a page's walk goes through: the leading digits of the page number. */
  function Prefix(v: nat, l: nat): (q: nat) {
    Shift(v, l + 1)
  }

  lemma PrefixStep(v: nat, l: nat)
    ensures Shift(v, l) == Prefix(v, l) * 512 + Idx(v, l)
    ensures l > 0 ==> Prefix(v, l - 1) == Prefix(v, l) * 512 + Idx(v, l)
  {
  }

  /** The leaf that a walk from a level-l table finds for page v. */
  function Walk(m: Store, t: nat, l: nat, v: nat): (r: Option<Entry>)
    decreases l
  {
    if t !in m then None
    else
      var e := m[t][Idx(v, l)];
      if !e.valid then None
      else if l == 0 || !e.table then Some(e)
      else Walk(m, e.frame, l - 1, v)
  }

  /** Where a table stands: whose address space, which level, which leading digits. */
  datatype Place = Place(root: nat, level: nat, prefix: nat)

  type Places = map<nat, Place>

  ghost predicate EntryOk(pl: Places, raw: set<nat>, p: Place, i: nat, e: Entry) {
    && (!e.valid ==> !e.table && e.frame == 0)
    && (e.valid && p.level > 0 ==>
          e.table && e.frame in pl && e.frame !in raw && pl[e.frame] == Place(p.root, p.level - 1, p.prefix * 512 + i))
  }

  /**
   Every table stands at one place, and a valid entry above the last level points to a
   table that stands at the place the entry leads to. Tables in raw are not yet filled in.
   */
  ghost predicate Wf(m: Store, pl: Places, raw: set<nat>) {
    && m.Keys == pl.Keys && raw <= m.Keys
    && (forall t {:trigger pl[t]} :: t in pl ==> pl[t].level <= PGD)
    && (forall t, i {:trigger EntryOk(pl, raw, pl[t], i, m[t][i])} :: t in m && t !in raw && 0 <= i < NUM_PT_ENTRIES ==>
          EntryOk(pl, raw, pl[t], i, m[t][i]))
  }

  /** Table t is the one that page v's walk in address space r goes through at level l. */
  ghost predicate OnWalk(pl: Places, t: nat, r: nat, l: nat, v: nat) {
    t in pl && pl[t] == Place(r, l, Prefix(v, l))
  }

  lemma NextOnWalk(m: Store, pl: Places, raw: set<nat>, t: nat, r: nat, l: nat, v: nat)
    requires Wf(m, pl, raw) && OnWalk(pl, t, r, l, v) && t !in raw && l > 0 && m[t][Idx(v, l)].valid
    ensures var e := m[t][Idx(v, l)]; e.table && OnWalk(pl, e.frame, r, l - 1, v) && e.frame !in raw
  {
    PrefixStep(v, l);
    assert EntryOk(pl, raw, pl[t], Idx(v, l), m[t][Idx(v, l)]);
  }

  /** A walk depends only on the tables that stand on the page's path. */
  lemma {:induction false} WalkFrame(m: Store, m': Store, pl: Places, raw: set<nat>, t: nat, r: nat, l: nat, v: nat)
    requires Wf(m, pl, raw) && OnWalk(pl, t, r, l, v) && t !in raw
    requires forall x {:trigger pl[x]} :: x in pl && x !in raw && pl[x].root == r && pl[x].level <= l
                                          && pl[x].prefix == Prefix(v, pl[x].level) ==>
                                            x in m' && m'[x][Idx(v, pl[x].level)] == m[x][Idx(v, pl[x].level)]
    ensures Walk(m', t, l, v) == Walk(m, t, l, v)
    decreases l
  {
    if l > 0 && m[t][Idx(v, l)].valid {
      NextOnWalk(m, pl, raw, t, r, l, v);
      WalkFrame(m, m', pl, raw, m[t][Idx(v, l)].frame, r, l - 1, v);
    }
  }

  // ----- writing one entry

  /** Overwriting entry i of table t changes only the walks that read that entry. */
  lemma WriteFrame(m: Store, pl: Places, raw: set<nat>, t: nat, i: nat, e: Entry, x: nat, r: nat, l: nat, v: nat)
    requires Wf(m, pl, raw) && t in m && i < NUM_PT_ENTRIES && OnWalk(pl, x, r, l, v) && x !in raw
    requires !(pl[t].root == r && pl[t].level <= l && pl[t].prefix == Prefix(v, pl[t].level)
             && Idx(v, pl[t].level) == i)
    ensures Walk(m[t := m[t][i := e]], x, l, v) == Walk(m, x, l, v)
  {
    WalkFrame(m, m[t := m[t][i := e]], pl, raw, x, r, l, v);
  }

  lemma WriteKeepsWf(m: Store, pl: Places, raw: set<nat>, t: nat, i: nat, e: Entry)
    requires Wf(m, pl, raw) && t in m && i < NUM_PT_ENTRIES && EntryOk(pl, raw, pl[t], i, e)
    ensures Wf(m[t := m[t][i := e]], pl, raw)
  {
    var m' := m[t := m[t][i := e]];
    forall x, j | x in m' && x !in raw && 0 <= j < NUM_PT_ENTRIES ensures EntryOk(pl, raw, pl[x], j, m'[x][j]) {
      assert EntryOk(pl, raw, pl[x], j, m[x][j]) || (x == t && j == i);
    }
  }

  /** Adding a zeroed table that no walk reaches yet. */
  lemma AddTable(m: Store, pl: Places, raw: set<nat>, n: nat, p: Place)
    requires Wf(m, pl, raw) && n !in m && p.level <= PGD
    ensures Wf(m[n := ZeroTable()], pl[n := p], raw)
  {
    var m', pl' := m[n := ZeroTable()], pl[n := p];
    forall x, j | x in m' && x !in raw && 0 <= j < NUM_PT_ENTRIES ensures EntryOk(pl', raw, pl'[x], j, m'[x][j]) {
      if x != n {
        assert EntryOk(pl, raw, pl[x], j, m[x][j]);
      }
    }
  }

  lemma AddTableFrame(m: Store, pl: Places, raw: set<nat>, n: nat, tb: Table, x: nat, r: nat, l: nat, v: nat)
    requires Wf(m, pl, raw) && n !in m && OnWalk(pl, x, r, l, v) && x !in raw
    ensures Walk(m[n := tb], x, l, v) == Walk(m, x, l, v)
  {
    WalkFrame(m, m[n := tb], pl, raw, x, r, l, v);
  }

  // ----- a path of tables held in hand

  ghost predicate IsRoot(pl: Places, r: nat) {
    r in pl && pl[r] == Place(r, PGD, 0)
  }

  /** The translation of page v in the address space of root r. */
  function Trans(m: Store, r: nat, v: nat): (e: Option<Entry>) {
    Walk(m, r, PGD, v)
  }

  lemma RootOnWalk(pl: Places, r: nat, v: nat)
    requires IsRoot(pl, r) && v < PAGES
    ensures OnWalk(pl, r, r, PGD, v)
  {
    ShiftIsDiv(v, 4);
    Spans();
  }

  /** The entry of tab[j + 1] on the walk of page v links to tab[j]. */
  ghost predicate LinkDown(m: Store, tab: seq<nat>, v: nat, j: nat)
    requires |tab| == 4 && j < PGD
  {
    var up := tab[j + 1];
    up in m && var e := m[up][Idx(v, j + 1)]; e.valid && e.table && e.frame == tab[j]
  }

  /** tab[3], tab[2], ... down to tab[k] are the tables on the walk of page v, each linked from the one above. */
  ghost predicate Path(m: Store, pl: Places, r: nat, tab: seq<nat>, v: nat, k: nat) {
    && |tab| == 4 && tab[PGD] == r && k <= PGD
    && (forall j: nat {:trigger tab[j]} :: k <= j <= PGD ==> tab[j] in m && OnWalk(pl, tab[j], r, j, v))
    && (forall j: nat {:trigger LinkDown(m, tab, v, j)} :: k <= j < PGD ==> LinkDown(m, tab, v, j))
  }

  lemma {:induction false} SamePrefixAbove(v: nat, w: nat, k: nat, j: nat)
    requires Prefix(v, k) == Prefix(w, k) && k <= j
    ensures Prefix(v, j) == Prefix(w, j)
    ensures k < j ==> Idx(v, j) == Idx(w, j)
    decreases j
  {
    if k < j {
      SamePrefixAbove(v, w, k, j - 1);
    }
  }

  /** A page with the same leading digits is looked up in the same table. */
  lemma {:induction false} PathWalk(m: Store, pl: Places, r: nat, tab: seq<nat>, v: nat, k: nat, w: nat)
    requires Path(m, pl, r, tab, v, k) && Prefix(w, k) == Prefix(v, k)
    ensures Trans(m, r, w) == Walk(m, tab[k], k, w)
    decreases PGD - k
  {
    if k < PGD {
      SamePrefixAbove(v, w, k, k + 1);
      PathWalk(m, pl, r, tab, v, k + 1, w);
      assert LinkDown(m, tab, v, k);
    }
  }

  /** The store after a zeroed table n is linked below tab[k + 1] on the walk of page v. */
  function Linked(m: Store, up: nat, i: nat, n: nat): (m': Store)
    requires up in m && i < NUM_PT_ENTRIES
  {
    m[n := ZeroTable()][up := m[up][i := LinkEntry(n)]]
  }

  lemma LinkKeepsWf(m: Store, pl: Places, up: nat, i: nat, n: nat)
    requires Wf(m, pl, {}) && up in m && i < NUM_PT_ENTRIES && n !in m && pl[up].level > 0
    ensures var p := Place(pl[up].root, pl[up].level - 1, pl[up].prefix * 512 + i);
            Wf(Linked(m, up, i, n), pl[n := p], {})
  {
    var p := Place(pl[up].root, pl[up].level - 1, pl[up].prefix * 512 + i);
    AddTable(m, pl, {}, n, p);
    WriteKeepsWf(m[n := ZeroTable()], pl[n := p], {}, up, i, LinkEntry(n));
  }

  lemma LinkPath(m: Store, pl: Places, r: nat, tab: seq<nat>, v: nat, k: nat, n: nat)
    requires Wf(m, pl, {}) && k < PGD && Path(m, pl, r, tab, v, k + 1) && n !in m
    ensures var i := Idx(v, k + 1);
            Path(Linked(m, tab[k + 1], i, n), pl[n := Place(r, k, Prefix(v, k))], r, tab[k := n], v, k)
  {
    var i, up := Idx(v, k + 1), tab[k + 1];
    var m', pl', tab' := Linked(m, up, i, n), pl[n := Place(r, k, Prefix(v, k))], tab[k := n];
    PrefixStep(v, k + 1);
    assert OnWalk(pl, up, r, k + 1, v);
    forall j: nat | k <= j <= PGD ensures tab'[j] in m' && OnWalk(pl', tab'[j], r, j, v) {
      assert j > k ==> OnWalk(pl, tab[j], r, j, v);
    }
    forall j: nat | k <= j < PGD ensures LinkDown(m', tab', v, j) {
      if j > k {
        assert LinkDown(m, tab, v, j) && OnWalk(pl, tab[j + 1], r, j + 1, v);
      }
    }
  }

  /** Linking a fresh table unmaps exactly the pages that it covers. */
  lemma LinkTrans(m: Store, pl: Places, r: nat, tab: seq<nat>, v: nat, k: nat, n: nat, x: nat, w: nat)
    requires Wf(m, pl, {}) && k < PGD && Path(m, pl, r, tab, v, k + 1) && n !in m
    requires IsRoot(pl, r) && IsRoot(pl, x) && w < PAGES
    ensures var m' := Linked(m, tab[k + 1], Idx(v, k + 1), n);
            Trans(m', x, w) == if x == r && Prefix(w, k) == Prefix(v, k) then None else Trans(m, x, w)
  {
    var i, up := Idx(v, k + 1), tab[k + 1];
    var p := Place(r, k, Prefix(v, k));
    var m', pl' := Linked(m, up, i, n), pl[n := p];
    PrefixStep(v, k + 1);
    PrefixStep(w, k + 1);
    if x == r && Prefix(w, k) == Prefix(v, k) {
      LinkPath(m, pl, r, tab, v, k, n);
      PathWalk(m', pl', r, tab[k := n], v, k, w);
    } else {
      RootOnWalk(pl, x, w);
      AddTable(m, pl, {}, n, p);
      AddTableFrame(m, pl, {}, n, ZeroTable(), x, x, PGD, w);
      WriteFrame(m[n := ZeroTable()], pl', {}, up, i, LinkEntry(n), x, x, PGD, w);
    }
  }

  /** Writing the last-level entry of page v maps that page and changes no other. */
  lemma LeafTrans(m: Store, pl: Places, r: nat, tab: seq<nat>, v: nat, e: Entry, x: nat, w: nat)
    requires Wf(m, pl, {}) && Path(m, pl, r, tab, v, PTE) && e.valid
    requires IsRoot(pl, r) && IsRoot(pl, x) && w < PAGES
    ensures var m' := m[tab[PTE] := m[tab[PTE]][Idx(v, PTE) := e]];
            Trans(m', x, w) == if x == r && w == v then Some(e) else Trans(m, x, w)
  {
    var t := tab[PTE];
    var m' := m[t := m[t][Idx(v, PTE) := e]];
    PrefixStep(v, 0);
    PrefixStep(w, 0);
    if x == r && w == v {
      LeafPath(m, pl, r, tab, v, e);
      PathWalk(m', pl, r, tab, v, PTE, w);
    } else {
      RootOnWalk(pl, x, w);
      WriteFrame(m, pl, {}, t, Idx(v, PTE), e, x, x, PGD, w);
    }
  }

  lemma LeafPath(m: Store, pl: Places, r: nat, tab: seq<nat>, v: nat, e: Entry)
    requires Path(m, pl, r, tab, v, PTE)
    ensures Path(m[tab[PTE] := m[tab[PTE]][Idx(v, PTE) := e]], pl, r, tab, v, PTE)
  {
    var m' := m[tab[PTE] := m[tab[PTE]][Idx(v, PTE) := e]];
    assert OnWalk(pl, tab[PTE], r, PTE, v);
    forall j: nat | PTE <= j < PGD ensures LinkDown(m', tab, v, j) {
      assert LinkDown(m, tab, v, j) && OnWalk(pl, tab[j + 1], r, j + 1, v);
    }
    forall j: nat | PTE <= j <= PGD ensures tab[j] in m' && OnWalk(pl, tab[j], r, j, v) {
      assert OnWalk(pl, tab[j], r, j, v);
    }
  }
}
