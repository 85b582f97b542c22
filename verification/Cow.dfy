/**
 Demand paging, fork and copy-on-write over the translation tables: the fault handler and
 the parts of exec and fork that set up address spaces, with the contents of memory.

 The answers of the page allocator are parameters that must be pages not handed out before.
 Kernel threads have no user tables and do not appear.
 */
module Cow {
  import opened Common
  import opened PageWalk
  import opened PageFork
  import opened PageTables
  import opened CowState
  import opened CowCount
  import opened CowLoss

  const USR_CODE_START: nat := 0
  const USR_STACK_PAGE: nat := 0xffffffffb
  const STACK_EL0_SIZE: nat := 0x4000
  type Bytes = seq<int>

  datatype Pcb = Pcb(ttbr: nat, code: nat, sections: seq<Section>)

  datatype Outcome = Resumed | SegFault

  /** The walk from root r finds exactly the mappings of sp. */
  ghost predicate Shows(m: Store, r: nat, sp: Space) {
    forall w {:trigger Trans(m, r, w)} :: 0 <= w < PAGES ==> Trans(m, r, w) == if w in sp then Some(sp[w]) else None
  }

  /** in_section, for a byte address. */
  predicate AddrIn(s: Section, addr: nat) {
    s.base * PAGE_SIZE <= addr < s.base * PAGE_SIZE + s.size
  }

  lemma AddrInPage(s: Section, addr: nat)
    requires AddrIn(s, addr)
    ensures InSection(s, addr / PAGE_SIZE)
  {
  }

  /** A page belongs to a section exactly if its first byte does. */
  lemma FirstByteIn(s: Section, w: nat)
    ensures AddrIn(s, w * PAGE_SIZE) <==> InSection(s, w)
  {
  }

  /** In a section of whole pages every byte of a page counts alike. */
  lemma WholePagesIn(s: Section, addr: nat)
    requires s.size % PAGE_SIZE == 0
    ensures AddrIn(s, addr) <==> InSection(s, addr / PAGE_SIZE)
  {
  }

  ghost predicate HasRoot(m: Store, pl: Places, pcb: Pcb, pr: Proc) {
    IsRoot(pl, pcb.ttbr) && Shows(m, pcb.ttbr, pr.space) && pcb.sections == pr.sections && pcb.code == pr.code
  }

  /** Each process control block has its own root table, which shows the mappings of its process. */
  ghost predicate Rooted(m: Store, pl: Places, pcbs: map<nat, Pcb>, procs: map<nat, Proc>) {
    && pcbs.Keys == procs.Keys
    && (forall p {:trigger HasRoot(m, pl, pcbs[p], procs[p])} :: p in pcbs ==> HasRoot(m, pl, pcbs[p], procs[p]))
    && (forall p, q {:trigger pcbs[p], pcbs[q]} :: p in pcbs && q in pcbs && pcbs[p].ttbr == pcbs[q].ttbr ==> p == q)
  }

  /** The address spaces other than that of root r translate as before. */
  ghost predicate OthersTranslate(m: Store, m': Store, pl: Places, r: nat) {
    forall x, w {:trigger Trans(m', x, w)} :: IsRoot(pl, x) && x != r && 0 <= w < PAGES ==>
      Trans(m', x, w) == Trans(m, x, w)
  }

  lemma RootedAfter(m: Store, m': Store, pl: Places, pl': Places, pcbs: map<nat, Pcb>, procs: map<nat, Proc>, p: nat,
                    sp: Space)
    requires Rooted(m, pl, pcbs, procs) && Extends(pl, pl') && p in pcbs
    requires OthersTranslate(m, m', pl, pcbs[p].ttbr) && Shows(m', pcbs[p].ttbr, sp)
    ensures Rooted(m', pl', pcbs, procs[p := procs[p].(space := sp)])
  {
    var procs' := procs[p := procs[p].(space := sp)];
    forall q | q in pcbs ensures HasRoot(m', pl', pcbs[q], procs'[q]) {
      assert HasRoot(m, pl, pcbs[q], procs[q]);
      assert q != p ==> pcbs[q].ttbr != pcbs[p].ttbr;
    }
  }

  lemma FilledShows(m: Store, m': Store, r: nat, sp: Space, sp': Space, s: nat, e: nat, pa: nat, attrs: nat)
    requires Shows(m, r, sp)
    requires forall w {:trigger Trans(m', r, w)} :: 0 <= w < PAGES ==>
             Trans(m', r, w) == Filled(s, e, pa, attrs, false, w, Trans(m, r, w))
    requires FilledSpace(sp, sp', s, e, pa, attrs)
    ensures Shows(m', r, sp')
  {
    forall w | 0 <= w < PAGES ensures Trans(m', r, w) == if w in sp' then Some(sp'[w]) else None {
      assert Trans(m, r, w) == if w in sp then Some(sp[w]) else None;
      assert w in sp' <==> s <= w < e || (w in sp && !Crossed(s, e, w));
    }
  }

  function ViewOf(ram: nat, sp: Space, mem: seq<Bytes>): (v: map<nat, Bytes>)
    requires |mem| == ram
  {
    map w | w in sp && sp[w].frame < ram :: mem[sp[w].frame]
  }

  /** Process q reads what it read before. */
  ghost predicate Sees(st: State, st': State, mem: seq<Bytes>, mem': seq<Bytes>, q: nat)
    requires q in st.procs && |mem| == |mem'|
  {
    q in st'.procs && ViewOf(|mem|, st'.procs[q].space, mem') == ViewOf(|mem|, st.procs[q].space, mem)
  }

  /** Processes other than p read what they read before. */
  ghost predicate OthersSee(st: State, st': State, mem: seq<Bytes>, mem': seq<Bytes>, p: nat) {
    && |mem| == |mem'|
    && forall q {:trigger Sees(st, st', mem, mem', q)} :: q in st.procs && q != p ==> Sees(st, st', mem, mem', q)
  }

  lemma AnonViews(ram: nat, st: State, st': State, p: nat, w: nat, g: nat, mem: seq<Bytes>, b: Bytes)
    requires p in st.procs && g < |st.refs| && w !in st.procs[p].space && |mem| == ram && g < ram
    requires Sharers(st.procs, g) == {} && st' == Anon(st, p, w, g, DATA_ATTRS)
    ensures OthersSee(st, st', mem, mem[g := b], p)
    ensures ViewOf(ram, st'.procs[p].space, mem[g := b]) == ViewOf(ram, st.procs[p].space, mem)[w := b]
    ensures SeesMore(ViewOf(ram, st.procs[p].space, mem), ViewOf(ram, st'.procs[p].space, mem[g := b]))
  {
    forall q | q in st.procs
      ensures ViewOf(ram, st.procs[q].space, mem[g := b]) == ViewOf(ram, st.procs[q].space, mem) {
      assert q !in Sharers(st.procs, g);
      ViewKept(ram, st.procs[q].space, mem, g, b);
    }
    ViewExtended(ram, st.procs[p].space, w, LeafEntry(g, DATA_ATTRS, false), mem[g := b]);
  }

  lemma ViewExtended(ram: nat, sp: Space, w: nat, e: Entry, mem: seq<Bytes>)
    requires |mem| == ram && e.frame < ram
    ensures ViewOf(ram, sp[w := e], mem) == ViewOf(ram, sp, mem)[w := mem[e.frame]]
  {
  }

  /** Changing a page that an address space does not map does not change what it reads. */
  lemma ViewKept(ram: nat, sp: Space, mem: seq<Bytes>, g: nat, b: Bytes)
    requires |mem| == ram && g < ram && !Maps(sp, g)
    ensures ViewOf(ram, sp, mem[g := b]) == ViewOf(ram, sp, mem)
  {
    forall w | w in sp && sp[w].frame < ram ensures mem[g := b][sp[w].frame] == mem[sp[w].frame] {
    }
  }

  lemma SameViews(st: State, st': State, mem: seq<Bytes>, p: nat)
    requires forall q :: q in st.procs && q != p ==> q in st'.procs && st'.procs[q].space == st.procs[q].space
    ensures OthersSee(st, st', mem, mem, p)
  {
    forall q | q in st.procs && q != p ensures Sees(st, st', mem, mem, q) {
      assert q in st'.procs && st'.procs[q].space == st.procs[q].space;
    }
  }

  /** Losing device pages does not change what is read. */
  lemma UncrossedView(ram: nat, sp: Space, s: nat, e: nat, mem: seq<Bytes>)
    requires |mem| == ram && RamApart(ram, sp, s, e)
    ensures ViewOf(ram, Uncrossed(sp, s, e), mem) == ViewOf(ram, sp, mem)
  {
    forall w | w in sp && sp[w].frame < ram ensures w in Uncrossed(sp, s, e) && Uncrossed(sp, s, e)[w] == sp[w] {
    }
  }

  /** The contents of n consecutive pages, as pages 0 up to n. */
  function TextBytes(mem: seq<Bytes>, code: nat, n: nat): (v: map<nat, Bytes>)
    requires code + n <= |mem|
    ensures forall i {:trigger i in v} :: i in v <==> 0 <= i < n
    ensures forall i {:trigger v[i]} :: 0 <= i < n ==> v[i] == mem[code + i]
  {
    if n == 0 then map[] else TextBytes(mem, code, n - 1)[n - 1 := mem[code + (n - 1)]]
  }

  lemma TextView(ram: nat, pr: Proc, mem: seq<Bytes>)
    requires Unloaded(pr) && pr.code + pr.text <= ram == |mem|
    ensures ViewOf(ram, TextSpace(pr, TEXT_ATTRS), mem) == ViewOf(ram, pr.space, mem) + TextBytes(mem, pr.code, pr.text)
  {
    var run, text := Run(pr.code, pr.text, TEXT_ATTRS), TextBytes(mem, pr.code, pr.text);
    assert ViewOf(ram, run, mem) == text by {
      forall i | 0 <= i < pr.text ensures run[i].frame == pr.code + i && mem[pr.code + i] == text[i] {
      }
    }
    ViewOfSum(ram, pr.space, run, mem);
  }

  lemma TextFilledView(ram: nat, st: State, p: nat, mem: seq<Bytes>)
    requires p in st.procs && Unloaded(st.procs[p]) && st.procs[p].code + st.procs[p].text <= ram == |mem| == |st.refs|
    ensures var pr := st.procs[p];
            ViewOf(ram, TextFilled(st, p, TEXT_ATTRS).procs[p].space, mem)
            == ViewOf(ram, Uncrossed(pr.space, 0, pr.text), mem) + TextBytes(mem, pr.code, pr.text)
    ensures RamApart(ram, st.procs[p].space, 0, st.procs[p].text) ==>
              SeesMore(ViewOf(ram, st.procs[p].space, mem),
                ViewOf(ram, TextFilled(st, p, TEXT_ATTRS).procs[p].space, mem))
  {
    var pr := st.procs[p];
    var pr1 := pr.(space := Uncrossed(pr.space, 0, pr.text));
    assert Unloaded(pr1);
    TextView(ram, pr1, mem);
    if RamApart(ram, pr.space, 0, pr.text) {
      UncrossedView(ram, pr.space, 0, pr.text, mem);
      SeesNewPages(ram, pr.space, mem, TextBytes(mem, pr.code, pr.text));
    }
  }

  lemma ViewOfSum(ram: nat, sp: Space, more: Space, mem: seq<Bytes>)
    requires |mem| == ram && forall w :: w in more ==> w !in sp
    ensures ViewOf(ram, sp + more, mem) == ViewOf(ram, sp, mem) + ViewOf(ram, more, mem)
  {
  }

  lemma ReplacedShows(m: Store, m': Store, r: nat, sp: Space, w: nat, e: Entry)
    requires Shows(m, r, sp) && w in sp
    requires forall u {:trigger Trans(m', r, u)} :: 0 <= u < PAGES ==>
             Trans(m', r, u) == if u == w then Some(e) else Trans(m, r, u)
    ensures Shows(m', r, sp[w := e])
  {
    forall u | 0 <= u < PAGES ensures Trans(m', r, u) == if u in sp[w := e] then Some(sp[w := e][u]) else None {
      assert Trans(m, r, u) == if u in sp then Some(sp[u]) else None;
    }
  }

  /** Permissions do not matter to what is read. */
  lemma SameFramesView(ram: nat, sp: Space, sp': Space, mem: seq<Bytes>)
    requires |mem| == ram && sp'.Keys == sp.Keys && forall w :: w in sp ==> sp'[w].frame == sp[w].frame
    ensures ViewOf(ram, sp', mem) == ViewOf(ram, sp, mem)
  {
  }

  lemma CopiedViews(ram: nat, st: State, st': State, p: nat, w: nat, g: nat, mem: seq<Bytes>)
    requires p in st.procs && w in st.procs[p].space && st.procs[p].space[w].frame < ram == |st.refs| == |mem|
             && g < ram
    requires st.refs[st.procs[p].space[w].frame] > 0 && Sharers(st.procs, g) == {}
             && st' == CowState.Copied(st, p, w, g)
    ensures OthersSee(st, st', mem, mem[g := mem[st.procs[p].space[w].frame]], p)
    ensures ViewOf(ram, st'.procs[p].space, mem[g := mem[st.procs[p].space[w].frame]])
            == ViewOf(ram, st.procs[p].space, mem)
  {
    var sp, b := st.procs[p].space, mem[st.procs[p].space[w].frame];
    forall q | q in st.procs
      ensures ViewOf(ram, st.procs[q].space, mem[g := b]) == ViewOf(ram, st.procs[q].space, mem) {
      assert q !in Sharers(st.procs, g);
      ViewKept(ram, st.procs[q].space, mem, g, b);
    }
    forall q | q in st.procs && q != p ensures Sees(st, st', mem, mem[g := b], q) {
    }
    ViewExtended(ram, sp, w, sp[w].(frame := g, rdonly := false), mem[g := b]);
    assert ViewOf(ram, sp, mem)[w] == b;
  }

  lemma WrittenViews(ram: nat, st: State, p: nat, w: nat, f: nat, mem: seq<Bytes>, b: Bytes)
    requires p in st.procs && w in st.procs[p].space && f == st.procs[p].space[w].frame < ram == |mem|
    requires Injective(ram, st.procs[p].space) && Sharers(st.procs, f) == {p}
    ensures OthersSee(st, st, mem, mem[f := b], p)
    ensures ViewOf(ram, st.procs[p].space, mem[f := b]) == ViewOf(ram, st.procs[p].space, mem)[w := b]
  {
    forall q | q in st.procs && q != p ensures Sees(st, st, mem, mem[f := b], q) {
      assert q !in Sharers(st.procs, f);
      ViewKept(ram, st.procs[q].space, mem, f, b);
    }
    var sp := st.procs[p].space;
    forall x | x in sp && sp[x].frame < ram && x != w ensures sp[x].frame != f {
    }
  }

  lemma MappedPage(ram: nat, st: State, p: nat, w: nat)
    requires Inv(ram, st) && p in st.procs && w in st.procs[p].space
    ensures w < PAGES && RefsMatch(ram, st)
    ensures st.procs[p].space[w].frame < ram && st.procs[p].space[w].rdonly ==> st.procs[p].space[w].frame in st.wperm
  {
    OneProc(ram, st, p);
  }

  /** Everything readable before still reads the same. */
  ghost predicate SeesMore(v: map<nat, Bytes>, v': map<nat, Bytes>) {
    forall w {:trigger w in v} {:trigger w in v'} :: w in v ==> w in v' && v'[w] == v[w]
  }

  lemma SeesNewPages(ram: nat, sp: Space, mem: seq<Bytes>, more: map<nat, Bytes>)
    requires |mem| == ram && forall w :: w in more ==> w !in sp
    ensures SeesMore(ViewOf(ram, sp, mem), ViewOf(ram, sp, mem) + more)
  {
  }

  /** A program of n pages can be read, page by page from page 0 on. */
  ghost predicate ShowsText(v: map<nat, Bytes>, mem: seq<Bytes>, code: nat, n: nat) {
    code + n <= |mem| && forall w {:trigger w in v} :: 0 <= w < n ==> w in v && v[w] == mem[code + w]
  }

  lemma TextShown(v: map<nat, Bytes>, mem: seq<Bytes>, code: nat, n: nat)
    requires code + n <= |mem|
    ensures ShowsText(v + TextBytes(mem, code, n), mem, code, n)
  {
    var text := TextBytes(mem, code, n);
    forall w | 0 <= w < n ensures w in v + text && (v + text)[w] == mem[code + w] {
      assert w in text && text[w] == mem[code + w];
    }
  }

  /** Some section other than a device holds the address. */
  ghost predicate Backed(ss: seq<Section>, addr: nat) {
    exists i :: 0 <= i < |ss| && AddrIn(ss[i], addr) && ss[i].kind != Device
  }

  /** Which addresses are backed, by the pages of the sections: only those in a page of RAM, and all of them if the
      sections are made of whole pages, or if the address is the first of its page. */
  lemma BackedPages(ss: seq<Section>, addr: nat)
    ensures Backed(ss, addr) ==> RamPage(ss, addr / PAGE_SIZE)
    ensures addr % PAGE_SIZE == 0 || (forall i :: 0 <= i < |ss| ==> ss[i].size % PAGE_SIZE == 0) ==>
              (Backed(ss, addr) <==> RamPage(ss, addr / PAGE_SIZE))
  {
    var w := addr / PAGE_SIZE;
    if Backed(ss, addr) {
      var i :| 0 <= i < |ss| && AddrIn(ss[i], addr) && ss[i].kind != Device;
      AddrInPage(ss[i], addr);
    }
    if RamPage(ss, w) && (addr % PAGE_SIZE == 0 || forall i :: 0 <= i < |ss| ==> ss[i].size % PAGE_SIZE == 0) {
      var i :| 0 <= i < |ss| && ss[i].kind != Device && InSection(ss[i], w);
      if addr % PAGE_SIZE == 0 {
        FirstByteIn(ss[i], w);
      } else {
        WholePagesIn(ss[i], addr);
      }
      assert AddrIn(ss[i], addr);
    }
  }

  /** The addresses from base on, size of them and no others, are backed in addition. */
  ghost predicate BacksMore(ss: seq<Section>, ss': seq<Section>, base: nat, size: nat) {
    forall addr: nat {:trigger Backed(ss', addr)} :: Backed(ss', addr) <==>
      Backed(ss, addr) || base <= addr < base + size
  }

  lemma MoreBacked(ss: seq<Section>, s: Section)
    requires s.kind != Device
    ensures BacksMore(ss, ss + [s], s.base * PAGE_SIZE, s.size)
  {
    var ss' := ss + [s];
    forall addr: nat ensures Backed(ss', addr) <==> Backed(ss, addr) || AddrIn(s, addr) {
      if Backed(ss, addr) {
        var i :| 0 <= i < |ss| && AddrIn(ss[i], addr) && ss[i].kind != Device;
        assert AddrIn(ss'[i], addr);
      }
      assert AddrIn(ss'[|ss|], addr) <==> AddrIn(s, addr);
    }
  }

  /** A fresh program may touch the bytes of its text and its stack, from the first to the last, and nothing else. */
  lemma ImageBacked(size: nat, addr: nat)
    ensures Backed(ImageSections(size), addr) <==> addr < size || 0xffff_ffff_b000 <= addr < 0xffff_ffff_f000
  {
    var ss := ImageSections(size);
    assert AddrIn(ss[0], addr) <==> addr < size;
    assert AddrIn(ss[1], addr) <==> 0xffff_ffff_b000 <= addr < 0xffff_ffff_f000;
  }

  /** The process that exec makes has nothing mapped, so nothing can be lost. */
  lemma ExecedProc(ram: nat, st: State, p: nat, size: nat, code: nat, addr: nat)
    ensures var st' := Execed(st, p, ImageSections(size), code, NumPages(size));
            && p in st'.procs && st'.procs[p] == CowState.Proc(map[], ImageSections(size), code, NumPages(size))
            && Harmless(ram, st'.procs[p], addr) && (addr < size ==> addr / PAGE_SIZE < NumPages(size))
            && forall f: nat {:trigger f in st'.used} :: f in st'.used ==>
                 f in st.used || code <= f < code + NumPages(size)
  {
  }

  /** A fault in the text loses no RAM page to the tables it replaces. */
  ghost predicate Harmless(ram: nat, pr: Proc, addr: nat) {
    Backed(pr.sections, addr) && addr / PAGE_SIZE < pr.text ==> RamApart(ram, pr.space, 0, pr.text)
  }

  /** The first section that holds an address decides how its fault ends. */
  lemma FaultCase(ram: nat, st: State, p: nat, addr: nat, i: nat)
    requires Inv(ram, st) && p in st.procs && addr / PAGE_SIZE !in st.procs[p].space && i <= |st.procs[p].sections|
    requires var ss := st.procs[p].sections; (i < |ss| ==> AddrIn(ss[i], addr)) && forall j :: 0 <= j < i ==>
             !AddrIn(ss[j], addr)
    ensures var ss := st.procs[p].sections;
            && (Backed(ss, addr) <==> i < |ss| && ss[i].kind != Device)
            && (i < |ss| ==> InSection(ss[i], addr / PAGE_SIZE) && addr / PAGE_SIZE < PAGES)
            && (i < |ss| && ss[i].kind == Text ==>
              Unloaded(st.procs[p]) && addr / PAGE_SIZE < NumPages(ss[i].size) == st.procs[p].text)
            && (i < |ss| && ss[i].kind != Text ==> addr / PAGE_SIZE >= st.procs[p].text)
  {
    OneProc(ram, st, p);
    var ss := st.procs[p].sections;
    if Backed(ss, addr) {
      var j :| 0 <= j < |ss| && AddrIn(ss[j], addr) && ss[j].kind != Device;
      AddrInPage(ss[j], addr);
      AddrInPage(ss[i], addr);
    }
    if i < |ss| {
      AddrInPage(ss[i], addr);
      if ss[i].kind != Text {
        NotText(st.procs[p], i, addr / PAGE_SIZE);
      }
    }
  }

  lemma ForkRecords(ram: nat, m: Store, r: nat, st: State, p: nat, wp: set<nat>)
    requires p in st.procs && Shows(m, r, st.procs[p].space) && st.wperm <= wp
    requires forall w {:trigger st.procs[p].space[w]} :: w in st.procs[p].space ==> w < PAGES
    requires forall w :: 0 <= w < PAGES && WasWritable(ram, Trans(m, r, w)) ==> Trans(m, r, w).value.frame in wp
    ensures Records(ram, st, p, wp)
  {
    forall w | w in st.procs[p].space && WasWritable(ram, Some(st.procs[p].space[w]))
      ensures st.procs[p].space[w].frame in wp {
      assert WasWritable(ram, Trans(m, r, w));
    }
  }

  lemma ForkedShows(ram: nat, m: Store, m': Store, r: nat, x: nat, sp: Space)
    requires Shows(m, r, sp)
    requires forall w {:trigger Trans(m', x, w)} :: 0 <= w < PAGES ==> Trans(m', x, w) == Forked(ram, Trans(m, r, w))
    ensures Shows(m', x, ForkedSpace(ram, sp))
  {
    forall w | 0 <= w < PAGES
      ensures Trans(m', x, w) == if w in ForkedSpace(ram, sp) then Some(ForkedSpace(ram, sp)[w]) else None {
      assert Trans(m, r, w) == if w in sp then Some(sp[w]) else None;
    }
  }

  lemma ForkRooted(ram: nat, m: Store, m': Store, pl: Places, pl': Places, pcbs: map<nat, Pcb>, procs: map<nat, Proc>,
                   p: nat, q: nat, dst: nat)
    requires Rooted(m, pl, pcbs, procs) && Extends(pl, pl') && p in pcbs && q !in pcbs && dst !in pl && IsRoot(pl', dst)
    requires OthersTranslate(m, m', pl, pcbs[p].ttbr)
    requires forall w {:trigger Trans(m', pcbs[p].ttbr, w)} {:trigger Trans(m', dst, w)} :: 0 <= w < PAGES ==>
               Trans(m', pcbs[p].ttbr, w) == Trans(m', dst, w) == Forked(ram, Trans(m, pcbs[p].ttbr, w))
    ensures var pr := procs[p].(space := ForkedSpace(ram, procs[p].space));
            Rooted(m', pl', pcbs[q := pcbs[p].(ttbr := dst)], procs[p := pr][q := pr])
  {
    var sp := ForkedSpace(ram, procs[p].space);
    assert HasRoot(m, pl, pcbs[p], procs[p]);
    ForkedShows(ram, m, m', pcbs[p].ttbr, pcbs[p].ttbr, procs[p].space);
    ForkedShows(ram, m, m', pcbs[p].ttbr, dst, procs[p].space);
    RootedAfter(m, m', pl, pl', pcbs, procs, p, sp);
    var procs' := procs[p := procs[p].(space := sp)];
    forall x | x in pcbs ensures pcbs[x].ttbr in pl {
      assert HasRoot(m, pl, pcbs[x], procs[x]);
    }
    RootedWith(m', pl', pl, pcbs, procs', q, pcbs[p].(ttbr := dst), procs'[p]);
  }

  /** A further process with a root table that no other process has. */
  lemma RootedWith(m: Store, pl: Places, pl0: Places, pcbs: map<nat, Pcb>, procs: map<nat, Proc>, q: nat, pcb: Pcb,
                   pr: Proc)
    requires Rooted(m, pl, pcbs, procs) && q !in pcbs && HasRoot(m, pl, pcb, pr)
    requires pcb.ttbr !in pl0 && forall x {:trigger pcbs[x]} :: x in pcbs ==> pcbs[x].ttbr in pl0
    ensures Rooted(m, pl, pcbs[q := pcb], procs[q := pr])
  {
    var pcbs', procs' := pcbs[q := pcb], procs[q := pr];
    forall x | x in pcbs' ensures HasRoot(m, pl, pcbs'[x], procs'[x]) {
      assert x != q ==> HasRoot(m, pl, pcbs[x], procs[x]);
    }
    forall x, y | x in pcbs' && y in pcbs' && pcbs'[x].ttbr == pcbs'[y].ttbr ensures x == y {
      assert x != q ==> pcbs[x].ttbr in pl0;
      assert y != q ==> pcbs[y].ttbr in pl0;
    }
  }

  lemma ForkResult(ram: nat, st: State, st': State, p: nat, q: nat, mem: seq<Bytes>)
    requires Inv(ram, st) && p in st.procs && q !in st.procs && |st.procs| < MAX_PROC && |mem| == ram
    requires Records(ram, st, p, st'.wperm) && CountsFork(ram, st.procs[p].space, st.refs, st'.refs)
    requires st' == Doubled(Guarded(ram, st, p, st'.wperm), p, q, st'.refs)
    ensures (Inv(ram, st') <==> !Unloaded(st.procs[p])) && OthersSee(st, st', mem, mem, p)
            && st'.procs.Keys == st.procs.Keys + {q}
    ensures st'.procs[q] == st'.procs[p] == st.procs[p].(space := ForkedSpace(ram, st.procs[p].space))
    ensures ViewOf(ram, st'.procs[p].space, mem) == ViewOf(ram, st.procs[p].space, mem)
  {
    ForkIff(ram, st, p, q, st'.wperm, st'.refs);
    SameViews(st, st', mem, p);
    SameFramesView(ram, st.procs[p].space, st'.procs[p].space, mem);
  }

  /** The two sections of a fresh program. */
  function ImageSections(size: nat): (ss: seq<Section>) {
    [Section(Text, USR_CODE_START, size), Section(Stack, USR_STACK_PAGE, STACK_EL0_SIZE)]
  }

  lemma ImageOk(size: nat)
    requires 0 < size && NumPages(size) <= USR_STACK_PAGE
    ensures SectionsOk(ImageSections(size), NumPages(size))
  {
    var ss := ImageSections(size);
    assert ss[0].kind == Text && ss[1].base + NumPages(ss[1].size) <= PAGES;
  }

  lemma ExecRooted(m: Store, m': Store, pl: Places, pl': Places, pcbs: map<nat, Pcb>, procs: map<nat, Proc>, p: nat,
                   pcb: Pcb, pr: Proc)
    requires Rooted(m, pl, pcbs, procs) && Extends(pl, pl') && p !in pcbs && pcb.ttbr !in pl && IsRoot(pl', pcb.ttbr)
    requires OthersTranslate(m, m', pl, pcb.ttbr) && pr.space == map[] && pcb.sections == pr.sections
             && pcb.code == pr.code
    requires forall w {:trigger Trans(m', pcb.ttbr, w)} :: 0 <= w < PAGES ==> Trans(m', pcb.ttbr, w) == None
    ensures Rooted(m', pl', pcbs[p := pcb], procs[p := pr])
  {
    forall x | x in pcbs ensures HasRoot(m', pl', pcbs[x], procs[x]) && pcbs[x].ttbr in pl {
      assert HasRoot(m, pl, pcbs[x], procs[x]);
    }
    RootedWith(m', pl', pl, pcbs, procs, p, pcb, pr);
  }

  /** A process with the same root table and other records. */
  lemma RootedReplace(m: Store, pl: Places, pcbs: map<nat, Pcb>, procs: map<nat, Proc>, p: nat, pcb: Pcb, pr: Proc)
    requires Rooted(m, pl, pcbs, procs) && p in pcbs && pcb.ttbr == pcbs[p].ttbr && HasRoot(m, pl, pcb, pr)
    ensures Rooted(m, pl, pcbs[p := pcb], procs[p := pr])
  {
    var pcbs', procs' := pcbs[p := pcb], procs[p := pr];
    forall x | x in pcbs' ensures HasRoot(m, pl, pcbs'[x], procs'[x]) {
      assert x != p ==> HasRoot(m, pl, pcbs[x], procs[x]);
    }
    forall x, y | x in pcbs' && y in pcbs' && pcbs'[x].ttbr == pcbs'[y].ttbr ensures x == y {
      assert pcbs[x].ttbr == pcbs[y].ttbr;
    }
  }

  lemma ExecResult(ram: nat, st: State, st': State, p: nat, size: nat, code: nat, mem: seq<Bytes>)
    requires Inv(ram, st) && p !in st.procs && |st.procs| < MAX_PROC && 0 < size && NumPages(size) <= USR_STACK_PAGE
             && |mem| == ram
    requires 0 < code && code + NumPages(size) <= ram && forall f :: code <= f < code + NumPages(size) ==> f !in st.used
    requires st' == Execed(st, p, ImageSections(size), code, NumPages(size))
    ensures Inv(ram, st') && OthersSee(st, st', mem, mem, p)
  {
    ImageOk(size);
    ExecInv(ram, st, p, ImageSections(size), code, NumPages(size));
    SameViews(st, st', mem, p);
  }

  lemma DeviceView(ram: nat, sp: Space, base: nat, n: nat, pa: nat, mem: seq<Bytes>)
    requires ram <= pa && |mem| == ram && forall w {:trigger w in sp} :: w in sp ==> !(base <= w < base + n)
    ensures ViewOf(ram, sp + DeviceRun(base, n, pa), mem) == ViewOf(ram, sp, mem)
  {
    var dev := DeviceRun(base, n, pa);
    ViewOfSum(ram, sp, dev, mem);
    assert ViewOf(ram, dev, mem) == map[];
  }

  lemma DeviceFilledView(ram: nat, st: State, p: nat, base: nat, n: nat, pa: nat, mem: seq<Bytes>)
    requires p in st.procs && ram <= pa && |mem| == ram
    requires forall w {:trigger w in st.procs[p].space} :: w in st.procs[p].space ==> !(base <= w < base + n)
    ensures var sp, sp' := st.procs[p].space, DeviceFilled(st, p, base, n, pa).procs[p].space;
            && ViewOf(ram, sp', mem) == ViewOf(ram, Uncrossed(sp, base, base + n), mem)
            && (RamApart(ram, sp, base, base + n) ==> ViewOf(ram, sp', mem) == ViewOf(ram, sp, mem))
  {
    var sp := st.procs[p].space;
    DeviceView(ram, Uncrossed(sp, base, base + n), base, n, pa, mem);
    if RamApart(ram, sp, base, base + n) {
      UncrossedView(ram, sp, base, base + n, mem);
    }
  }

  lemma TextOutcome(ram: nat, st: State, p: nat, mem: seq<Bytes>) returns (st': State)
    requires Inv(ram, st) && p in st.procs && Unloaded(st.procs[p]) && |mem| == ram
    ensures st.procs[p].text <= PAGES && st.procs[p].code + st.procs[p].text <= ram == |st.refs|
    ensures st' == TextFilled(st, p, TEXT_ATTRS) && OthersSee(st, st', mem, mem, p)
    ensures Inv(ram, st') <==> RamApart(ram, st.procs[p].space, 0, st.procs[p].text)
    ensures ViewOf(ram, st'.procs[p].space, mem)
            == ViewOf(ram, Uncrossed(st.procs[p].space, 0, st.procs[p].text), mem)
              + TextBytes(mem, st.procs[p].code, st.procs[p].text)
    ensures Inv(ram, st') ==> SeesMore(ViewOf(ram, st.procs[p].space, mem), ViewOf(ram, st'.procs[p].space, mem))
  {
    OneProc(ram, st, p);
    TextFilledIff(ram, st, p, TEXT_ATTRS);
    st' := TextFilled(st, p, TEXT_ATTRS);
    SameViews(st, st', mem, p);
    TextFilledView(ram, st, p, mem);
  }

  lemma DeviceOutcome(ram: nat, st: State, p: nat, base: nat, n: nat, pa: nat, mem: seq<Bytes>) returns (st': State)
    requires Inv(ram, st) && p in st.procs && Separate(st.procs[p].sections, FrameBuffer(base, n))
    requires base + n <= PAGES && ram <= pa && |mem| == ram
    ensures st' == DeviceFilled(st, p, base, n, pa) && OthersSee(st, st', mem, mem, p)
    ensures forall w {:trigger w in st.procs[p].space} :: w in st.procs[p].space ==> !(base <= w < base + n)
    ensures Inv(ram, st') <==> RamApart(ram, st.procs[p].space, base, base + n)
    ensures ViewOf(ram, st'.procs[p].space, mem) == ViewOf(ram, Uncrossed(st.procs[p].space, base, base + n), mem)
    ensures Inv(ram, st') ==> ViewOf(ram, st'.procs[p].space, mem) == ViewOf(ram, st.procs[p].space, mem)
  {
    DeviceFilledIff(ram, st, p, base, n, pa);
    BehindText(ram, st, p, base, n);
    st' := DeviceFilled(st, p, base, n, pa);
    DeviceFilledView(ram, st, p, base, n, pa, mem);
    SameViews(st, st', mem, p);
  }

  /** Pages base up to base + n lead to the device pages from pa on and can be written; their section says so. */
  ghost predicate ShowsDevice(pr: Proc, base: nat, n: nat, pa: nat) {
    && (forall w {:trigger pr.space[w]} :: base <= w < base + n ==>
          w in pr.space && pr.space[w].valid && pr.space[w].frame == pa + (w - base) && !pr.space[w].rdonly)
    && pr.sections != [] && pr.sections[|pr.sections| - 1] == Section(Device, base, n * PAGE_SIZE)
  }

  lemma DeviceShown(st: State, p: nat, base: nat, n: nat, pa: nat)
    requires p in st.procs
    ensures ShowsDevice(DeviceFilled(st, p, base, n, pa).procs[p], base, n, pa)
  {
    var sp, dev := st.procs[p].space, DeviceRun(base, n, pa);
    forall w | base <= w < base + n
      ensures w in Uncrossed(sp, base, base + n) + dev && (Uncrossed(sp, base, base + n) + dev)[w] == dev[w] {
      assert w in dev;
    }
  }

  /** The byte counter of a loop over the pages of a section, in pages. */
  lemma PageSteps(size: nat, b: nat, k: nat)
    requires b == k * PAGE_SIZE && b < size
    ensures k < NumPages(size) && b / PAGE_SIZE == k && b + PAGE_SIZE == (k + 1) * PAGE_SIZE
    ensures b + PAGE_SIZE >= size ==> k + 1 == NumPages(size)
  {
  }

  class Kernel {
    const ram: nat                  // number of RAM pages
    const tables: Tables
    const refs: array<nat>          // usr_pages[].ref_count
    var pcbs: map<nat, Pcb>
    var mem: seq<Bytes>             // contents of RAM, page by page
    ghost var st: State

    ghost predicate Valid()
      reads this, tables, refs
    {
      Represents(st) && Inv(ram, st)
    }

    /** Tables, counters and control blocks hold the abstract state s. */
    ghost predicate Represents(s: State)
      reads this, tables, refs
    {
      && tables.Valid() && refs.Length == ram == |mem| && 0 < ram
      && s.refs == refs[..] && s.wperm == tables.wperm
      && Rooted(tables.m, tables.pl, pcbs, s.procs)
    }

    /** page_ref_init: no user process, all counts zero. */
    constructor (ram: nat)
      requires 0 < ram
      ensures Valid() && this.ram == ram && pcbs == map[] && fresh(tables) && fresh(refs)
    {
      this.ram := ram;
      tables := new Tables();
      refs := new nat[ram](_ => 0);
      pcbs := map[];
      mem := seq(ram, _ => []);
      st := State(map[], seq(ram, _ => 0), {}, {});
      new;
      assert forall f: nat {:trigger Sharers(st.procs, f)} :: Sharers(st.procs, f) == {};
      assert st.refs == refs[..];
    }

    /** What process p reads: the contents of its RAM pages. */
    ghost function View(p: nat): (v: map<nat, Bytes>)
      requires p in st.procs && |mem| == ram
      reads this
    {
      ViewOf(ram, st.procs[p].space, mem)
    }

    /** ref_page, with its 16-bit counter. */
    method RefPage(f: nat)
      requires f < refs.Length
      modifies refs
      ensures refs[..] == Incremented(old(refs[..]), f)
    {
      refs[f] := (refs[f] + 1) % 65536;
    }

    /** Fill one page of p's tables and count the reference. */
    method FillOne(p: nat, w: nat, g: nat, ghost s: State, ghost s': State)
      requires Represents(s) && p in s.procs && w < PAGES && w !in s.procs[p].space && g < ram
      requires s' == Anon(s, p, w, g, DATA_ATTRS)
      modifies tables, refs
      ensures Represents(s')
    {
      ghost var m0, pl0, sp0 := tables.m, tables.pl, s.procs[p].space;
      var r := pcbs[p].ttbr;
      assert HasRoot(m0, pl0, pcbs[p], s.procs[p]);
      tables.Fill(r, w, w + 1, g, DATA_ATTRS, false);
      RefPage(g);
      ghost var sp: Space := sp0[w := LeafEntry(g, DATA_ATTRS, false)];
      OneFilledSpace(sp0, w, g, DATA_ATTRS);
      FilledShows(m0, tables.m, r, sp0, sp, w, w + 1, g, DATA_ATTRS);
      RootedAfter(m0, tables.m, pl0, tables.pl, pcbs, s.procs, p, sp);
    }

    /** The stack and heap case of a translation fault: page w gets the new page g, whose contents are arbitrary. */
    method MapNew(p: nat, w: nat, ghost i: nat, g: nat)
      requires Valid() && CanMapAnon(ram, st, p, w, i, g)
      modifies this`mem, this`st, tables, refs
      ensures Valid() && st == Anon(old(st), p, w, g, DATA_ATTRS)
      ensures OthersSee(old(st), st, old(mem), mem, p)
      ensures View(p) == old(View(p))[w := mem[g]] && SeesMore(old(View(p)), View(p))
    {
      ghost var s, s' := st, Anon(st, p, w, g, DATA_ATTRS);
      AnonInv(ram, s, p, w, i, g, DATA_ATTRS);
      FreshUnmapped(ram, s, g);
      var contents: Bytes := *;
      AnonViews(ram, s, s', p, w, g, mem, contents);
      mem := mem[g := contents];
      st := s';
      FillOne(p, w, g, s, s');
    }

    /** Map the pages of the text and count a reference for each. */
    method FillText(p: nat, size: nat, ghost s: State, ghost s': State)
      requires Represents(s) && p in s.procs && Unloaded(s.procs[p]) && NumPages(size) == s.procs[p].text <= PAGES
      requires s.procs[p].code + s.procs[p].text <= ram && s' == TextFilled(s, p, TEXT_ATTRS)
      modifies tables, refs
      ensures Represents(s')
    {
      ghost var m0, pl0, pr := tables.m, tables.pl, s.procs[p];
      var r, code := pcbs[p].ttbr, pcbs[p].code;
      assert HasRoot(m0, pl0, pcbs[p], pr);
      tables.Fill(r, 0, (size - 1) / PAGE_SIZE + 1, code, TEXT_ATTRS, false);
      RefText(code, size, pr.text);
      ghost var sp := s'.procs[p].space;
      TextFilledSpace(s, p, TEXT_ATTRS);
      FilledShows(m0, tables.m, r, pr.space, sp, 0, pr.text, code, TEXT_ATTRS);
      RootedAfter(m0, tables.m, pl0, tables.pl, pcbs, s.procs, p, sp);
    }

    method RefText(code: nat, size: nat, ghost n: nat)
      requires n == NumPages(size) && code + n <= refs.Length
      modifies refs
      ensures refs[..] == RefRange(old(refs[..]), code, n)
    {
      var i := 0;
      ghost var k := 0;
      while i < size
        invariant i == k * PAGE_SIZE && k <= n && (i >= size ==> k == n) && refs[..] == RefRange(old(refs[..]), code, k)
      {
        PageSteps(size, i, k);
        RefPage(code + i / PAGE_SIZE);
        i, k := i + PAGE_SIZE, k + 1;
      }
    }

    /** The text case of a translation fault: the program appears at page 0. The invariant survives exactly if no
        RAM page lay in a table that the text crosses into. */
    method LoadText(p: nat, size: nat)
      requires Valid() && p in st.procs && Unloaded(st.procs[p]) && NumPages(size) == st.procs[p].text
      modifies this`st, tables, refs
      ensures old(st).procs[p].code + old(st).procs[p].text <= ram
      ensures Represents(st) && st == TextFilled(old(st), p, TEXT_ATTRS) && OthersSee(old(st), st, mem, mem, p)
      ensures Valid() <==> RamApart(ram, old(st).procs[p].space, 0, NumPages(size))
      ensures View(p) == ViewOf(ram, Uncrossed(old(st).procs[p].space, 0, NumPages(size)), mem)
                         + TextBytes(mem, old(st).procs[p].code, NumPages(size))
      ensures Valid() ==> SeesMore(old(View(p)), View(p))
    {
      ghost var s := st;
      ghost var s' := TextOutcome(ram, s, p, mem);
      st := s';
      FillText(p, size, s, s');
    }

    /** Give the mapped page w of p another entry with frame f, writable. */
    method Remap(p: nat, w: nat, f: nat, ghost s: State, ghost s': State)
      requires Represents(s) && p in s.procs && w < PAGES && w in s.procs[p].space
      requires s'.procs == s.procs[p := s.procs[p].(space := s.procs[p].space[w := s.procs[p].space[w].(frame := f,
               rdonly := false)])]
      requires s'.wperm == s.wperm
      modifies tables
      ensures Represents(s'.(refs := s.refs))
    {
      ghost var m0, pl0, sp0 := tables.m, tables.pl, s.procs[p].space;
      assert HasRoot(m0, pl0, pcbs[p], s.procs[p]);
      ghost var sp: Space := sp0[w := sp0[w].(frame := f, rdonly := false)];
      assert Trans(m0, pcbs[p].ttbr, w) == Some(sp0[w]);
      tables.Replace(pcbs[p].ttbr, w, f, true);
      ReplacedShows(m0, tables.m, pcbs[p].ttbr, sp0, w, sp[w]);
      RootedAfter(m0, tables.m, pl0, tables.pl, pcbs, s.procs, p, sp);
    }

    /** A write fault on a page with one sharer: make it writable. */
    method Upgrade(p: nat, w: nat, f: nat)
      requires Valid() && p in st.procs && w in st.procs[p].space && f == st.procs[p].space[w].frame < ram
               && st.refs[f] <= 1
      modifies this`st, tables
      ensures Valid() && st == Upgraded(old(st), p, w)
      ensures OthersSee(old(st), st, mem, mem, p) && View(p) == old(View(p))
    {
      ghost var s, s' := st, Upgraded(st, p, w);
      MappedPage(ram, s, p, w);
      UpgradedInv(ram, s, p, w);
      SameViews(s, s', mem, p);
      SameFramesView(ram, s.procs[p].space, s'.procs[p].space, mem);
      st := s';
      Remap(p, w, f, s, s');
    }

    /** deref_page, when other references remain. */
    method DerefPage(f: nat)
      requires f < refs.Length && refs[f] > 1
      modifies refs
      ensures refs[..] == old(refs[..])[f := old(refs[f]) - 1]
    {
      refs[f] := refs[f] - 1;
    }

    /** The page w of p moves from frame f to frame g, in the tables and in the counts. */
    method MoveTo(p: nat, w: nat, f: nat, g: nat, ghost s: State, ghost s': State)
      requires Represents(s) && p in s.procs && w in s.procs[p].space && w < PAGES
               && f == s.procs[p].space[w].frame < ram
      requires g < ram && s.refs[f] > 1 && s' == CowState.Copied(s, p, w, g)
      modifies tables, refs
      ensures Represents(s')
    {
      Remap(p, w, g, s, s');
      DerefPage(f);
      RefPage(g);
    }

    /** A write fault on a page with several sharers: p continues on a copy in the new page g. */
    method CopyPage(p: nat, w: nat, f: nat, g: nat)
      requires Valid() && CanCopy(ram, st, p, w, g) && f == st.procs[p].space[w].frame
      modifies this`mem, this`st, tables, refs
      ensures Valid() && st == CowState.Copied(old(st), p, w, g)
      ensures OthersSee(old(st), st, old(mem), mem, p) && View(p) == old(View(p))
    {
      ghost var s, s' := st, CowState.Copied(st, p, w, g);
      MappedPage(ram, s, p, w);
      CopiedInv(ram, s, p, w, g);
      FreshUnmapped(ram, s, g);
      CopiedViews(ram, s, s', p, w, g, mem);
      mem := mem[g := mem[f]];
      st := s';
      MoveTo(p, w, f, g, s, s');
    }

    /** A permission fault of p at page w. */
    method WriteFault(p: nat, w: nat, g: nat) returns (r: Outcome)
      requires Valid() && p in st.procs && w in st.procs[p].space && st.procs[p].space[w].frame < ram
      requires 0 < g < ram && g !in st.used
      modifies this`mem, this`st, tables, refs
      ensures Valid() && OthersSee(old(st), st, old(mem), mem, p) && View(p) == old(View(p))
      ensures r == Resumed <==> old(st).procs[p].space[w].frame in old(st).wperm
      ensures old(st).procs[p].space[w].rdonly ==> r == Resumed
      ensures r == Resumed ==>
                w in st.procs[p].space && !st.procs[p].space[w].rdonly && st.procs[p].space[w].frame < ram
      ensures r == SegFault ==> st == old(st)
    {
      MappedPage(ram, st, p, w);
      assert HasRoot(tables.m, tables.pl, pcbs[p], st.procs[p]);
      assert Trans(tables.m, pcbs[p].ttbr, w) == Some(st.procs[p].space[w]);
      var page := tables.Translate(pcbs[p].ttbr, w);
      var f := page.value;
      if f !in tables.wperm {
        SameViews(st, st, mem, p);
        return SegFault;
      }
      if refs[f] > 1 {
        CopyPage(p, w, f, g);
      } else {
        Upgrade(p, w, f);
      }
      return Resumed;
    }

    /** A user store to a writable page: no other process reads anything new. */
    method Write(p: nat, w: nat, b: Bytes)
      requires Valid() && p in st.procs && w in st.procs[p].space && st.procs[p].space[w].frame < ram
               && !st.procs[p].space[w].rdonly
      modifies this`mem
      ensures Valid() && OthersSee(st, st, old(mem), mem, p) && View(p) == old(View(p))[w := b]
    {
      assert HasRoot(tables.m, tables.pl, pcbs[p], st.procs[p]);
      OneProc(ram, st, p);
      assert Trans(tables.m, pcbs[p].ttbr, w) == Some(st.procs[p].space[w]);
      var page := tables.Translate(pcbs[p].ttbr, w);
      WrittenViews(ram, st, p, w, page.value, mem, b);
      mem := mem[page.value := b];
    }

    /** list_find with in_section: the first section that holds the address. */
    method FindSection(ss: seq<Section>, addr: nat) returns (i: nat)
      ensures i <= |ss| && (i < |ss| ==> AddrIn(ss[i], addr)) && forall j :: 0 <= j < i ==> !AddrIn(ss[j], addr)
    {
      i := 0;
      while i < |ss| && !AddrIn(ss[i], addr)
        invariant i <= |ss| && forall j :: 0 <= j < i ==> !AddrIn(ss[j], addr)
      {
        i := i + 1;
      }
    }

    /** Map the faulting page as its section says. */
    method MapFaulting(p: nat, addr: nat, g: nat, ghost i: nat, sec: Section)
      requires Valid() && p in st.procs && addr / PAGE_SIZE !in st.procs[p].space && addr / PAGE_SIZE < PAGES
               && 0 < g < ram && g !in st.used
      requires i < |st.procs[p].sections| && sec == st.procs[p].sections[i] && sec.kind != Device
               && InSection(sec, addr / PAGE_SIZE)
      requires sec.kind == Text ==> Unloaded(st.procs[p]) && addr / PAGE_SIZE < NumPages(sec.size) == st.procs[p].text
      modifies this`mem, this`st, tables, refs
      ensures Represents(st) && OthersSee(old(st), st, old(mem), mem, p) && addr / PAGE_SIZE in View(p)
      ensures Valid() <==> (sec.kind == Text ==> RamApart(ram, old(st).procs[p].space, 0, old(st).procs[p].text))
      ensures Valid() ==> SeesMore(old(View(p)), View(p))
      ensures if sec.kind == Text
              then mem == old(mem) && ShowsText(View(p), mem, old(st).procs[p].code, old(st).procs[p].text)
              else st == Anon(old(st), p, addr / PAGE_SIZE, g, DATA_ATTRS)
    {
      if sec.kind == Text {
        ghost var pr := st.procs[p];
        LoadText(p, sec.size);
        TextShown(ViewOf(ram, Uncrossed(pr.space, 0, pr.text), mem), mem, pr.code, pr.text);
      } else {
        MapNew(p, addr / PAGE_SIZE, i, g);
      }
    }

    /** A translation fault of p at a byte address: the page gets mapped exactly if a text, stack or heap section
        holds the address. */
    method TranslationFault(p: nat, addr: nat, g: nat) returns (r: Outcome)
      requires Valid() && p in st.procs && addr / PAGE_SIZE !in st.procs[p].space
      requires 0 < g < ram && g !in st.used
      modifies this`mem, this`st, tables, refs
      ensures Represents(st) && OthersSee(old(st), st, old(mem), mem, p)
      ensures Valid() <==> Harmless(ram, old(st).procs[p], addr)
      ensures Valid() ==> SeesMore(old(View(p)), View(p))
      ensures r == Resumed <==> Backed(old(st).procs[p].sections, addr)
      ensures r == Resumed ==> addr / PAGE_SIZE in View(p)
      ensures r == Resumed ==>
                if addr / PAGE_SIZE < old(st).procs[p].text
                then mem == old(mem) && ShowsText(View(p), mem, old(st).procs[p].code, old(st).procs[p].text)
                else st == Anon(old(st), p, addr / PAGE_SIZE, g, DATA_ATTRS)
      ensures r == SegFault ==> st == old(st) && mem == old(mem)
    {
      assert HasRoot(tables.m, tables.pl, pcbs[p], st.procs[p]);
      var ss := pcbs[p].sections;
      var i := FindSection(ss, addr);
      FaultCase(ram, st, p, addr, i);
      if i == |ss| || ss[i].kind == Device {
        SameViews(st, st, mem, p);
        return SegFault;
      }
      MapFaulting(p, addr, g, i, ss[i]);
      return Resumed;
    }

    /** Add a reference to the frame of page v; an unmapped page counts as page 0. */
    method RefMapped(r: nat, v: nat, ghost sp: Space)
      requires tables.Valid() && IsRoot(tables.pl, r) && Shows(tables.m, r, sp) && v < PAGES
               && FrameOf(sp, v) < refs.Length
      modifies refs
      ensures refs[..] == Incremented(old(refs[..]), FrameOf(sp, v))
    {
      var page := tables.Translate(r, v);
      RefPage(if page == None then 0 else page.value);
    }

    /** The inner loop of add_ref_sections: the pages of section i. */
    method AddRefSection(r: nat, sec: Section, ghost i: nat, ghost pr: Proc, ghost refs0: seq<nat>)
      requires tables.Valid() && IsRoot(tables.pl, r) && Shows(tables.m, r, pr.space)
      requires Countable(ram, pr, i) && pr.sections[i] == sec && refs.Length == ram
      requires Counted(ram, pr.space, pr.sections, i, 0, refs0, refs[..])
      modifies refs
      ensures Counted(ram, pr.space, pr.sections, i + 1, 0, refs0, refs[..])
    {
      var b := 0;
      ghost var k := 0;
      while b < sec.size
        invariant b == k * PAGE_SIZE && k <= NumPages(sec.size) && (b >= sec.size ==> k == NumPages(sec.size))
        invariant Counted(ram, pr.space, pr.sections, i, k, refs0, refs[..])
      {
        PageSteps(sec.size, b, k);
        CountNext(ram, pr, i, k, refs0, refs[..]);
        RefMapped(r, sec.base + b / PAGE_SIZE, pr.space);
        b, k := b + PAGE_SIZE, k + 1;
      }
      CountSection(ram, pr.space, pr.sections, i, k, refs0, refs[..]);
    }

    /** add_ref_sections: every frame that p maps gains one reference. */
    method AddRefSections(p: nat, ghost s: State)
      requires Represents(s) && p in s.procs && ProcOk(ram, s, s.procs[p])
      modifies refs
      ensures CountsFork(ram, s.procs[p].space, old(refs[..]), refs[..])
    {
      assert HasRoot(tables.m, tables.pl, pcbs[p], s.procs[p]);
      ghost var pr, refs0 := s.procs[p], refs[..];
      var i := 0;
      while i < |pcbs[p].sections|
        invariant i <= |pr.sections| && Counted(ram, pr.space, pr.sections, i, 0, refs0, refs[..])
      {
        if pcbs[p].sections[i].kind != Device {
          SectionCountable(ram, s, pr, i);
          AddRefSection(pcbs[p].ttbr, pcbs[p].sections[i], i, pr, refs0);
        } else {
          CountSection(ram, pr.space, pr.sections, i, 0, refs0, refs[..]);
        }
        i := i + 1;
      }
      AllCounted(ram, s, pr, refs0, refs[..]);
    }

    /** The part of fork that concerns user memory: counts, then tables. */
    method ForkTables(p: nat, q: nat, ghost s: State) returns (ghost s': State)
      requires Represents(s) && p in s.procs && q !in s.procs && Inv(ram, s)
      modifies this`pcbs, tables, refs
      ensures Records(ram, s, p, s'.wperm) && CountsFork(ram, s.procs[p].space, s.refs, s'.refs)
      ensures s' == Doubled(Guarded(ram, s, p, s'.wperm), p, q, s'.refs) && Represents(s')
    {
      ghost var m0, pl0 := tables.m, tables.pl;
      assert HasRoot(m0, pl0, pcbs[p], s.procs[p]);
      OneProc(ram, s, p);
      AddRefSections(p, s);
      var dst := tables.ForkSpace(pcbs[p].ttbr, ram);
      ForkRecords(ram, m0, pcbs[p].ttbr, s, p, tables.wperm);
      ForkRooted(ram, m0, tables.m, pl0, tables.pl, pcbs, s.procs, p, q, dst);
      s' := Doubled(Guarded(ram, s, p, tables.wperm), p, q, refs[..]);
      pcbs := pcbs[q := pcbs[p].(ttbr := dst)];
    }

    /** fork: the child reads exactly what the caller reads, and nobody's view changes. The invariant survives exactly
        if the caller's text does not wait to be mapped, since otherwise both would map it as their own. */
    method Fork(p: nat, q: nat)
      requires Valid() && p in st.procs && q !in st.procs && |st.procs| < MAX_PROC
      modifies this`pcbs, this`st, tables, refs
      ensures Represents(st) && (Valid() <==> !Unloaded(old(st).procs[p])) && st.procs.Keys == old(st).procs.Keys + {q}
      ensures st.procs[q] == st.procs[p] == old(st).procs[p].(space := ForkedSpace(ram, old(st).procs[p].space))
      ensures LosesWriting(ram, old(st).procs[p].space, st.procs[p].space)
      ensures OthersSee(old(st), st, mem, mem, p) && View(q) == View(p) == old(View(p))
    {
      ForkLosesWriting(ram, st.procs[p].space);
      ghost var s' := ForkStep(p, q, st);
      st := s';
    }

    /** The tables and counts of fork, and what that means for the processes. */
    method ForkStep(p: nat, q: nat, ghost s: State) returns (ghost s': State)
      requires Represents(s) && Inv(ram, s) && p in s.procs && q !in s.procs && |s.procs| < MAX_PROC
      modifies this`pcbs, tables, refs
      ensures Represents(s') && (Inv(ram, s') <==> !Unloaded(s.procs[p])) && s'.procs.Keys == s.procs.Keys + {q}
      ensures s'.procs[q] == s'.procs[p] == s.procs[p].(space := ForkedSpace(ram, s.procs[p].space))
      ensures OthersSee(s, s', mem, mem, p)
      ensures ViewOf(ram, s'.procs[p].space, mem) == ViewOf(ram, s.procs[p].space, mem)
    {
      s' := ForkTables(p, q, s);
      ForkResult(ram, s, s', p, q, mem);
    }

    /** exec of a first image: text and stack sections over an empty root table. */
    method Exec(p: nat, size: nat, code: nat)
      requires Valid() && p !in st.procs && |st.procs| < MAX_PROC && 0 < size && NumPages(size) <= USR_STACK_PAGE
      requires 0 < code && code + NumPages(size) <= ram && forall f :: code <= f < code + NumPages(size) ==>
               f !in st.used
      modifies this`pcbs, this`st, tables
      ensures Valid() && st == Execed(old(st), p, ImageSections(size), code, NumPages(size))
      ensures OthersSee(old(st), st, mem, mem, p) && View(p) == map[]
    {
      ghost var s, s' := st, Execed(st, p, ImageSections(size), code, NumPages(size));
      ghost var m0, pl0 := tables.m, tables.pl;
      ExecResult(ram, s, s', p, size, code, mem);
      var root := tables.NewRoot();
      var pcb := Pcb(root, code, []);
      pcb := pcb.(sections := pcb.sections + [Section(Text, USR_CODE_START, size)]);
      pcb := pcb.(sections := pcb.sections + [Section(Stack, USR_STACK_PAGE, STACK_EL0_SIZE)]);
      ExecRooted(m0, tables.m, pl0, tables.pl, pcbs, s.procs, p, pcb, s'.procs[p]);
      pcbs := pcbs[p := pcb];
      st := s';
    }

    /** A fresh program touches any byte of its image: the fault is resolved, the first instruction included. */
    method ExecAndTouch(p: nat, size: nat, code: nat, addr: nat, g: nat) returns (r: Outcome)
      requires Valid() && p !in st.procs && |st.procs| < MAX_PROC && 0 < size && NumPages(size) <= USR_STACK_PAGE
      requires 0 < code && code + NumPages(size) <= ram && forall f :: code <= f < code + NumPages(size) ==>
               f !in st.used
      requires 0 < g < ram && g !in st.used && !(code <= g < code + NumPages(size))
      modifies this, tables, refs
      ensures Valid() && p in st.procs
      ensures r == Resumed <==> addr < size || 0xffff_ffff_b000 <= addr < 0xffff_ffff_f000
      ensures r == Resumed ==> addr / PAGE_SIZE in View(p)
      ensures addr < size ==> mem == old(mem) && ShowsText(View(p), mem, code, NumPages(size))
    {
      ExecedProc(ram, st, p, size, code, addr);
      ImageBacked(size, addr);
      Exec(p, size, code);
      r := TranslationFault(p, addr, g);
    }

    /** add_section of a heap that is populated on demand. */
    method AddHeap(p: nat, base: nat, size: nat)
      requires Valid() && p in st.procs && Separate(st.procs[p].sections, Section(Heap, base, size))
               && base + NumPages(size) <= PAGES
      modifies this`pcbs, this`st
      ensures Valid() && st == Sectioned(old(st), p, Section(Heap, base, size), map[])
      ensures BacksMore(old(st).procs[p].sections, st.procs[p].sections, base * PAGE_SIZE, size)
      ensures OthersSee(old(st), st, mem, mem, p) && View(p) == old(View(p))
    {
      var sec := Section(Heap, base, size);
      MoreBacked(st.procs[p].sections, sec);
      ghost var s, s' := st, Sectioned(st, p, sec, map[]);
      SectionedInv(ram, s, p, sec, map[]);
      SameViews(s, s', mem, p);
      assert s.procs[p].space + map[] == s.procs[p].space;
      st := s';
      PushSection(p, sec, s, s');
    }

    method PushSection(p: nat, sec: Section, ghost s: State, ghost s': State)
      requires Represents(s) && p in s.procs
      requires s' == s.(procs := s.procs[p := s.procs[p].(sections := s.procs[p].sections + [sec])])
      modifies this`pcbs
      ensures Represents(s')
    {
      var pcb := pcbs[p].(sections := pcbs[p].sections + [sec]);
      assert HasRoot(tables.m, tables.pl, pcbs[p], s.procs[p]);
      RootedReplace(tables.m, tables.pl, pcbs, s.procs, p, pcb, s'.procs[p]);
      pcbs := pcbs[p := pcb];
    }

    /** Map n pages from base on to the device pages from pa on, and record them as a section. */
    method FillDevice(p: nat, base: nat, n: nat, pa: nat, ghost s: State, ghost s': State)
      requires Represents(s) && p in s.procs && base < PAGES && base + n <= PAGES
      requires forall w {:trigger w in s.procs[p].space} :: w in s.procs[p].space ==> !(base <= w < base + n)
      requires s' == DeviceFilled(s, p, base, n, pa)
      modifies this`pcbs, tables
      ensures Represents(s')
    {
      ghost var m0, pl0, sp0 := tables.m, tables.pl, s.procs[p].space;
      ghost var sp := Uncrossed(sp0, base, base + n) + DeviceRun(base, n, pa);
      assert HasRoot(m0, pl0, pcbs[p], s.procs[p]);
      tables.Fill(pcbs[p].ttbr, base, base + n, pa, TEXT_ATTRS, false);
      DeviceFilledSpace(sp0, base, n, pa);
      FilledShows(m0, tables.m, pcbs[p].ttbr, sp0, sp, base, base + n, pa, TEXT_ATTRS);
      RootedAfter(m0, tables.m, pl0, tables.pl, pcbs, s.procs, p, sp);
      ghost var mid := s.(procs := s.procs[p := s.procs[p].(space := sp)]);
      assert mid.procs[p := s'.procs[p]] == s'.procs;
      PushSection(p, FrameBuffer(base, n), mid, s');
    }

    /** The frame buffer request of a user process: device pages appear at a fixed place. The invariant survives
        exactly if no RAM page lay in a table that the frame buffer crosses into; then no view of memory changes. */
    method MapDevice(p: nat, base: nat, n: nat, pa: nat)
      requires Valid() && p in st.procs && Separate(st.procs[p].sections, FrameBuffer(base, n))
      requires base < PAGES && base + n <= PAGES && ram <= pa
      modifies this`pcbs, this`st, tables
      ensures Represents(st) && st == DeviceFilled(old(st), p, base, n, pa) && OthersSee(old(st), st, mem, mem, p)
      ensures Valid() <==> RamApart(ram, old(st).procs[p].space, base, base + n)
      ensures ShowsDevice(st.procs[p], base, n, pa)
      ensures View(p) == ViewOf(ram, Uncrossed(old(st).procs[p].space, base, base + n), mem)
      ensures Valid() ==> View(p) == old(View(p))
    {
      ghost var s := st;
      ghost var s' := DeviceOutcome(ram, s, p, base, n, pa, mem);
      DeviceShown(s, p, base, n, pa);
      st := s';
      FillDevice(p, base, n, pa, s, s');
    }
  }
}
