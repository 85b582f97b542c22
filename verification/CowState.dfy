/**
 Demand paging and copy-on-write as steps on the address spaces of all processes:
 the invariant that ties reference counts and permissions to the mappings.
 */
module CowState {
  import opened Common
  import opened PageWalk
  import opened PageFork
  import opened PageTables

  const PD_NX_EL0: nat := 0x40_0000_0000_0000
  const PD_ACCESS: nat := 0x400
  const PD_USER_ACCESS: nat := 0x40
  const TEXT_ATTRS: nat := PD_USER_ACCESS + PD_ACCESS
  const DATA_ATTRS: nat := PD_NX_EL0 + PD_USER_ACCESS + PD_ACCESS

  datatype Kind = Text | Heap | Stack | Device

  /** A section; base is a page number, size is in bytes. */
  datatype Section = Section(kind: Kind, base: nat, size: nat)

  function NumPages(size: nat): (r: nat) {
    (size + PAGE_SIZE - 1) / PAGE_SIZE
  }

  ghost predicate InSection(s: Section, w: nat) {
    s.base <= w < s.base + NumPages(s.size)
  }

  type Space = map<nat, Entry>

  /** Per process: its mappings, its sections, and the physical block with its program text. */
  datatype Proc = Proc(space: Space, sections: seq<Section>, code: nat, text: nat)

  /** refs and wperm are usr_pages; used are the frames handed out by the allocator. */
  datatype State = State(procs: map<nat, Proc>, refs: seq<nat>, wperm: set<nat>, used: set<nat>)

  ghost predicate Maps(sp: Space, f: nat) {
    exists w :: w in sp && sp[w].frame == f
  }

  /** The processes that map frame f. */
  ghost function Sharers(procs: map<nat, Proc>, f: nat): (r: set<nat>) {
    set p | p in procs && Maps(procs[p].space, f)
  }

  /** An address space maps each RAM frame at most once. */
  ghost predicate Injective(ram: nat, sp: Space) {
    forall w, x {:trigger sp[w], sp[x]} :: w in sp && x in sp && sp[w].frame == sp[x].frame < ram ==> w == x
  }

  ghost predicate SectionsDisjoint(ss: seq<Section>) {
    forall i, j, w {:trigger InSection(ss[i], w), InSection(ss[j], w)} ::
      0 <= i < |ss| && 0 <= j < |ss| && InSection(ss[i], w) && InSection(ss[j], w) ==> i == j
  }

  /** Page w belongs to a section that is not a device. */
  ghost predicate RamPage(ss: seq<Section>, w: nat) {
    exists i :: 0 <= i < |ss| && ss[i].kind != Device && InSection(ss[i], w)
  }

  ghost predicate Loaded(pr: Proc) {
    forall i :: 0 <= i < pr.text ==> i in pr.space
  }

  ghost predicate Unloaded(pr: Proc) {
    pr.text > 0 && forall i :: 0 <= i < pr.text ==> i !in pr.space
  }

  ghost predicate IsCode(pr: Proc, f: nat) {
    pr.code <= f < pr.code + pr.text
  }

  ghost predicate Covered(ss: seq<Section>, w: nat) {
    exists i :: 0 <= i < |ss| && InSection(ss[i], w)
  }

  /** The two low bits of a last-level descriptor that maps a page. */
  predicate IsPage(e: Entry) {
    e.valid && e.table
  }

  /** A mapped page is RAM exactly in the non-device sections; then its frame is in use, and recoverable if it is
      read-only. */
  ghost predicate PageOk(ram: nat, st: State, ss: seq<Section>, w: nat, e: Entry) {
    && IsPage(e) && w < PAGES && Covered(ss, w)
    && (e.frame < ram <==> RamPage(ss, w))
    && (e.frame < ram ==> e.frame > 0 && e.frame in st.used)
    && (e.frame < ram && e.rdonly ==> e.frame in st.wperm)
  }

  ghost predicate PagesOk(ram: nat, st: State, pr: Proc) {
    forall w {:trigger pr.space[w]} :: w in pr.space ==> PageOk(ram, st, pr.sections, w, pr.space[w])
  }

  /** The sections lie in user space and do not share pages, and the text section is the program at page 0. */
  ghost predicate SectionsOk(ss: seq<Section>, text: nat) {
    && SectionsDisjoint(ss)
    && (forall i {:trigger ss[i]} :: 0 <= i < |ss| && ss[i].kind == Text ==>
          ss[i].base == 0 && NumPages(ss[i].size) == text)
    && (forall i {:trigger ss[i]} :: 0 <= i < |ss| ==> ss[i].base + NumPages(ss[i].size) <= PAGES)
    && (text > 0 ==> exists i :: 0 <= i < |ss| && ss[i].kind == Text)
  }

  /** The text is mapped as a whole or waits in frames that are in use. */
  ghost predicate TextOk(ram: nat, st: State, pr: Proc) {
    && (Loaded(pr) || Unloaded(pr))
    && (Unloaded(pr) ==> 0 < pr.code && pr.code + pr.text <= ram && forall f :: IsCode(pr, f) ==> f in st.used)
  }

  ghost predicate ProcOk(ram: nat, st: State, pr: Proc) {
    Injective(ram, pr.space) && PagesOk(ram, st, pr) && SectionsOk(pr.sections, pr.text) && TextOk(ram, st, pr)
  }

  ghost predicate RefsMatch(ram: nat, st: State) {
    |st.refs| == ram && forall f {:trigger st.refs[f]} :: 0 < f < ram ==> st.refs[f] == |Sharers(st.procs, f)|
  }

  ghost predicate OwnWritable(ram: nat, st: State, p: nat, pr: Proc) {
    forall w {:trigger pr.space[w]} :: w in pr.space && pr.space[w].frame < ram && !pr.space[w].rdonly ==>
      Sharers(st.procs, pr.space[w].frame) == {p}
  }

  ghost predicate CodeOf(st: State, q: nat, f: nat) {
    q in st.procs && Unloaded(st.procs[q]) && IsCode(st.procs[q], f)
  }

  /** Text waiting to be mapped is mapped by nobody and belongs to one process. */
  ghost predicate OwnText(st: State, st': State, p: nat, pr: Proc) {
    Unloaded(pr) ==> forall f: nat {:trigger IsCode(pr, f)} :: IsCode(pr, f) ==>
      Sharers(st'.procs, f) == {} && forall q :: q != p ==> !CodeOf(st, q, f)
  }

  /** A process whose pages are in order, whose writable RAM pages it alone maps, and whose waiting text is its own. */
  ghost predicate GoodProc(ram: nat, st: State, p: nat)
    requires p in st.procs
  {
    ProcOk(ram, st, st.procs[p]) && OwnWritable(ram, st, p, st.procs[p]) && OwnText(st, st, p, st.procs[p])
  }

  /** Reference counts are the numbers of sharers, and every process is good. */
  ghost predicate Inv(ram: nat, st: State) {
    && |st.procs| <= MAX_PROC && RefsMatch(ram, st)
    && (forall p {:trigger GoodProc(ram, st, p)} :: p in st.procs ==> GoodProc(ram, st, p))
  }

  /** What the invariant says about one process. */
  lemma OneProc(ram: nat, st: State, p: nat)
    requires Inv(ram, st) && p in st.procs
    ensures ProcOk(ram, st, st.procs[p]) && OwnWritable(ram, st, p, st.procs[p]) && OwnText(st, st, p, st.procs[p])
    ensures RefsMatch(ram, st)
  {
    assert GoodProc(ram, st, p);
  }

  /** Counts never reach the 16-bit limit of ref_count. */
  lemma RefsBounded(ram: nat, st: State, f: nat)
    requires RefsMatch(ram, st) && |st.procs| <= MAX_PROC && 0 < f < ram
    ensures st.refs[f] <= MAX_PROC < 65536
  {
    SubsetSize(Sharers(st.procs, f), st.procs.Keys);
  }

  lemma SubsetSize(a: set<nat>, b: set<nat>)
    requires a <= b
    ensures |a| <= |b|
  {
    if a != {} {
      var x :| x in a;
      SubsetSize(a - {x}, b - {x});
    }
  }

  // ----- one process changes

  lemma SharersUpdate(procs: map<nat, Proc>, p: nat, pr: Proc, f: nat)
    ensures Sharers(procs[p := pr], f) ==
            if Maps(pr.space, f) then Sharers(procs, f) + {p} else Sharers(procs, f) - {p}
  {
  }

  /** Frame f is mapped by pr although process p did not map it before. */
  ghost predicate NewlyMapped(st: State, p: nat, pr: Proc, f: nat) {
    Maps(pr.space, f) && !(p in st.procs && Maps(st.procs[p].space, f))
  }

  ghost predicate MappedReadOnly(st: State, f: nat) {
    forall q, x {:trigger st.procs[q].space[x]} ::
      q in st.procs && x in st.procs[q].space && st.procs[q].space[x].frame == f ==> st.procs[q].space[x].rdonly
  }

  /** The frames that p newly maps are ones that nobody can write and that are nobody's unmapped text. */
  ghost predicate TakesSafely(ram: nat, st: State, p: nat, pr: Proc) {
    forall f {:trigger NewlyMapped(st, p, pr, f)} :: 0 <= f < ram && NewlyMapped(st, p, pr, f) ==>
      MappedReadOnly(st, f) && forall q :: q != p ==> !CodeOf(st, q, f)
  }

  /** Process p becomes pr. */
  ghost predicate Changes(ram: nat, st: State, st': State, p: nat, pr: Proc) {
    && st'.procs == st.procs[p := pr] && st.wperm <= st'.wperm && st.used <= st'.used
    && |st'.procs| <= MAX_PROC
    && TakesSafely(ram, st, p, pr) && RefsMatch(ram, st') && OwnWritable(ram, st', p, pr) && OwnText(st, st', p, pr)
  }

  lemma ProcKept(ram: nat, st: State, st': State, pr: Proc)
    requires ProcOk(ram, st, pr) && st.wperm <= st'.wperm && st.used <= st'.used
    ensures ProcOk(ram, st', pr)
  {
  }

  /** A writable page of another process keeps its single owner. */
  lemma OthersStayAlone(ram: nat, st: State, st': State, p: nat, pr: Proc, q: nat, w: nat)
    requires Inv(ram, st) && Changes(ram, st, st', p, pr) && q in st.procs && q != p
    requires w in st.procs[q].space && st.procs[q].space[w].frame < ram && !st.procs[q].space[w].rdonly
    ensures Sharers(st'.procs, st.procs[q].space[w].frame) == {q}
  {
    var f := st.procs[q].space[w].frame;
    SharersUpdate(st.procs, p, pr, f);
    OneProc(ram, st, q);
    assert Sharers(st.procs, f) == {q};
    assert !NewlyMapped(st, p, pr, f);
    assert p !in Sharers(st.procs, f);
  }

  lemma UnloadedCode(ram: nat, st: State, p: nat, f: nat)
    requires Inv(ram, st) && CodeOf(st, p, f)
    ensures 0 < f < ram && f in st.used && Sharers(st.procs, f) == {} && forall q :: q != p ==> !CodeOf(st, q, f)
  {
    OneProc(ram, st, p);
    assert IsCode(st.procs[p], f);
  }

  lemma OthersTextStaysUnmapped(ram: nat, st: State, st': State, p: nat, pr: Proc, q: nat, f: nat)
    requires Inv(ram, st) && Changes(ram, st, st', p, pr) && q != p && CodeOf(st, q, f)
    ensures Sharers(st'.procs, f) == {}
  {
    SharersUpdate(st.procs, p, pr, f);
    assert IsCode(st.procs[q], f);
    UnloadedCode(ram, st, q, f);
    assert !NewlyMapped(st, p, pr, f);
    assert p !in Sharers(st.procs, f);
  }

  lemma OthersStayGood(ram: nat, st: State, st': State, p: nat, pr: Proc, q: nat)
    requires Inv(ram, st) && Changes(ram, st, st', p, pr) && q in st.procs && q != p
    ensures GoodProc(ram, st', q)
  {
    OneProc(ram, st, q);
    ProcKept(ram, st, st', st.procs[q]);
    forall w | w in st.procs[q].space && st.procs[q].space[w].frame < ram && !st.procs[q].space[w].rdonly
      ensures Sharers(st'.procs, st.procs[q].space[w].frame) == {q}
    {
      OthersStayAlone(ram, st, st', p, pr, q, w);
    }
    if Unloaded(st.procs[q]) {
      forall f: nat | IsCode(st.procs[q], f) ensures Sharers(st'.procs, f) == {} && forall r :: r != q ==>
        !CodeOf(st', r, f) {
        assert CodeOf(st, q, f);
        OthersTextStaysUnmapped(ram, st, st', p, pr, q, f);
        UnloadedCode(ram, st, q, f);
        forall r | r != q ensures !CodeOf(st', r, f) {
          if r == p {
            assert IsCode(pr, f) && Unloaded(pr) ==> !CodeOf(st, q, f);
          } else {
            assert CodeOf(st', r, f) <==> CodeOf(st, r, f);
          }
        }
      }
    }
  }

  lemma InvAfterChange(ram: nat, st: State, st': State, p: nat, pr: Proc)
    requires Inv(ram, st) && Changes(ram, st, st', p, pr) && ProcOk(ram, st', pr)
    ensures Inv(ram, st')
  {
    forall q | q in st'.procs ensures GoodProc(ram, st', q) {
      if q != p {
        OthersStayGood(ram, st, st', p, pr, q);
      } else if Unloaded(pr) {
        forall f: nat | IsCode(pr, f) ensures Sharers(st'.procs, f) == {} && forall r :: r != p ==> !CodeOf(st', r, f) {
          forall r | r != p ensures !CodeOf(st', r, f) {
            assert CodeOf(st', r, f) <==> CodeOf(st, r, f);
          }
        }
      }
    }
  }

  // ----- the steps

  function Incremented(refs: seq<nat>, f: nat): (r: seq<nat>)
    requires f < |refs|
  {
    refs[f := (refs[f] + 1) % 65536]
  }

  /** No process maps a frame that the allocator has not handed out. */
  lemma FreshUnmapped(ram: nat, st: State, g: nat)
    requires Inv(ram, st) && g < ram && g !in st.used
    ensures Sharers(st.procs, g) == {} && forall q :: !CodeOf(st, q, g)
  {
    forall q | q in st.procs ensures !Maps(st.procs[q].space, g) && !CodeOf(st, q, g) {
      OneProc(ram, st, q);
    }
  }

  /** Mapping one page to a frame that the address space does not use elsewhere. */
  lemma SetPage(ram: nat, st: State, pr: Proc, w: nat, e: Entry)
    requires Injective(ram, pr.space) && PagesOk(ram, st, pr) && PageOk(ram, st, pr.sections, w, e)
    requires e.frame < ram ==> forall x :: x in pr.space && x != w ==> pr.space[x].frame != e.frame
    ensures var pr' := pr.(space := pr.space[w := e]); Injective(ram, pr'.space) && PagesOk(ram, st, pr')
  {
  }

  lemma SetPageMaps(sp: Space, w: nat, e: Entry, f: nat)
    ensures Maps(sp[w := e], f) <==> f == e.frame || exists x :: x != w && x in sp && sp[x].frame == f
  {
    var sp' := sp[w := e];
    assert sp'[w].frame == e.frame;
    if exists x :: x != w && x in sp && sp[x].frame == f {
      var x :| x != w && x in sp && sp[x].frame == f;
      assert x in sp' && sp'[x].frame == f;
    }
  }

  lemma NotText(pr: Proc, i: nat, w: nat)
    requires SectionsOk(pr.sections, pr.text) && i < |pr.sections| && pr.sections[i].kind != Text
             && InSection(pr.sections[i], w)
    ensures w >= pr.text
  {
    if w < pr.text {
      var j :| 0 <= j < |pr.sections| && pr.sections[j].kind == Text;
      assert InSection(pr.sections[j], w);
    }
  }

  lemma TextKept(ram: nat, st: State, st': State, pr: Proc, w: nat, e: Entry)
    requires TextOk(ram, st, pr) && st.used <= st'.used && (w >= pr.text || w in pr.space)
    ensures TextOk(ram, st', pr.(space := pr.space[w := e]))
    ensures Unloaded(pr.(space := pr.space[w := e])) <==> Unloaded(pr)
  {
    var pr' := pr.(space := pr.space[w := e]);
    if Loaded(pr) {
      assert Loaded(pr');
      assert pr.text > 0 ==> 0 in pr.space && 0 in pr'.space;
    } else {
      assert Unloaded(pr');
    }
  }

  /** The clause of Changes about unmapped text, when the text and its sharers stay as they are. */
  lemma CodeClause(ram: nat, st: State, st': State, p: nat, pr: Proc)
    requires Inv(ram, st) && p in st.procs && pr.code == st.procs[p].code && pr.text == st.procs[p].text
    requires Unloaded(pr) ==> Unloaded(st.procs[p])
    requires forall f: nat {:trigger IsCode(pr, f)} ::
               IsCode(pr, f) && Sharers(st.procs, f) == {} && f in st.used && f < ram ==> Sharers(st'.procs, f) == {}
    ensures OwnText(st, st', p, pr)
  {
    if Unloaded(pr) {
      forall f | IsCode(pr, f) ensures Sharers(st'.procs, f) == {} && forall q :: q != p ==> !CodeOf(st, q, f) {
        assert CodeOf(st, p, f);
        UnloadedCode(ram, st, p, f);
      }
    }
  }

  // ----- a page that was not mapped gets a new frame

  function Anon(st: State, p: nat, w: nat, g: nat, attrs: nat): (r: State)
    requires p in st.procs && g < |st.refs|
  {
    var pr := st.procs[p];
    State(st.procs[p := pr.(space := pr.space[w := LeafEntry(g, attrs, false)])],
          Incremented(st.refs, g), st.wperm, st.used + {g})
  }

  ghost predicate CanMapAnon(ram: nat, st: State, p: nat, w: nat, i: nat, g: nat) {
    && Inv(ram, st) && p in st.procs && w < PAGES && w !in st.procs[p].space && 0 < g < ram && g !in st.used
    && i < |st.procs[p].sections| && InSection(st.procs[p].sections[i], w)
    && (st.procs[p].sections[i].kind == Heap || st.procs[p].sections[i].kind == Stack)
  }

  lemma AnonProc(ram: nat, st: State, p: nat, w: nat, i: nat, g: nat, attrs: nat)
    requires CanMapAnon(ram, st, p, w, i, g)
    ensures ProcOk(ram, Anon(st, p, w, g, attrs), Anon(st, p, w, g, attrs).procs[p])
    ensures Unloaded(Anon(st, p, w, g, attrs).procs[p]) ==> Unloaded(st.procs[p])
  {
    var st', pr, e := Anon(st, p, w, g, attrs), st.procs[p], LeafEntry(g, attrs, false);
    FreshUnmapped(ram, st, g);
    OneProc(ram, st, p);
    NotText(pr, i, w);
    ProcKept(ram, st, st', pr);
    assert RamPage(pr.sections, w);
    assert forall x :: x in pr.space && x != w ==> pr.space[x].frame != g by {
      assert p !in Sharers(st.procs, g);
    }
    SetPage(ram, st', pr, w, e);
    TextKept(ram, st, st', pr, w, e);
  }

  lemma MapsWithPage(sp: Space, w: nat, e: Entry, f: nat)
    requires w !in sp
    ensures Maps(sp[w := e], f) <==> f == e.frame || Maps(sp, f)
  {
    SetPageMaps(sp, w, e, f);
  }

  lemma SharersWithPage(procs: map<nat, Proc>, p: nat, pr: Proc, w: nat, e: Entry, f: nat)
    requires p in procs && w !in procs[p].space && pr == procs[p].(space := procs[p].space[w := e])
    ensures Sharers(procs[p := pr], f) == if f == e.frame then Sharers(procs, f) + {p} else Sharers(procs, f)
    ensures Maps(pr.space, f) <==> f == e.frame || Maps(procs[p].space, f)
  {
    MapsWithPage(procs[p].space, w, e, f);
    SharersUpdate(procs, p, pr, f);
  }

  lemma UnsharedIsReadOnly(st: State, f: nat)
    requires Sharers(st.procs, f) == {}
    ensures MappedReadOnly(st, f)
  {
    forall q, x | q in st.procs && x in st.procs[q].space
      ensures st.procs[q].space[x].frame == f ==> st.procs[q].space[x].rdonly
    {
      assert q !in Sharers(st.procs, f);
    }
  }

  /** Frame g, shared by nobody before, is now mapped by p alone; all other frames have the sharers they had. */
  ghost predicate Gains(st: State, st': State, p: nat, g: nat) {
    forall f: nat {:trigger Sharers(st'.procs, f)} ::
      Sharers(st'.procs, f) == if f == g then {p} else Sharers(st.procs, f)
  }

  lemma GainRefs(ram: nat, st: State, st': State, p: nat, g: nat)
    requires RefsMatch(ram, st) && Gains(st, st', p, g) && 0 < g < ram && Sharers(st.procs, g) == {}
    requires st'.refs == Incremented(st.refs, g)
    ensures RefsMatch(ram, st')
  {
  }

  lemma GainWritable(ram: nat, st: State, st': State, p: nat, pr: Proc, w: nat, g: nat)
    requires p in st.procs && OwnWritable(ram, st, p, st.procs[p]) && Gains(st, st', p, g) && Sharers(st.procs, g) == {}
    requires forall x {:trigger pr.space[x]} :: x in pr.space && x != w ==>
             x in st.procs[p].space && pr.space[x] == st.procs[p].space[x]
    requires w in pr.space && pr.space[w].frame == g
    ensures OwnWritable(ram, st', p, pr)
  {
    forall x | x in pr.space && pr.space[x].frame < ram && !pr.space[x].rdonly
      ensures Sharers(st'.procs, pr.space[x].frame) == {p}
    {
      if x != w {
        assert Sharers(st.procs, st.procs[p].space[x].frame) == {p};
      }
    }
  }

  lemma GainSafely(ram: nat, st: State, p: nat, pr: Proc, g: nat)
    requires Sharers(st.procs, g) == {} && (forall q :: !CodeOf(st, q, g))
    requires forall f {:trigger NewlyMapped(st, p, pr, f)} :: NewlyMapped(st, p, pr, f) ==> f == g
    ensures TakesSafely(ram, st, p, pr)
  {
    UnsharedIsReadOnly(st, g);
  }

  lemma AnonChanges(ram: nat, st: State, st': State, p: nat, pr: Proc, w: nat, g: nat, attrs: nat)
    requires p in st.procs && w !in st.procs[p].space && 0 < g < ram && |st.procs| <= MAX_PROC && RefsMatch(ram, st)
    requires st' == Anon(st, p, w, g, attrs) && pr == st'.procs[p]
    requires Sharers(st.procs, g) == {} && (forall q :: !CodeOf(st, q, g)) && OwnWritable(ram, st, p, st.procs[p])
    requires Gains(st, st', p, g) ==> OwnText(st, st', p, pr)
    ensures Changes(ram, st, st', p, pr)
  {
    forall f: nat
      ensures Sharers(st'.procs, f) == if f == g then {p} else Sharers(st.procs, f)
      ensures NewlyMapped(st, p, pr, f) ==> f == g
    {
      SharersWithPage(st.procs, p, pr, w, LeafEntry(g, attrs, false), f);
    }
    GainRefs(ram, st, st', p, g);
    GainWritable(ram, st, st', p, pr, w, g);
    GainSafely(ram, st, p, pr, g);
    assert st'.procs.Keys == st.procs.Keys;
  }

  lemma GainText(ram: nat, st: State, st': State, p: nat, pr: Proc, g: nat)
    requires Inv(ram, st) && p in st.procs && g !in st.used
    requires pr.code == st.procs[p].code && pr.text == st.procs[p].text && (Unloaded(pr) ==> Unloaded(st.procs[p]))
    ensures Gains(st, st', p, g) ==> OwnText(st, st', p, pr)
  {
    if Gains(st, st', p, g) {
      CodeClause(ram, st, st', p, pr);
    }
  }

  /** Demand paging of heap and stack keeps the invariant. */
  lemma AnonInv(ram: nat, st: State, p: nat, w: nat, i: nat, g: nat, attrs: nat)
    requires CanMapAnon(ram, st, p, w, i, g)
    ensures Inv(ram, Anon(st, p, w, g, attrs))
  {
    var st' := Anon(st, p, w, g, attrs);
    OneProc(ram, st, p);
    FreshUnmapped(ram, st, g);
    AnonProc(ram, st, p, w, i, g, attrs);
    GainText(ram, st, st', p, st'.procs[p], g);
    AnonChanges(ram, st, st', p, st'.procs[p], w, g, attrs);
    InvAfterChange(ram, st, st', p, st'.procs[p]);
  }

  // ----- a write fault on a page with one sharer

  function Upgraded(st: State, p: nat, w: nat): (r: State)
    requires p in st.procs && w in st.procs[p].space
  {
    var pr := st.procs[p];
    st.(procs := st.procs[p := pr.(space := pr.space[w := pr.space[w].(rdonly := false)])])
  }

  lemma OneSharer(ram: nat, st: State, p: nat, w: nat)
    requires Inv(ram, st) && p in st.procs && w in st.procs[p].space && st.procs[p].space[w].frame < ram
    requires st.refs[st.procs[p].space[w].frame] <= 1
    ensures Sharers(st.procs, st.procs[p].space[w].frame) == {p}
  {
    var f := st.procs[p].space[w].frame;
    OneProc(ram, st, p);
    var sh := Sharers(st.procs, f);
    assert p in sh && st.refs[f] == |sh|;
    assert |sh - {p}| == |sh| - 1;
  }

  lemma SameFramesSameMaps(sp: Space, sp': Space, f: nat)
    requires sp.Keys == sp'.Keys && forall x :: x in sp ==> sp'[x].frame == sp[x].frame
    ensures Maps(sp', f) <==> Maps(sp, f)
  {
    if Maps(sp, f) {
      var x :| x in sp && sp[x].frame == f;
      assert x in sp' && sp'[x].frame == f;
    }
  }

  ghost predicate Keeps(ram: nat, st: State, st': State) {
    forall f: nat {:trigger Sharers(st'.procs, f)} :: f < ram ==> Sharers(st'.procs, f) == Sharers(st.procs, f)
  }

  /** Process p changes, but it maps the same RAM frames as before. */
  lemma SameFramesChange(ram: nat, st: State, st': State, p: nat, pr: Proc)
    requires Inv(ram, st) && p in st.procs && st'.procs == st.procs[p := pr] && st'.refs == st.refs
    requires st.wperm <= st'.wperm && st.used <= st'.used
    requires pr.code == st.procs[p].code && pr.text == st.procs[p].text && (Unloaded(pr) ==> Unloaded(st.procs[p]))
    requires forall f: nat {:trigger Maps(pr.space, f)} :: f < ram ==>
             (Maps(pr.space, f) <==> Maps(st.procs[p].space, f))
    requires OwnWritable(ram, st, p, pr)
    ensures Keeps(ram, st, st') && Changes(ram, st, st', p, pr)
  {
    forall f: nat | f < ram
      ensures Sharers(st'.procs, f) == Sharers(st.procs, f)
      ensures !NewlyMapped(st, p, pr, f)
    {
      SharersUpdate(st.procs, p, pr, f);
    }
    KeepsRefs(ram, st, st');
    CodeClause(ram, st, st', p, pr);
    assert st'.procs.Keys == st.procs.Keys;
  }

  lemma KeepsRefs(ram: nat, st: State, st': State)
    requires RefsMatch(ram, st) && Keeps(ram, st, st') && st'.refs == st.refs
    ensures RefsMatch(ram, st')
  {
  }

  lemma UpgradedProc(ram: nat, st: State, pr: Proc, w: nat)
    requires ProcOk(ram, st, pr) && w in pr.space
    ensures var pr' := pr.(space := pr.space[w := pr.space[w].(rdonly := false)]);
            ProcOk(ram, st, pr') && (Unloaded(pr') ==> Unloaded(pr)) &&
            (forall f: nat {:trigger Maps(pr'.space, f)} :: Maps(pr'.space, f) <==> Maps(pr.space, f))
  {
    var pr' := pr.(space := pr.space[w := pr.space[w].(rdonly := false)]);
    forall f: nat ensures Maps(pr'.space, f) <==> Maps(pr.space, f) {
      SameFramesSameMaps(pr.space, pr'.space, f);
    }
    SetPage(ram, st, pr, w, pr.space[w].(rdonly := false));
    TextKept(ram, st, st, pr, w, pr.space[w].(rdonly := false));
  }

  /** Making a page writable in place keeps the invariant when its count says that nobody else maps it. */
  lemma UpgradedInv(ram: nat, st: State, p: nat, w: nat)
    requires Inv(ram, st) && p in st.procs && w in st.procs[p].space && st.procs[p].space[w].frame < ram
    requires st.refs[st.procs[p].space[w].frame] <= 1
    ensures Inv(ram, Upgraded(st, p, w))
  {
    var st' := Upgraded(st, p, w);
    var pr, pr' := st.procs[p], st'.procs[p];
    OneProc(ram, st, p);
    OneSharer(ram, st, p, w);
    UpgradedProc(ram, st, pr, w);
    forall x | x in pr'.space && pr'.space[x].frame < ram && !pr'.space[x].rdonly
      ensures Sharers(st.procs, pr'.space[x].frame) == {p}
    {
      assert x != w ==> Sharers(st.procs, st.procs[p].space[x].frame) == {p};
    }
    SameFramesChange(ram, st, st', p, pr');
    ProcKept(ram, st, st', pr');
    InvAfterChange(ram, st, st', p, pr');
  }

  // ----- a write fault on a page with several sharers

  function Copied(st: State, p: nat, w: nat, g: nat): (r: State)
    requires p in st.procs && w in st.procs[p].space && st.procs[p].space[w].frame < |st.refs| && g < |st.refs|
    requires st.refs[st.procs[p].space[w].frame] > 0
  {
    var pr := st.procs[p];
    var f := pr.space[w].frame;
    State(st.procs[p := pr.(space := pr.space[w := pr.space[w].(frame := g, rdonly := false)])],
          Incremented(st.refs[f := st.refs[f] - 1], g), st.wperm, st.used + {g})
  }

  ghost predicate CanCopy(ram: nat, st: State, p: nat, w: nat, g: nat) {
    && Inv(ram, st) && p in st.procs && w in st.procs[p].space && st.procs[p].space[w].frame < ram
    && st.refs[st.procs[p].space[w].frame] > 1 && 0 < g < ram && g !in st.used
  }

  lemma CopiedProc(ram: nat, st: State, p: nat, w: nat, g: nat)
    requires CanCopy(ram, st, p, w, g)
    ensures ProcOk(ram, Copied(st, p, w, g), Copied(st, p, w, g).procs[p])
    ensures Unloaded(Copied(st, p, w, g).procs[p]) ==> Unloaded(st.procs[p])
  {
    var st', pr := Copied(st, p, w, g), st.procs[p];
    var e := pr.space[w].(frame := g, rdonly := false);
    FreshUnmapped(ram, st, g);
    OneProc(ram, st, p);
    ProcKept(ram, st, st', pr);
    assert forall x :: x in pr.space && x != w ==> pr.space[x].frame != g by {
      assert p !in Sharers(st.procs, g);
    }
    SetPage(ram, st', pr, w, e);
    TextKept(ram, st, st', pr, w, e);
  }

  /** p moves from frame f to frame g; all other frames have the sharers they had. */
  ghost predicate Moves(st: State, st': State, p: nat, f: nat, g: nat) {
    forall x: nat {:trigger Sharers(st'.procs, x)} ::
      Sharers(st'.procs, x) == if x == g then {p} else if x == f then Sharers(st.procs, x) - {p}
        else Sharers(st.procs, x)
  }

  lemma SharersMove(ram: nat, st: State, p: nat, pr: Proc, w: nat, e: Entry, x: nat)
    requires p in st.procs && w in st.procs[p].space && Injective(ram, st.procs[p].space)
    requires st.procs[p].space[w].frame < ram && e.frame != st.procs[p].space[w].frame
             && Sharers(st.procs, e.frame) == {}
    requires pr == st.procs[p].(space := st.procs[p].space[w := e])
    ensures var f, g := st.procs[p].space[w].frame, e.frame;
            Sharers(st.procs[p := pr], x) ==
            if x == g then {p} else if x == f then Sharers(st.procs, x) - {p} else Sharers(st.procs, x)
    ensures NewlyMapped(st, p, pr, x) ==> x == e.frame
  {
    var sp := st.procs[p].space;
    SharersUpdate(st.procs, p, pr, x);
    SetPageMaps(sp, w, e, x);
    if Maps(sp, x) && x != sp[w].frame {
      var y :| y in sp && sp[y].frame == x;
    }
  }

  lemma MoveRefs(ram: nat, st: State, st': State, p: nat, f: nat, g: nat)
    requires RefsMatch(ram, st) && Moves(st, st', p, f, g) && 0 < g < ram && 0 < f < ram && f != g
    requires Sharers(st.procs, g) == {} && p in Sharers(st.procs, f) && st.refs[f] > 0
    requires st'.refs == Incremented(st.refs[f := st.refs[f] - 1], g)
    ensures RefsMatch(ram, st')
  {
    assert |Sharers(st.procs, f) - {p}| == |Sharers(st.procs, f)| - 1;
  }

  lemma MoveWritable(ram: nat, st: State, st': State, p: nat, pr: Proc, w: nat, g: nat)
    requires p in st.procs && w in st.procs[p].space && OwnWritable(ram, st, p, st.procs[p])
    requires Moves(st, st', p, st.procs[p].space[w].frame, g) && Injective(ram, st.procs[p].space)
    requires pr.space.Keys == st.procs[p].space.Keys && pr.space[w].frame == g
    requires forall x {:trigger pr.space[x]} :: x in pr.space && x != w ==> pr.space[x] == st.procs[p].space[x]
    ensures OwnWritable(ram, st', p, pr)
  {
    forall x | x in pr.space && pr.space[x].frame < ram && !pr.space[x].rdonly
      ensures Sharers(st'.procs, pr.space[x].frame) == {p}
    {
      if x != w {
        assert Sharers(st.procs, st.procs[p].space[x].frame) == {p};
      }
    }
  }

  lemma MoveText(ram: nat, st: State, st': State, p: nat, pr: Proc, f: nat, g: nat)
    requires Inv(ram, st) && p in st.procs && Moves(st, st', p, f, g) && g !in st.used && p in Sharers(st.procs, f)
    requires pr.code == st.procs[p].code && pr.text == st.procs[p].text && (Unloaded(pr) ==> Unloaded(st.procs[p]))
    ensures OwnText(st, st', p, pr)
  {
    CodeClause(ram, st, st', p, pr);
  }

  lemma CopiedMoves(ram: nat, st: State, st': State, p: nat, pr: Proc, w: nat, g: nat)
    requires p in st.procs && w in st.procs[p].space && Injective(ram, st.procs[p].space)
    requires st.procs[p].space[w].frame < ram && g != st.procs[p].space[w].frame && Sharers(st.procs, g) == {}
    requires pr == st.procs[p].(space := st.procs[p].space[w := st.procs[p].space[w].(frame := g, rdonly := false)])
    requires st'.procs == st.procs[p := pr]
    ensures Moves(st, st', p, st.procs[p].space[w].frame, g)
    ensures forall x {:trigger NewlyMapped(st, p, pr, x)} :: NewlyMapped(st, p, pr, x) ==> x == g
  {
    var f := st.procs[p].space[w].frame;
    forall x: nat
      ensures Sharers(st'.procs, x) == if x == g then {p} else if x == f then Sharers(st.procs, x) - {p}
              else Sharers(st.procs, x)
      ensures NewlyMapped(st, p, pr, x) ==> x == g
    {
      SharersMove(ram, st, p, pr, w, pr.space[w], x);
    }
  }

  lemma CopiedChanges(ram: nat, st: State, st': State, p: nat, pr: Proc, w: nat, f: nat, g: nat)
    requires p in st.procs && w in st.procs[p].space && f == st.procs[p].space[w].frame && |st.procs| <= MAX_PROC
    requires RefsMatch(ram, st) && 0 < f < ram && 0 < g < ram && f != g && st.refs[f] > 0
    requires st' == Copied(st, p, w, g) && pr == st'.procs[p] && Moves(st, st', p, f, g)
    requires TakesSafely(ram, st, p, pr) && OwnWritable(ram, st', p, pr) && OwnText(st, st', p, pr)
    requires Sharers(st.procs, g) == {} && p in Sharers(st.procs, f)
    ensures Changes(ram, st, st', p, pr)
  {
    MoveRefs(ram, st, st', p, f, g);
    assert st'.procs.Keys == st.procs.Keys;
  }

  /** Copy-on-write keeps the invariant. */
  lemma CopiedInv(ram: nat, st: State, p: nat, w: nat, g: nat)
    requires CanCopy(ram, st, p, w, g)
    ensures Inv(ram, Copied(st, p, w, g))
  {
    var st' := Copied(st, p, w, g);
    OneProc(ram, st, p);
    FreshUnmapped(ram, st, g);
    CopiedProc(ram, st, p, w, g);
    var f, pr := st.procs[p].space[w].frame, st'.procs[p];
    assert p in Sharers(st.procs, f);
    CopiedMoves(ram, st, st', p, pr, w, g);
    MoveWritable(ram, st, st', p, pr, w, g);
    GainSafely(ram, st, p, pr, g);
    MoveText(ram, st, st', p, pr, f, g);
    CopiedChanges(ram, st, st', p, pr, w, f, g);
    InvAfterChange(ram, st, st', p, st'.procs[p]);
  }

  // ----- the program text is mapped as a whole

  /** Pages 0 up to n on consecutive frames. */
  function Run(code: nat, n: nat, attrs: nat): (sp: Space)
    ensures forall i {:trigger i in sp} :: i in sp <==> 0 <= i < n
    ensures forall i {:trigger sp[i]} :: 0 <= i < n ==> sp[i] == LeafEntry(code + i, attrs, false)
  {
    if n == 0 then map[] else Run(code, n - 1, attrs)[n - 1 := LeafEntry(code + (n - 1), attrs, false)]
  }

  function TextSpace(pr: Proc, attrs: nat): (sp: Space) {
    pr.space + Run(pr.code, pr.text, attrs)
  }

  function RefRange(refs: seq<nat>, code: nat, n: nat): (r: seq<nat>)
    requires code + n <= |refs|
    ensures |r| == |refs|
  {
    if n == 0 then refs else Incremented(RefRange(refs, code, n - 1), code + n - 1)
  }

  lemma {:induction false} RefRangeAt(refs: seq<nat>, code: nat, n: nat, f: nat)
    requires code + n <= |refs| && f < |refs|
    ensures RefRange(refs, code, n)[f] == if code <= f < code + n then (refs[f] + 1) % 65536 else refs[f]
  {
    if n > 0 {
      RefRangeAt(refs, code, n - 1, f);
    }
  }

  function TextLoaded(st: State, p: nat, attrs: nat): (r: State)
    requires p in st.procs && st.procs[p].code + st.procs[p].text <= |st.refs|
  {
    var pr := st.procs[p];
    State(st.procs[p := pr.(space := TextSpace(pr, attrs))], RefRange(st.refs, pr.code, pr.text), st.wperm, st.used)
  }

  lemma TextMaps(pr: Proc, attrs: nat, f: nat)
    requires Unloaded(pr)
    ensures Maps(TextSpace(pr, attrs), f) <==> IsCode(pr, f) || Maps(pr.space, f)
  {
    var sp := TextSpace(pr, attrs);
    if IsCode(pr, f) {
      assert f - pr.code in sp && sp[f - pr.code].frame == f;
    }
    if Maps(pr.space, f) {
      var x :| x in pr.space && pr.space[x].frame == f;
      assert x in sp && sp[x].frame == f;
    }
  }

  lemma TextProc(ram: nat, st: State, p: nat, attrs: nat)
    requires Inv(ram, st) && p in st.procs && Unloaded(st.procs[p])
    ensures st.procs[p].code + st.procs[p].text <= ram
    ensures ProcOk(ram, TextLoaded(st, p, attrs), TextLoaded(st, p, attrs).procs[p])
    ensures !Unloaded(TextLoaded(st, p, attrs).procs[p])
  {
    OneProc(ram, st, p);
    var st', pr := TextLoaded(st, p, attrs), st.procs[p];
    var pr' := st'.procs[p];
    var j :| 0 <= j < |pr.sections| && pr.sections[j].kind == Text;
    assert pr.text <= PAGES;
    forall i: nat | i < pr.text ensures RamPage(pr.sections, i) && Covered(pr.sections, i) {
      assert InSection(pr.sections[j], i);
    }
    forall f: nat | IsCode(pr, f) ensures !Maps(pr.space, f) && 0 < f < ram && f in st.used {
      assert CodeOf(st, p, f);
      UnloadedCode(ram, st, p, f);
      assert p !in Sharers(st.procs, f);
    }
    assert 0 in pr'.space;
    assert Loaded(pr');
    TextPages(ram, st, st', pr, pr', attrs);
  }

  lemma TextPages(ram: nat, st: State, st': State, pr: Proc, pr': Proc, attrs: nat)
    requires ProcOk(ram, st, pr) && Unloaded(pr) && pr' == pr.(space := TextSpace(pr, attrs)) && pr.text <= PAGES
    requires st'.used == st.used && st'.wperm == st.wperm
    requires forall i: nat :: i < pr.text ==> RamPage(pr.sections, i) && Covered(pr.sections, i)
    requires forall f: nat {:trigger IsCode(pr, f)} :: IsCode(pr, f) ==>
               !Maps(pr.space, f) && 0 < f < ram && f in st.used
    ensures Injective(ram, pr'.space) && PagesOk(ram, st', pr')
  {
    var sp := pr'.space;
    forall w | w in sp
      ensures if w < pr.text then IsCode(pr, sp[w].frame) && sp[w].frame == pr.code + w
              else w in pr.space && sp[w] == pr.space[w]
    {
    }
    forall w, x | w in sp && x in sp && sp[w].frame == sp[x].frame < ram ensures w == x {
      assert w < pr.text ==> !Maps(pr.space, sp[w].frame);
      assert x < pr.text ==> !Maps(pr.space, sp[x].frame);
    }
    forall w | w in sp ensures PageOk(ram, st', pr.sections, w, sp[w]) {
      if w >= pr.text {
        assert PageOk(ram, st, pr.sections, w, pr.space[w]);
      }
    }
  }

  lemma TextSharers(ram: nat, st: State, p: nat, attrs: nat, f: nat)
    requires Inv(ram, st) && p in st.procs && Unloaded(st.procs[p]) && st.procs[p].code + st.procs[p].text <= ram
    ensures Sharers(TextLoaded(st, p, attrs).procs, f) == if IsCode(st.procs[p], f) then {p} else Sharers(st.procs, f)
    ensures NewlyMapped(st, p, TextLoaded(st, p, attrs).procs[p], f) ==>
              IsCode(st.procs[p], f) && MappedReadOnly(st, f) && forall q :: q != p ==> !CodeOf(st, q, f)
  {
    var pr := st.procs[p];
    TextMaps(pr, attrs, f);
    SharersUpdate(st.procs, p, TextLoaded(st, p, attrs).procs[p], f);
    if IsCode(pr, f) {
      assert CodeOf(st, p, f);
      UnloadedCode(ram, st, p, f);
      UnsharedIsReadOnly(st, f);
    }
  }

  lemma TextRefs(ram: nat, st: State, st': State, p: nat, attrs: nat)
    requires p in st.procs && RefsMatch(ram, st) && st.procs[p].code + st.procs[p].text <= ram
    requires st' == TextLoaded(st, p, attrs)
    requires forall f: nat {:trigger Sharers(st'.procs, f)} ::
               Sharers(st'.procs, f) == if IsCode(st.procs[p], f) then {p} else Sharers(st.procs, f)
    requires forall f {:trigger IsCode(st.procs[p], f)} :: IsCode(st.procs[p], f) ==> Sharers(st.procs, f) == {}
    ensures RefsMatch(ram, st')
  {
    forall f | 0 < f < ram ensures st'.refs[f] == |Sharers(st'.procs, f)| {
      RefRangeAt(st.refs, st.procs[p].code, st.procs[p].text, f);
      assert IsCode(st.procs[p], f) ==> Sharers(st.procs, f) == {};
    }
  }

  lemma TextWritable(ram: nat, st: State, st': State, p: nat, attrs: nat)
    requires p in st.procs && Unloaded(st.procs[p]) && st.procs[p].code + st.procs[p].text <= |st.refs|
    requires OwnWritable(ram, st, p, st.procs[p]) && st' == TextLoaded(st, p, attrs)
    requires forall f: nat {:trigger Sharers(st'.procs, f)} ::
               Sharers(st'.procs, f) == if IsCode(st.procs[p], f) then {p} else Sharers(st.procs, f)
    ensures OwnWritable(ram, st', p, st'.procs[p])
  {
    var pr' := st'.procs[p];
    forall x | x in pr'.space && pr'.space[x].frame < ram && !pr'.space[x].rdonly
      ensures Sharers(st'.procs, pr'.space[x].frame) == {p}
    {
      if x >= st.procs[p].text {
        assert pr'.space[x] == st.procs[p].space[x];
      }
    }
  }

  /** Mapping the program text keeps the invariant. */
  lemma TextInv(ram: nat, st: State, p: nat, attrs: nat)
    requires Inv(ram, st) && p in st.procs && Unloaded(st.procs[p])
    ensures st.procs[p].code + st.procs[p].text <= ram && Inv(ram, TextLoaded(st, p, attrs))
  {
    OneProc(ram, st, p);
    TextProc(ram, st, p, attrs);
    var st' := TextLoaded(st, p, attrs);
    forall f: nat
      ensures Sharers(st'.procs, f) == if IsCode(st.procs[p], f) then {p} else Sharers(st.procs, f)
      ensures NewlyMapped(st, p, st'.procs[p], f) ==>
                IsCode(st.procs[p], f) && MappedReadOnly(st, f) && forall q :: q != p ==> !CodeOf(st, q, f)
    {
      TextSharers(ram, st, p, attrs, f);
    }
    TextRefs(ram, st, st', p, attrs);
    TextWritable(ram, st, st', p, attrs);
    assert st'.procs.Keys == st.procs.Keys;
    InvAfterChange(ram, st, st', p, st'.procs[p]);
  }

  // ----- fork

  function ForkedSpace(ram: nat, sp: Space): (r: Space)
    ensures r.Keys == sp.Keys
  {
    map w | w in sp :: Protected(ram, sp[w])
  }

  /** The same pages with the same frames and attributes: a page of RAM is read-only, a device page is as it was. */
  ghost predicate LosesWriting(ram: nat, sp: Space, sp': Space) {
    && sp'.Keys == sp.Keys
    && forall w {:trigger sp'[w]} :: w in sp' ==> sp'[w] == sp[w].(rdonly := sp[w].rdonly || sp[w].frame < ram)
  }

  lemma ForkLosesWriting(ram: nat, sp: Space)
    ensures LosesWriting(ram, sp, ForkedSpace(ram, sp))
  {
  }

  /** The caller's RAM pages become read-only and what was writable is recorded in wp. */
  function Guarded(ram: nat, st: State, p: nat, wp: set<nat>): (r: State)
    requires p in st.procs
  {
    st.(procs := st.procs[p := st.procs[p].(space := ForkedSpace(ram, st.procs[p].space))], wperm := wp)
  }

  /** Every RAM page that p could write is recorded. */
  ghost predicate Records(ram: nat, st: State, p: nat, wp: set<nat>)
    requires p in st.procs
  {
    && st.wperm <= wp
    && forall w {:trigger st.procs[p].space[w]} ::
         w in st.procs[p].space && WasWritable(ram, Some(st.procs[p].space[w])) ==> st.procs[p].space[w].frame in wp
  }

  lemma GuardedProc(ram: nat, st: State, st': State, pr: Proc)
    requires ProcOk(ram, st, pr) && st'.used == st.used && st.wperm <= st'.wperm
    requires forall w {:trigger pr.space[w]} :: w in pr.space && WasWritable(ram, Some(pr.space[w])) ==>
             pr.space[w].frame in st'.wperm
    ensures ProcOk(ram, st', pr.(space := ForkedSpace(ram, pr.space)))
  {
    var pr' := pr.(space := ForkedSpace(ram, pr.space));
    forall w | w in pr'.space ensures PageOk(ram, st', pr'.sections, w, pr'.space[w]) {
      assert PageOk(ram, st, pr.sections, w, pr.space[w]);
    }
    forall w, x | w in pr'.space && x in pr'.space && pr'.space[w].frame == pr'.space[x].frame < ram ensures w == x {
      assert pr.space[w].frame == pr.space[x].frame;
    }
    if Loaded(pr) {
      assert Loaded(pr');
    } else {
      assert Unloaded(pr');
    }
  }

  lemma GuardedInv(ram: nat, st: State, p: nat, wp: set<nat>)
    requires Inv(ram, st) && p in st.procs && Records(ram, st, p, wp)
    ensures Inv(ram, Guarded(ram, st, p, wp))
  {
    var st' := Guarded(ram, st, p, wp);
    OneProc(ram, st, p);
    GuardedProc(ram, st, st', st.procs[p]);
    forall f: nat ensures Maps(st'.procs[p].space, f) <==> Maps(st.procs[p].space, f) {
      SameFramesSameMaps(st.procs[p].space, st'.procs[p].space, f);
    }
    SameFramesChange(ram, st, st', p, st'.procs[p]);
    InvAfterChange(ram, st, st', p, st'.procs[p]);
  }

  /** Process q appears with the mappings, sections and text of p; refs is the new reference table. */
  function Doubled(st: State, p: nat, q: nat, refs: seq<nat>): (r: State)
    requires p in st.procs
  {
    st.(procs := st.procs[q := st.procs[p]], refs := refs)
  }

  /** Every frame that p maps has one more reference, and no other frame has. */
  ghost predicate CountsFork(ram: nat, sp: Space, refs: seq<nat>, refs': seq<nat>) {
    |refs'| == |refs| == ram &&
    forall f {:trigger refs'[f]} :: 0 < f < ram ==> refs'[f] == if Maps(sp, f) then (refs[f] + 1) % 65536 else refs[f]
  }

  lemma DoubledSharers(st: State, p: nat, q: nat, refs: seq<nat>, f: nat)
    requires p in st.procs && q !in st.procs
    ensures Sharers(Doubled(st, p, q, refs).procs, f) == if Maps(st.procs[p].space, f) then Sharers(st.procs, f) + {q}
            else Sharers(st.procs, f)
  {
    SharersUpdate(st.procs, q, st.procs[p], f);
  }

  lemma DoubledRefs(ram: nat, st: State, st': State, p: nat, q: nat, refs: seq<nat>)
    requires RefsMatch(ram, st) && |st.procs| <= MAX_PROC && p in st.procs && q !in st.procs
    requires CountsFork(ram, st.procs[p].space, st.refs, refs) && st' == Doubled(st, p, q, refs)
    ensures RefsMatch(ram, st')
  {
    forall f | 0 < f < ram ensures st'.refs[f] == |Sharers(st'.procs, f)| {
      DoubledSharers(st, p, q, refs, f);
      RefsBounded(ram, st, f);
      assert q !in Sharers(st.procs, f);
    }
  }

  lemma DoubledSafely(ram: nat, st: State, p: nat, q: nat)
    requires Inv(ram, st) && p in st.procs && q !in st.procs
    requires forall w {:trigger st.procs[p].space[w]} :: w in st.procs[p].space && st.procs[p].space[w].frame < ram ==>
               st.procs[p].space[w].rdonly
    ensures TakesSafely(ram, st, q, st.procs[p])
  {
    forall f | 0 <= f < ram && NewlyMapped(st, q, st.procs[p], f)
      ensures MappedReadOnly(st, f) && forall r :: r != q ==> !CodeOf(st, r, f)
    {
      assert p in Sharers(st.procs, f);
      forall r, x | r in st.procs && x in st.procs[r].space && st.procs[r].space[x].frame == f
        ensures st.procs[r].space[x].rdonly
      {
        OneProc(ram, st, r);
      }
      forall r | r != q ensures !CodeOf(st, r, f) {
        if CodeOf(st, r, f) {
          UnloadedCode(ram, st, r, f);
        }
      }
    }
  }

  /** Doubling a loaded process whose RAM pages are all read-only keeps the invariant. */
  lemma DoubledInv(ram: nat, st: State, p: nat, q: nat, refs: seq<nat>)
    requires Inv(ram, st) && p in st.procs && q !in st.procs && |st.procs| < MAX_PROC && !Unloaded(st.procs[p])
    requires CountsFork(ram, st.procs[p].space, st.refs, refs)
    requires forall w {:trigger st.procs[p].space[w]} :: w in st.procs[p].space && st.procs[p].space[w].frame < ram ==>
               st.procs[p].space[w].rdonly
    ensures Inv(ram, Doubled(st, p, q, refs))
  {
    var st' := Doubled(st, p, q, refs);
    OneProc(ram, st, p);
    ProcKept(ram, st, st', st.procs[p]);
    DoubledRefs(ram, st, st', p, q, refs);
    DoubledSafely(ram, st, p, q);
    assert st'.procs.Keys == st.procs.Keys + {q};
    InvAfterChange(ram, st, st', q, st.procs[p]);
  }

  /** Fork, as a whole, keeps the invariant. */
  lemma ForkInv(ram: nat, st: State, p: nat, q: nat, wp: set<nat>, refs: seq<nat>)
    requires Inv(ram, st) && p in st.procs && q !in st.procs && |st.procs| < MAX_PROC && !Unloaded(st.procs[p])
    requires Records(ram, st, p, wp) && CountsFork(ram, st.procs[p].space, st.refs, refs)
    ensures Inv(ram, Doubled(Guarded(ram, st, p, wp), p, q, refs))
  {
    var st' := Guarded(ram, st, p, wp);
    GuardedInv(ram, st, p, wp);
    assert st'.procs.Keys == st.procs.Keys;
    GuardedCounts(ram, st.procs[p], st'.procs[p], st.refs, refs);
    DoubledInv(ram, st', p, q, refs);
  }

  /** Fork keeps the invariant if and only if the caller's text does not wait to be mapped. */
  lemma ForkIff(ram: nat, st: State, p: nat, q: nat, wp: set<nat>, refs: seq<nat>)
    requires Inv(ram, st) && p in st.procs && q !in st.procs && |st.procs| < MAX_PROC
    requires Records(ram, st, p, wp) && CountsFork(ram, st.procs[p].space, st.refs, refs)
    ensures Inv(ram, Doubled(Guarded(ram, st, p, wp), p, q, refs)) <==> !Unloaded(st.procs[p])
  {
    if !Unloaded(st.procs[p]) {
      ForkInv(ram, st, p, q, wp, refs);
    } else {
      var st' := Doubled(Guarded(ram, st, p, wp), p, q, refs);
      var pr := st'.procs[p];
      assert Unloaded(pr) && IsCode(pr, pr.code) && CodeOf(st', q, pr.code);
      assert !OwnText(st', st', p, pr);
      assert !GoodProc(ram, st', p);
    }
  }

  lemma GuardedCounts(ram: nat, pr: Proc, pr': Proc, refs: seq<nat>, refs': seq<nat>)
    requires pr' == pr.(space := ForkedSpace(ram, pr.space)) && CountsFork(ram, pr.space, refs, refs')
    ensures CountsFork(ram, pr'.space, refs, refs')
    ensures forall w {:trigger pr'.space[w]} :: w in pr'.space && pr'.space[w].frame < ram ==> pr'.space[w].rdonly
    ensures !Unloaded(pr) ==> !Unloaded(pr')
  {
    forall f: nat ensures Maps(pr'.space, f) <==> Maps(pr.space, f) {
      SameFramesSameMaps(pr.space, pr'.space, f);
    }
  }

  // ----- a program is loaded into a process that has no user image

  function Frames(code: nat, n: nat): (r: set<nat>)
    ensures forall f {:trigger f in r} :: f in r <==> code <= f < code + n
  {
    if n == 0 then {} else Frames(code, n - 1) + {code + (n - 1)}
  }

  function Execed(st: State, p: nat, ss: seq<Section>, code: nat, n: nat): (r: State) {
    st.(procs := st.procs[p := Proc(map[], ss, code, n)], used := st.used + Frames(code, n))
  }

  lemma ExecInv(ram: nat, st: State, p: nat, ss: seq<Section>, code: nat, n: nat)
    requires Inv(ram, st) && p !in st.procs && |st.procs| < MAX_PROC && n > 0
    requires 0 < code && code + n <= ram && forall f :: code <= f < code + n ==> f !in st.used
    requires SectionsOk(ss, n)
    ensures Inv(ram, Execed(st, p, ss, code, n))
  {
    var st', pr := Execed(st, p, ss, code, n), Proc(map[], ss, code, n);
    assert Unloaded(pr);
    forall f: nat ensures Sharers(st'.procs, f) == Sharers(st.procs, f) && !NewlyMapped(st, p, pr, f) {
      SharersUpdate(st.procs, p, pr, f);
    }
    KeepsRefs(ram, st, st');
    forall f: nat | IsCode(pr, f) ensures Sharers(st'.procs, f) == {} && forall q :: q != p ==> !CodeOf(st, q, f) {
      FreshUnmapped(ram, st, f);
    }
    assert st'.procs.Keys == st.procs.Keys + {p};
    InvAfterChange(ram, st, st', p, pr);
  }

  // ----- new sections

  ghost predicate Separate(ss: seq<Section>, s: Section) {
    forall w {:trigger InSection(s, w)} :: InSection(s, w) ==> !Covered(ss, w)
  }

  lemma SectionsExtend(pr: Proc, s: Section)
    requires SectionsOk(pr.sections, pr.text) && Separate(pr.sections, s) && s.kind != Text
             && s.base + NumPages(s.size) <= PAGES
    ensures SectionsOk(pr.sections + [s], pr.text)
    ensures forall w :: Covered(pr.sections, w) ==> Covered(pr.sections + [s], w)
    ensures forall w :: Covered(pr.sections, w) ==> (RamPage(pr.sections + [s], w) <==> RamPage(pr.sections, w))
  {
    var ss, ss' := pr.sections, pr.sections + [s];
    forall i, j, w | 0 <= i < |ss'| && 0 <= j < |ss'| && InSection(ss'[i], w) && InSection(ss'[j], w) ensures i == j {
      assert i < |ss| ==> ss'[i] == ss[i];
      assert j < |ss| ==> ss'[j] == ss[j];
      if i < |ss| && j < |ss| {
        assert InSection(ss[i], w) && InSection(ss[j], w);
      }
    }
    forall w | Covered(ss, w) ensures Covered(ss', w) && (RamPage(ss', w) <==> RamPage(ss, w)) {
      var i :| 0 <= i < |ss| && InSection(ss[i], w);
      assert ss'[i] == ss[i];
      if RamPage(ss', w) {
        var k :| 0 <= k < |ss'| && ss'[k].kind != Device && InSection(ss'[k], w);
        assert k < |ss| ==> ss'[k] == ss[k];
      }
      if RamPage(ss, w) {
        var k :| 0 <= k < |ss| && ss[k].kind != Device && InSection(ss[k], w);
        assert ss'[k] == ss[k];
      }
    }
    if pr.text > 0 {
      var i :| 0 <= i < |ss| && ss[i].kind == Text;
      assert ss'[i].kind == Text;
    }
  }

  /** A heap section, not yet populated, or a device section together with its mappings. */
  function Sectioned(st: State, p: nat, s: Section, dev: Space): (r: State)
    requires p in st.procs
  {
    var pr := st.procs[p];
    st.(procs := st.procs[p := pr.(sections := pr.sections + [s], space := pr.space + dev)])
  }

  /** The pages of dev are the section's, mapped outside RAM. */
  ghost predicate DeviceMap(ram: nat, s: Section, dev: Space) {
    forall w {:trigger dev[w]} :: w in dev ==> InSection(s, w) && w < PAGES && IsPage(dev[w]) && dev[w].frame >= ram
  }

  lemma SectionedProc(ram: nat, st: State, st': State, p: nat, s: Section, dev: Space)
    requires p in st.procs && ProcOk(ram, st, st.procs[p]) && Separate(st.procs[p].sections, s)
             && s.base + NumPages(s.size) <= PAGES
    requires (s.kind == Heap && dev == map[]) || (s.kind == Device && DeviceMap(ram, s, dev))
    requires st' == Sectioned(st, p, s, dev)
    ensures ProcOk(ram, st', st'.procs[p])
  {
    var pr, pr' := st.procs[p], st'.procs[p];
    SectionsExtend(pr, s);
    forall w | w in pr'.space ensures PageOk(ram, st', pr'.sections, w, pr'.space[w]) {
      if w in dev {
        assert pr'.space[w] == dev[w] && pr'.sections[|pr.sections|] == s;
        assert Covered(pr'.sections, w);
        DevicePage(pr.sections, s, w);
      } else {
        assert PageOk(ram, st, pr.sections, w, pr.space[w]);
      }
    }
    forall w, x | w in pr'.space && x in pr'.space && pr'.space[w].frame == pr'.space[x].frame < ram ensures w == x {
      assert w !in dev && x !in dev;
      assert pr.space[w].frame == pr.space[x].frame;
    }
    SectionedText(ram, st, st', p, s, dev);
  }

  lemma DevicePage(ss: seq<Section>, s: Section, w: nat)
    requires s.kind == Device && Separate(ss, s) && InSection(s, w)
    ensures !RamPage(ss + [s], w)
  {
    assert forall k :: 0 <= k < |ss| ==> (ss + [s])[k] == ss[k] && !InSection(ss[k], w);
  }

  lemma SectionedText(ram: nat, st: State, st': State, p: nat, s: Section, dev: Space)
    requires p in st.procs && SectionsOk(st.procs[p].sections, st.procs[p].text) && TextOk(ram, st, st.procs[p])
             && Separate(st.procs[p].sections, s)
    requires forall w :: w in dev ==> InSection(s, w)
    requires st' == Sectioned(st, p, s, dev)
    ensures TextOk(ram, st', st'.procs[p]) && (Unloaded(st'.procs[p]) ==> Unloaded(st.procs[p]))
  {
    var pr, pr' := st.procs[p], st'.procs[p];
    forall i | 0 <= i < pr.text ensures i !in dev {
      var j :| 0 <= j < |pr.sections| && pr.sections[j].kind == Text;
      assert InSection(pr.sections[j], i);
      assert Covered(pr.sections, i);
    }
    if Loaded(pr) {
      assert Loaded(pr');
      assert pr.text > 0 ==> 0 in pr'.space;
    } else {
      assert Unloaded(pr');
    }
  }

  /** Adding a section, with device mappings or without, keeps the invariant. */
  lemma SectionedInv(ram: nat, st: State, p: nat, s: Section, dev: Space)
    requires Inv(ram, st) && p in st.procs && Separate(st.procs[p].sections, s) && s.base + NumPages(s.size) <= PAGES
    requires (s.kind == Heap && dev == map[]) || (s.kind == Device && DeviceMap(ram, s, dev))
    ensures Inv(ram, Sectioned(st, p, s, dev))
  {
    var st' := Sectioned(st, p, s, dev);
    var pr, pr' := st.procs[p], st'.procs[p];
    OneProc(ram, st, p);
    SectionedProc(ram, st, st', p, s, dev);
    SectionedText(ram, st, st', p, s, dev);
    SectionedSpace(ram, st, pr, pr', s, dev);
    forall x | x in pr'.space && pr'.space[x].frame < ram && !pr'.space[x].rdonly
      ensures Sharers(st.procs, pr'.space[x].frame) == {p}
    {
      assert x !in dev && pr'.space[x] == pr.space[x];
    }
    SameFramesChange(ram, st, st', p, pr');
    InvAfterChange(ram, st, st', p, pr');
  }

  lemma SectionedSpace(ram: nat, st: State, pr: Proc, pr': Proc, s: Section, dev: Space)
    requires PagesOk(ram, st, pr) && Separate(pr.sections, s) && pr'.space == pr.space + dev
    requires forall w :: w in dev ==> InSection(s, w) && dev[w].frame >= ram
    ensures forall f: nat {:trigger Maps(pr'.space, f)} :: f < ram ==> (Maps(pr'.space, f) <==> Maps(pr.space, f))
  {
    forall f: nat | f < ram ensures Maps(pr'.space, f) <==> Maps(pr.space, f) {
      if Maps(pr.space, f) {
        var x :| x in pr.space && pr.space[x].frame == f;
        assert Covered(pr.sections, x);
        assert x !in dev;
        assert x in pr'.space && pr'.space[x].frame == f;
      }
      if Maps(pr'.space, f) {
        var x :| x in pr'.space && pr'.space[x].frame == f;
        assert x in pr.space && pr.space[x].frame == f;
      }
    }
  }
}
