/**
 Whole runs of the address-space steps. The events are the effects that the methods of the
 kernel class promise; here they follow one another in any order.
 */
module CowRuns {
  import opened Common
  import opened PageWalk
  import opened PageFork
  import opened PageTables
  import opened CowState
  import opened CowLoss
  import opened Cow

  /** Address spaces and counts, and the contents of RAM. */
  datatype Config = Config(st: State, mem: seq<Bytes>)

  datatype Event =
    | Demand(p: nat, w: nat, i: nat, g: nat, b: Bytes)        // translation fault in a stack or heap
    | Load(p: nat)                                            // translation fault in the text
    | Upgrade(p: nat, w: nat)                                 // write fault, one sharer
    | Copy(p: nat, w: nat, g: nat)                            // write fault, several sharers
    | Fork(p: nat, q: nat, wp: set<nat>, refs: seq<nat>)
    | Exec(p: nat, size: nat, code: nat)
    | Grow(p: nat, base: nat, size: nat)                      // a new heap section
    | Buffer(p: nat, base: nat, n: nat, pa: nat)              // the frame buffer
    | Store(p: nat, w: nat, b: Bytes)                         // a user store

  ghost predicate Enabled(ram: nat, c: Config, e: Event) {
    match e
    case Demand(p, w, i, g, b) => CanMapAnon(ram, c.st, p, w, i, g)
    case Load(p) =>
      && p in c.st.procs && Unloaded(c.st.procs[p]) && c.st.procs[p].code + c.st.procs[p].text <= |c.st.refs|
      && RamApart(ram, c.st.procs[p].space, 0, c.st.procs[p].text)
    case Upgrade(p, w) => MapsRam(ram, c.st, p, w) && c.st.refs[c.st.procs[p].space[w].frame] <= 1
    case Copy(p, w, g) => CanCopy(ram, c.st, p, w, g)
    case Fork(p, q, wp, refs) =>
      && p in c.st.procs && q !in c.st.procs && |c.st.procs| < MAX_PROC && !Unloaded(c.st.procs[p])
      && Records(ram, c.st, p, wp) && CountsFork(ram, c.st.procs[p].space, c.st.refs, refs)
    case Exec(p, size, code) =>
      && p !in c.st.procs && |c.st.procs| < MAX_PROC && 0 < size && NumPages(size) <= USR_STACK_PAGE
      && 0 < code && code + NumPages(size) <= ram && forall f :: code <= f < code + NumPages(size) ==> f !in c.st.used
    case Grow(p, base, size) =>
      p in c.st.procs && Separate(c.st.procs[p].sections, Section(Heap, base, size)) && base + NumPages(size) <= PAGES
    case Buffer(p, base, n, pa) => CanBuffer(ram, c, p, base, n, pa)
      && RamApart(ram, c.st.procs[p].space, base, base + n)
    case Store(p, w, b) => MapsRam(ram, c.st, p, w) && !c.st.procs[p].space[w].rdonly
  }

  ghost predicate MapsRam(ram: nat, st: State, p: nat, w: nat) {
    p in st.procs && w in st.procs[p].space && st.procs[p].space[w].frame < ram == |st.refs|
  }

  /** What a frame buffer request requires of its caller. */
  ghost predicate CanBuffer(ram: nat, c: Config, p: nat, base: nat, n: nat, pa: nat) {
    && p in c.st.procs && Separate(c.st.procs[p].sections, FrameBuffer(base, n))
    && base < PAGES && base + n <= PAGES && ram <= pa
  }

  /** The state after an event. */
  ghost function After(ram: nat, c: Config, e: Event): (r: Config)
    requires |c.mem| == |c.st.refs| == ram && Enabled(ram, c, e)
  {
    match e
    case Demand(p, w, i, g, b) => Config(Anon(c.st, p, w, g, DATA_ATTRS), c.mem[g := b])
    case Load(p) => c.(st := TextFilled(c.st, p, TEXT_ATTRS))
    case Upgrade(p, w) => c.(st := Upgraded(c.st, p, w))
    case Copy(p, w, g) => Config(CowState.Copied(c.st, p, w, g), c.mem[g := c.mem[c.st.procs[p].space[w].frame]])
    case Fork(p, q, wp, refs) => c.(st := Doubled(Guarded(ram, c.st, p, wp), p, q, refs))
    case Exec(p, size, code) => c.(st := Execed(c.st, p, ImageSections(size), code, NumPages(size)))
    case Grow(p, base, size) => c.(st := Sectioned(c.st, p, Section(Heap, base, size), map[]))
    case Buffer(p, base, n, pa) => c.(st := DeviceFilled(c.st, p, base, n, pa))
    case Store(p, w, b) => c.(mem := c.mem[c.st.procs[p].space[w].frame := b])
  }

  ghost predicate Good(ram: nat, c: Config) {
    |c.mem| == ram && Inv(ram, c.st)
  }

  lemma StoreStep(ram: nat, c: Config, p: nat, w: nat, b: Bytes)
    requires Good(ram, c) && MapsRam(ram, c.st, p, w) && !c.st.procs[p].space[w].rdonly
    ensures OthersSee(c.st, c.st, c.mem, c.mem[c.st.procs[p].space[w].frame := b], p)
  {
    OneProc(ram, c.st, p);
    WrittenViews(ram, c.st, p, w, c.st.procs[p].space[w].frame, c.mem, b);
  }

  lemma DemandStep(ram: nat, c: Config, p: nat, w: nat, i: nat, g: nat, b: Bytes)
    requires Good(ram, c) && CanMapAnon(ram, c.st, p, w, i, g)
    ensures OthersSee(c.st, Anon(c.st, p, w, g, DATA_ATTRS), c.mem, c.mem[g := b], p)
  {
    FreshUnmapped(ram, c.st, g);
    AnonViews(ram, c.st, Anon(c.st, p, w, g, DATA_ATTRS), p, w, g, c.mem, b);
  }

  lemma CopyStep(ram: nat, c: Config, p: nat, w: nat, g: nat)
    requires Good(ram, c) && CanCopy(ram, c.st, p, w, g)
    ensures OthersSee(c.st, CowState.Copied(c.st, p, w, g), c.mem, c.mem[g := c.mem[c.st.procs[p].space[w].frame]], p)
  {
    FreshUnmapped(ram, c.st, g);
    CopiedViews(ram, c.st, CowState.Copied(c.st, p, w, g), p, w, g, c.mem);
  }

  /** Every event keeps the invariant. */
  lemma StepInv(ram: nat, c: Config, e: Event)
    requires Good(ram, c) && Enabled(ram, c, e)
    ensures Good(ram, After(ram, c, e))
  {
    match e
    case Demand(p, w, i, g, b) => AnonInv(ram, c.st, p, w, i, g, DATA_ATTRS);
    case Load(p) => TextFilledIff(ram, c.st, p, TEXT_ATTRS);
    case Upgrade(p, w) => UpgradedInv(ram, c.st, p, w);
    case Copy(p, w, g) => CopiedInv(ram, c.st, p, w, g);
    case Fork(p, q, wp, refs) => ForkInv(ram, c.st, p, q, wp, refs);
    case Exec(p, size, code) => ExecResult(ram, c.st, After(ram, c, e).st, p, size, code, c.mem);
    case Grow(p, base, size) => SectionedInv(ram, c.st, p, Section(Heap, base, size), map[]);
    case Buffer(p, base, n, pa) => DeviceFilledIff(ram, c.st, p, base, n, pa);
    case Store(p, w, b) =>
  }

  /** No event changes what a process other than the acting one reads. */
  lemma StepSees(ram: nat, c: Config, e: Event)
    requires Good(ram, c) && Enabled(ram, c, e)
    ensures OthersSee(c.st, After(ram, c, e).st, c.mem, After(ram, c, e).mem, e.p)
  {
    var c' := After(ram, c, e);
    match e {
      case Demand(p, w, i, g, b) => {
        DemandStep(ram, c, p, w, i, g, b);
      }
      case Copy(p, w, g) => {
        CopyStep(ram, c, p, w, g);
      }
      case Store(p, w, b) => {
        StoreStep(ram, c, p, w, b);
      }
      case _ => {
        SameViews(c.st, c'.st, c.mem, e.p);
      }
    }
  }

  /** A run: the configurations before and after each event. */
  ghost predicate IsRun(ram: nat, cs: seq<Config>, es: seq<Event>) {
    && |cs| == |es| + 1 && Good(ram, cs[0])
    && forall i {:trigger es[i]} :: 0 <= i < |es| ==> Goes(ram, cs, i, es[i])
  }

  ghost predicate Goes(ram: nat, cs: seq<Config>, i: nat, e: Event) {
    && i + 1 < |cs| && |cs[i].mem| == |cs[i].st.refs| == ram && Enabled(ram, cs[i], e)
    && cs[i + 1] == After(ram, cs[i], e)
  }

  lemma {:induction false} RunInv(ram: nat, cs: seq<Config>, es: seq<Event>, n: nat)
    requires IsRun(ram, cs, es) && n <= |es|
    ensures Good(ram, cs[n])
  {
    if n > 0 {
      RunInv(ram, cs, es, n - 1);
      assert Goes(ram, cs, n - 1, es[n - 1]);
      StepInv(ram, cs[n - 1], es[n - 1]);
    }
  }

  /** Isolation: over any run, a process that takes no step itself reads at the end what it read at the start. */
  lemma {:induction false} Isolation(ram: nat, cs: seq<Config>, es: seq<Event>, q: nat, n: nat)
    requires IsRun(ram, cs, es) && n <= |es| && q in cs[0].st.procs
    requires forall i :: 0 <= i < n ==> es[i].p != q
    ensures q in cs[n].st.procs && |cs[n].mem| == |cs[0].mem| == ram
    ensures ViewOf(ram, cs[n].st.procs[q].space, cs[n].mem) == ViewOf(ram, cs[0].st.procs[q].space, cs[0].mem)
  {
    if n > 0 {
      Isolation(ram, cs, es, q, n - 1);
      assert Goes(ram, cs, n - 1, es[n - 1]);
      RunInv(ram, cs, es, n - 1);
      StepSees(ram, cs[n - 1], es[n - 1]);
      assert Sees(cs[n - 1].st, cs[n].st, cs[n - 1].mem, cs[n].mem, q);
    }
  }

  /** The leaf entries that map frame f, as pairs of process and page. */
  ghost function Entries(procs: map<nat, Proc>, f: nat): (r: set<(nat, nat)>) {
    set p, w | p in procs && w in procs[p].space && procs[p].space[w].frame == f :: (p, w)
  }

  /** With one entry per sharer there are as many entries as sharers. */
  lemma {:induction false} SameSize(sh: set<nat>, en: set<(nat, nat)>)
    requires forall e :: e in en ==> e.0 in sh
    requires forall p :: p in sh ==> exists w :: (p, w) in en
    requires forall e, x :: e in en && x in en && e.0 == x.0 ==> e == x
    ensures |sh| == |en|
  {
    if sh == {} {
      assert forall e {:trigger e in en} :: e !in en;
    } else {
      var p :| p in sh;
      var w :| (p, w) in en;
      forall q | q in sh - {p} ensures exists v :: (q, v) in en - {(p, w)} {
        var v :| (q, v) in en;
        assert (q, v) in en - {(p, w)};
      }
      SameSize(sh - {p}, en - {(p, w)});
    }
  }

  /** In every reachable state a RAM page other than page 0 has as many references as leaf entries map it, at most
      MAX_PROC. */
  lemma RefsCountEntries(ram: nat, st: State, f: nat)
    requires Inv(ram, st) && 0 < f < ram
    ensures st.refs[f] == |Entries(st.procs, f)| <= MAX_PROC < 65536
  {
    var sh, en := Sharers(st.procs, f), Entries(st.procs, f);
    RefsBounded(ram, st, f);
    forall p | p in sh ensures exists w :: (p, w) in en {
      var w :| w in st.procs[p].space && st.procs[p].space[w].frame == f;
      assert (p, w) in en;
    }
    forall e, x | e in en && x in en && e.0 == x.0 ensures e == x {
      OneProc(ram, st, e.0);
    }
    SameSize(sh, en);
  }

  /** A page that some process may write is mapped by that one entry and no other. */
  lemma WritableIsSole(ram: nat, st: State, p: nat, w: nat)
    requires Inv(ram, st) && MapsRam(ram, st, p, w) && !st.procs[p].space[w].rdonly
    ensures Entries(st.procs, st.procs[p].space[w].frame) == {(p, w)}
  {
    OneProc(ram, st, p);
    var f := st.procs[p].space[w].frame;
    forall e | e in Entries(st.procs, f) ensures e == (p, w) {
      assert e.0 in Sharers(st.procs, f);
    }
  }

  // ----- what may be executed

  /** Bit 54 of the descriptor is clear. */
  predicate Executable(e: Entry) {
    e.attrs / PD_NX_EL0 % 2 == 0
  }

  ghost predicate ExecOk(ram: nat, pr: Proc) {
    forall w {:trigger pr.space[w]} :: w in pr.space && pr.space[w].frame < ram ==>
      (Executable(pr.space[w]) <==> w < pr.text)
  }

  /** A page of RAM is executable exactly if it is program text. */
  ghost predicate AllExecOk(ram: nat, procs: map<nat, Proc>) {
    forall p {:trigger procs[p]} :: p in procs ==> ExecOk(ram, procs[p])
  }

  lemma EntryExec(ram: nat, pr: Proc, w: nat, e: Entry)
    requires ExecOk(ram, pr) && (e.frame < ram ==> (Executable(e) <==> w < pr.text))
    ensures ExecOk(ram, pr.(space := pr.space[w := e]))
  {
  }

  lemma DemandExec(ram: nat, st: State, p: nat, w: nat, i: nat, g: nat)
    requires CanMapAnon(ram, st, p, w, i, g) && ExecOk(ram, st.procs[p])
    ensures ExecOk(ram, Anon(st, p, w, g, DATA_ATTRS).procs[p])
  {
    OneProc(ram, st, p);
    NotText(st.procs[p], i, w);
    EntryExec(ram, st.procs[p], w, LeafEntry(g, DATA_ATTRS, false));
  }

  lemma LoadExec(ram: nat, st: State, p: nat)
    requires p in st.procs && st.procs[p].code + st.procs[p].text <= |st.refs| && ExecOk(ram, st.procs[p])
    ensures ExecOk(ram, TextFilled(st, p, TEXT_ATTRS).procs[p])
  {
    TextFilledProcs(st, p, TEXT_ATTRS);
  }

  lemma BufferExec(ram: nat, st: State, p: nat, base: nat, n: nat, pa: nat)
    requires p in st.procs && ram <= pa && ExecOk(ram, st.procs[p])
    ensures ExecOk(ram, DeviceFilled(st, p, base, n, pa).procs[p])
  {
  }

  lemma ForkExec(ram: nat, pr: Proc)
    requires ExecOk(ram, pr)
    ensures ExecOk(ram, pr.(space := ForkedSpace(ram, pr.space)))
  {
    ForkLosesWriting(ram, pr.space);
  }

  /** An event that gives p this entry and touches no other process. */
  lemma ChangedExec(ram: nat, procs: map<nat, Proc>, procs': map<nat, Proc>, p: nat)
    requires AllExecOk(ram, procs) && p in procs' && ExecOk(ram, procs'[p])
    requires procs' == procs[p := procs'[p]]
    ensures AllExecOk(ram, procs')
  {
  }

  lemma StepExec(ram: nat, c: Config, e: Event)
    requires Good(ram, c) && Enabled(ram, c, e) && AllExecOk(ram, c.st.procs)
    ensures AllExecOk(ram, After(ram, c, e).st.procs)
  {
    var st, procs := c.st, After(ram, c, e).st.procs;
    assert e.p in st.procs ==> ExecOk(ram, st.procs[e.p]);
    if e.Fork? {
      ForkExec(ram, st.procs[e.p]);
      ChangedExec(ram, st.procs, st.procs[e.p := procs[e.p]], e.p);
      ChangedExec(ram, st.procs[e.p := procs[e.p]], procs, e.q);
    } else {
      match e {
        case Demand(p, w, i, g, b) => DemandExec(ram, st, p, w, i, g);
        case Load(p) => LoadExec(ram, st, p);
        case Upgrade(p, w) => EntryExec(ram, st.procs[p], w, procs[p].space[w]);
        case Copy(p, w, g) => EntryExec(ram, st.procs[p], w, procs[p].space[w]);
        case Buffer(p, base, n, pa) => BufferExec(ram, st, p, base, n, pa);
        case _ =>
      }
      ChangedExec(ram, st.procs, procs, e.p);
    }
  }

  /** Over any run from a state without processes, stack and heap pages are never executable, and text pages are. */
  lemma {:induction false} OnlyTextExecutes(ram: nat, cs: seq<Config>, es: seq<Event>, n: nat)
    requires IsRun(ram, cs, es) && n <= |es| && cs[0].st.procs == map[]
    ensures AllExecOk(ram, cs[n].st.procs)
  {
    if n > 0 {
      OnlyTextExecutes(ram, cs, es, n - 1);
      RunInv(ram, cs, es, n - 1);
      assert Goes(ram, cs, n - 1, es[n - 1]);
      StepExec(ram, cs[n - 1], es[n - 1]);
    }
  }

  // ----- a run that ends in a lost page

  const FRAME_BUFFER: nat := 0x30000      // the page of USR_FRAMEBUF_START
  const HEAP_PAGE: nat := 197400

  lemma CrossesHeapPage()
    ensures Crossed(FRAME_BUFFER, FRAME_BUFFER + 768, HEAP_PAGE)
  {
    Spans();
    assert StartsTable(197120, 0);
  }

  /** Three pages of RAM and one process with one page of text. */
  lemma SmallImage() returns (c0: Config, c1: Config)
    ensures Good(3, c0) && Enabled(3, c0, Exec(0, 4096, 1)) && c1 == After(3, c0, Exec(0, 4096, 1)) && Good(3, c1)
    ensures c1.st.procs == map[0 := Proc(map[], ImageSections(4096), 1, 1)] && c1.st.used == {1} && |c1.st.refs| == 3
  {
    c0 := Config(State(map[], [0, 0, 0], {}, {}), [[], [], []]);
    assert forall f: nat {:trigger Sharers(c0.st.procs, f)} :: Sharers(c0.st.procs, f) == {};
    var e := Exec(0, 4096, 1);
    assert NumPages(4096) == 1;
    assert Enabled(3, c0, e);
    StepInv(3, c0, e);
    c1 := After(3, c0, e);
  }

  /** The text is loaded. */
  lemma SmallProcess() returns (c0: Config, c1: Config, c2: Config)
    ensures Good(3, c0) && Enabled(3, c0, Exec(0, 4096, 1)) && c1 == After(3, c0, Exec(0, 4096, 1))
    ensures Good(3, c1) && Enabled(3, c1, Load(0)) && c2 == After(3, c1, Load(0)) && Good(3, c2)
    ensures c2.st.procs.Keys == {0} && c2.st.procs[0].sections == ImageSections(4096) && c2.st.used == {1}
    ensures forall w :: w in c2.st.procs[0].space ==> w == 0
  {
    c0, c1 := SmallImage();
    assert Unloaded(c1.st.procs[0]);
    assert Enabled(3, c1, Load(0));
    StepInv(3, c1, Load(0));
    c2 := After(3, c1, Load(0));
  }

  /** A heap section with one populated page is added to it. */
  lemma SmallHeap(c2: Config) returns (c3: Config, c4: Config)
    requires Good(3, c2) && c2.st.procs.Keys == {0} && c2.st.procs[0].sections == ImageSections(4096)
             && c2.st.used == {1}
    requires forall w :: w in c2.st.procs[0].space ==> w == 0
    ensures Enabled(3, c2, Grow(0, HEAP_PAGE, 4096)) && c3 == After(3, c2, Grow(0, HEAP_PAGE, 4096)) && Good(3, c3)
    ensures Enabled(3, c3, Demand(0, HEAP_PAGE, 2, 2, [])) && c4 == After(3, c3, Demand(0, HEAP_PAGE, 2, 2, []))
            && Good(3, c4)
    ensures c4.st.procs.Keys == {0} && c4.st.procs[0].sections == ImageSections(4096) + [Section(Heap, HEAP_PAGE, 4096)]
    ensures HEAP_PAGE in c4.st.procs[0].space && c4.st.procs[0].space[HEAP_PAGE].frame == 2
  {
    var heap := Section(Heap, HEAP_PAGE, 4096);
    assert NumPages(4096) == 1 && NumPages(STACK_EL0_SIZE) == 4;
    forall w | InSection(heap, w) ensures !Covered(ImageSections(4096), w) {
    }
    assert Enabled(3, c2, Grow(0, HEAP_PAGE, 4096));
    StepInv(3, c2, Grow(0, HEAP_PAGE, 4096));
    c3 := After(3, c2, Grow(0, HEAP_PAGE, 4096));
    var d := Demand(0, HEAP_PAGE, 2, 2, []);
    assert c3.st.procs[0].sections[2] == heap && InSection(heap, HEAP_PAGE);
    assert Enabled(3, c3, d);
    StepInv(3, c3, d);
    c4 := After(3, c3, d);
  }

  /** Exec, text, a heap page at page 197400, and then a frame buffer of 768 pages: the heap page is unmapped while
      its count stays, so the counts are wrong. */
  lemma FrameBufferLosesHeapPage() returns (cs: seq<Config>, es: seq<Event>)
    ensures IsRun(3, cs, es) && |es| == 4 && CanBuffer(3, cs[4], 0, FRAME_BUFFER, 768, 3)
    ensures HEAP_PAGE in cs[4].st.procs[0].space
    ensures var st := DeviceFilled(cs[4].st, 0, FRAME_BUFFER, 768, 3);
            HEAP_PAGE !in st.procs[0].space && !RefsMatch(3, st)
  {
    var c0, c1, c2 := SmallProcess();
    var c3, c4 := SmallHeap(c2);
    cs, es := [c0], [];
    cs, es := RunExtended(3, cs, es, Exec(0, 4096, 1), c1);
    cs, es := RunExtended(3, cs, es, Load(0), c2);
    cs, es := RunExtended(3, cs, es, Grow(0, HEAP_PAGE, 4096), c3);
    cs, es := RunExtended(3, cs, es, Demand(0, HEAP_PAGE, 2, 2, []), c4);
    BufferLoses(c4);
  }

  lemma RunExtended(ram: nat, cs: seq<Config>, es: seq<Event>, e: Event, c: Config)
                    returns (cs': seq<Config>, es': seq<Event>)
    requires IsRun(ram, cs, es) && Good(ram, cs[|es|]) && Enabled(ram, cs[|es|], e) && c == After(ram, cs[|es|], e)
    ensures IsRun(ram, cs', es') && |es'| == |es| + 1 && cs'[|es'|] == c
  {
    cs', es' := cs + [c], es + [e];
    forall i | 0 <= i < |es'| ensures Goes(ram, cs', i, es'[i]) {
      if i < |es| {
        assert Goes(ram, cs, i, es[i]);
      }
    }
  }

  lemma BufferLoses(c: Config)
    requires Good(3, c) && c.st.procs.Keys == {0}
             && c.st.procs[0].sections == ImageSections(4096) + [Section(Heap, HEAP_PAGE, 4096)]
    requires HEAP_PAGE in c.st.procs[0].space && c.st.procs[0].space[HEAP_PAGE].frame == 2
    ensures CanBuffer(3, c, 0, FRAME_BUFFER, 768, 3)
    ensures var st := DeviceFilled(c.st, 0, FRAME_BUFFER, 768, 3);
            HEAP_PAGE !in st.procs[0].space && !RefsMatch(3, st)
  {
    SmallBuffer(c);
    CrossesHeapPage();
    DeviceFilledLoses(3, c.st, 0, FRAME_BUFFER, 768, 3, HEAP_PAGE);
  }

  lemma SmallBuffer(c: Config)
    requires c.st.procs.Keys == {0} && c.st.procs[0].sections == ImageSections(4096) + [Section(Heap, HEAP_PAGE, 4096)]
    ensures CanBuffer(3, c, 0, FRAME_BUFFER, 768, 3)
  {
    assert NumPages(4096) == 1 && NumPages(STACK_EL0_SIZE) == 4 && NumPages(768 * PAGE_SIZE) == 768;
    var ss := c.st.procs[0].sections;
    forall w | InSection(FrameBuffer(FRAME_BUFFER, 768), w) ensures !Covered(ss, w) {
      assert ss[0] == Section(Text, 0, 4096) && ss[1] == Section(Stack, USR_STACK_PAGE, STACK_EL0_SIZE);
      assert ss[2] == Section(Heap, HEAP_PAGE, 4096) && |ss| == 3;
    }
  }
}
