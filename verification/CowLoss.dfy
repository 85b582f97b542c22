/**
 What fill_page_table does to an address space as a whole. A table crossed into is replaced by
 a fresh one, so pages behind the range can lose their mapping while their reference stays
 counted: exactly when that happens, and a run of events in which it does.
 */
module CowLoss {
  import opened Common
  import opened PageWalk
  import opened PageTables
  import opened CowState

  /** What is left of an address space when [s, e) is filled: pages in tables crossed into are gone. */
  ghost function Uncrossed(sp: Space, s: nat, e: nat): (r: Space) {
    map w | w in sp && !Crossed(s, e, w) :: sp[w]
  }

  ghost function Dropped(st: State, p: nat, s: nat, e: nat): (r: State)
    requires p in st.procs
  {
    st.(procs := st.procs[p := st.procs[p].(space := Uncrossed(st.procs[p].space, s, e))])
  }

  /** No RAM page of the address space lies in a table that filling [s, e) crosses into. */
  ghost predicate RamApart(ram: nat, sp: Space, s: nat, e: nat) {
    forall w {:trigger w in sp} :: w in sp && sp[w].frame < ram ==> !Crossed(s, e, w)
  }

  lemma DroppedMaps(ram: nat, sp: Space, s: nat, e: nat, f: nat)
    requires RamApart(ram, sp, s, e) && f < ram
    ensures Maps(Uncrossed(sp, s, e), f) <==> Maps(sp, f)
  {
    if Maps(sp, f) {
      var w :| w in sp && sp[w].frame == f;
      assert w in Uncrossed(sp, s, e) && Uncrossed(sp, s, e)[w].frame == f;
    }
  }

  lemma DroppedPages(ram: nat, st: State, pr: Proc, pr': Proc, s: nat, e: nat)
    requires Injective(ram, pr.space) && PagesOk(ram, st, pr) && pr' == pr.(space := Uncrossed(pr.space, s, e))
    ensures Injective(ram, pr'.space) && PagesOk(ram, st, pr')
  {
    forall w | w in pr'.space ensures PageOk(ram, st, pr'.sections, w, pr'.space[w]) {
      assert PageOk(ram, st, pr.sections, w, pr.space[w]);
    }
    forall w, x | w in pr'.space && x in pr'.space && pr'.space[w].frame == pr'.space[x].frame < ram ensures w == x {
      assert pr.space[w].frame == pr.space[x].frame;
    }
  }

  lemma DroppedText(ram: nat, st: State, pr: Proc, pr': Proc, s: nat, e: nat)
    requires TextOk(ram, st, pr) && pr' == pr.(space := Uncrossed(pr.space, s, e))
    requires forall w {:trigger w in pr.space} :: w in pr.space && Crossed(s, e, w) ==> w >= pr.text
    ensures TextOk(ram, st, pr') && (Unloaded(pr') <==> Unloaded(pr))
  {
    forall w | 0 <= w < pr.text ensures w in pr'.space <==> w in pr.space {
    }
    if Loaded(pr) {
      assert Loaded(pr');
      assert pr.text > 0 ==> 0 in pr.space && 0 in pr'.space;
    } else {
      assert Unloaded(pr');
    }
  }

  lemma DroppedProc(ram: nat, st: State, pr: Proc, s: nat, e: nat)
    requires ProcOk(ram, st, pr) && forall w {:trigger w in pr.space} :: w in pr.space && Crossed(s, e, w) ==>
             w >= pr.text
    ensures var pr' := pr.(space := Uncrossed(pr.space, s, e));
            ProcOk(ram, st, pr') && (Unloaded(pr') <==> Unloaded(pr))
  {
    var pr' := pr.(space := Uncrossed(pr.space, s, e));
    DroppedPages(ram, st, pr, pr', s, e);
    DroppedText(ram, st, pr, pr', s, e);
  }

  /** Losing only device pages keeps the invariant. */
  lemma DroppedInv(ram: nat, st: State, p: nat, s: nat, e: nat)
    requires Inv(ram, st) && p in st.procs && RamApart(ram, st.procs[p].space, s, e)
    requires forall w {:trigger w in st.procs[p].space} :: w in st.procs[p].space && Crossed(s, e, w) ==>
             w >= st.procs[p].text
    ensures Inv(ram, Dropped(st, p, s, e))
  {
    var st' := Dropped(st, p, s, e);
    var pr, pr' := st.procs[p], st'.procs[p];
    OneProc(ram, st, p);
    DroppedProc(ram, st, pr, s, e);
    forall f: nat | f < ram ensures Maps(pr'.space, f) <==> Maps(pr.space, f) {
      DroppedMaps(ram, pr.space, s, e, f);
    }
    forall x | x in pr'.space && pr'.space[x].frame < ram && !pr'.space[x].rdonly
      ensures Sharers(st.procs, pr'.space[x].frame) == {p}
    {
      assert pr'.space[x] == pr.space[x];
    }
    SameFramesChange(ram, st, st', p, pr');
    ProcKept(ram, st, st', pr');
    InvAfterChange(ram, st, st', p, pr');
  }

  /** A process that no longer maps a page whose count is as before spoils the counts. */
  lemma LostReference(ram: nat, st: State, st': State, p: nat, pr: Proc, f: nat)
    requires RefsMatch(ram, st) && p in st.procs && Maps(st.procs[p].space, f) && 0 < f < ram
    requires st'.procs == st.procs[p := pr] && !Maps(pr.space, f) && |st'.refs| == ram && st'.refs[f] == st.refs[f]
    ensures !RefsMatch(ram, st')
  {
    SharersUpdate(st.procs, p, pr, f);
    assert p in Sharers(st.procs, f);
    assert |Sharers(st.procs, f) - {p}| == |Sharers(st.procs, f)| - 1;
  }

  /** A page that is crossed takes the only mapping of its frame with it. */
  lemma CrossedIsUnmapped(ram: nat, sp: Space, s: nat, e: nat, w: nat)
    requires Injective(ram, sp) && w in sp && sp[w].frame < ram && Crossed(s, e, w)
    ensures !Maps(Uncrossed(sp, s, e), sp[w].frame)
  {
  }

  // ----- the program text

  /** The text case of a translation fault, with what it loses. */
  ghost function TextFilled(st: State, p: nat, attrs: nat): (r: State)
    requires p in st.procs && st.procs[p].code + st.procs[p].text <= |st.refs|
  {
    TextLoaded(Dropped(st, p, 0, st.procs[p].text), p, attrs)
  }

  lemma TextFilledKeeps(ram: nat, st: State, p: nat, attrs: nat)
    requires Inv(ram, st) && p in st.procs && Unloaded(st.procs[p])
    requires RamApart(ram, st.procs[p].space, 0, st.procs[p].text)
    ensures st.procs[p].code + st.procs[p].text <= ram && Inv(ram, TextFilled(st, p, attrs))
  {
    OneProc(ram, st, p);
    var st1 := Dropped(st, p, 0, st.procs[p].text);
    DroppedInv(ram, st, p, 0, st.procs[p].text);
    DroppedProc(ram, st, st.procs[p], 0, st.procs[p].text);
    TextInv(ram, st1, p, attrs);
  }

  lemma TextFilledLoses(ram: nat, st: State, p: nat, attrs: nat, w: nat)
    requires Inv(ram, st) && p in st.procs && Unloaded(st.procs[p]) && st.procs[p].code + st.procs[p].text <= ram
    requires w in st.procs[p].space && st.procs[p].space[w].frame < ram && Crossed(0, st.procs[p].text, w)
    ensures !RefsMatch(ram, TextFilled(st, p, attrs))
  {
    OneProc(ram, st, p);
    var pr, f := st.procs[p], st.procs[p].space[w].frame;
    var pr1 := pr.(space := Uncrossed(pr.space, 0, pr.text));
    assert p in Sharers(st.procs, f);
    if IsCode(pr, f) {
      assert CodeOf(st, p, f);
      UnloadedCode(ram, st, p, f);
    }
    DroppedProc(ram, st, pr, 0, pr.text);
    CrossedIsUnmapped(ram, pr.space, 0, pr.text, w);
    TextMaps(pr1, attrs, f);
    RefRangeAt(st.refs, pr.code, pr.text, f);
    TextFilledProcs(st, p, attrs);
    LostReference(ram, st, TextFilled(st, p, attrs), p, pr.(space := TextSpace(pr1, attrs)), f);
  }

  lemma TextFilledProcs(st: State, p: nat, attrs: nat)
    requires p in st.procs && st.procs[p].code + st.procs[p].text <= |st.refs|
    ensures var pr := st.procs[p];
            var pr1 := pr.(space := Uncrossed(pr.space, 0, pr.text));
            && TextFilled(st, p, attrs).procs == st.procs[p := pr.(space := TextSpace(pr1, attrs))]
            && TextFilled(st, p, attrs).refs == RefRange(st.refs, pr.code, pr.text)
  {
  }

  /** Mapping the text keeps the invariant if and only if no RAM page lies in a table it crosses into. */
  lemma TextFilledIff(ram: nat, st: State, p: nat, attrs: nat)
    requires Inv(ram, st) && p in st.procs && Unloaded(st.procs[p])
    ensures st.procs[p].code + st.procs[p].text <= ram
    ensures Inv(ram, TextFilled(st, p, attrs)) <==> RamApart(ram, st.procs[p].space, 0, st.procs[p].text)
  {
    OneProc(ram, st, p);
    if RamApart(ram, st.procs[p].space, 0, st.procs[p].text) {
      TextFilledKeeps(ram, st, p, attrs);
    } else {
      var w :| w in st.procs[p].space && st.procs[p].space[w].frame < ram && Crossed(0, st.procs[p].text, w);
      TextFilledLoses(ram, st, p, attrs, w);
    }
  }

  // ----- device pages

  /** Pages base up to base + n on consecutive device pages. */
  function DeviceRun(base: nat, n: nat, pa: nat): (sp: Space)
    ensures forall w {:trigger w in sp} :: w in sp <==> base <= w < base + n
    ensures forall w {:trigger sp[w]} :: base <= w < base + n ==> sp[w] == LeafEntry(pa + (w - base), TEXT_ATTRS, false)
  {
    if n == 0 then map[] else DeviceRun(base, n - 1, pa)[base + (n - 1) := LeafEntry(pa + (n - 1), TEXT_ATTRS, false)]
  }

  function FrameBuffer(base: nat, n: nat): (s: Section) {
    Section(Device, base, n * PAGE_SIZE)
  }

  /** The frame buffer request, with what it loses. */
  ghost function DeviceFilled(st: State, p: nat, base: nat, n: nat, pa: nat): (r: State)
    requires p in st.procs
  {
    Sectioned(Dropped(st, p, base, base + n), p, FrameBuffer(base, n), DeviceRun(base, n, pa))
  }

  /** The new section lies behind the text, and so does all that it may cross. */
  lemma BehindText(ram: nat, st: State, p: nat, base: nat, n: nat)
    requires Inv(ram, st) && p in st.procs && Separate(st.procs[p].sections, FrameBuffer(base, n))
    ensures forall w {:trigger w in st.procs[p].space} :: w in st.procs[p].space ==>
              !(base <= w < base + n) && (Crossed(base, base + n, w) ==> w >= st.procs[p].text)
  {
    OneProc(ram, st, p);
    var pr := st.procs[p];
    forall w | w in pr.space ensures !(base <= w < base + n) && (Crossed(base, base + n, w) ==> w >= pr.text) {
      assert PageOk(ram, st, pr.sections, w, pr.space[w]);
      assert !InSection(FrameBuffer(base, n), w);
      if Crossed(base, base + n, w) && pr.text > 0 {
        var j :| 0 <= j < |pr.sections| && pr.sections[j].kind == Text;
        assert InSection(FrameBuffer(base, n), base);
        assert !InSection(pr.sections[j], base);
      }
    }
  }

  lemma DeviceFilledKeeps(ram: nat, st: State, p: nat, base: nat, n: nat, pa: nat)
    requires Inv(ram, st) && p in st.procs && Separate(st.procs[p].sections, FrameBuffer(base, n))
    requires base + n <= PAGES && ram <= pa && RamApart(ram, st.procs[p].space, base, base + n)
    ensures Inv(ram, DeviceFilled(st, p, base, n, pa))
  {
    BehindText(ram, st, p, base, n);
    DroppedInv(ram, st, p, base, base + n);
    SectionedInv(ram, Dropped(st, p, base, base + n), p, FrameBuffer(base, n), DeviceRun(base, n, pa));
  }

  lemma DeviceFilledLoses(ram: nat, st: State, p: nat, base: nat, n: nat, pa: nat, w: nat)
    requires Inv(ram, st) && p in st.procs && ram <= pa
    requires w in st.procs[p].space && st.procs[p].space[w].frame < ram && Crossed(base, base + n, w)
    ensures !RefsMatch(ram, DeviceFilled(st, p, base, n, pa))
  {
    OneProc(ram, st, p);
    var st' := DeviceFilled(st, p, base, n, pa);
    CrossedIsUnmapped(ram, st.procs[p].space, base, base + n, w);
    assert st'.procs == st.procs[p := st'.procs[p]];
    LostReference(ram, st, st', p, st'.procs[p], st.procs[p].space[w].frame);
  }

  /** A frame buffer keeps the invariant if and only if no RAM page lies in a table that mapping it crosses into. */
  lemma DeviceFilledIff(ram: nat, st: State, p: nat, base: nat, n: nat, pa: nat)
    requires Inv(ram, st) && p in st.procs && Separate(st.procs[p].sections, FrameBuffer(base, n))
    requires base + n <= PAGES && ram <= pa
    ensures Inv(ram, DeviceFilled(st, p, base, n, pa)) <==> RamApart(ram, st.procs[p].space, base, base + n)
  {
    if RamApart(ram, st.procs[p].space, base, base + n) {
      DeviceFilledKeeps(ram, st, p, base, n, pa);
    } else {
      var w :| w in st.procs[p].space && st.procs[p].space[w].frame < ram && Crossed(base, base + n, w);
      DeviceFilledLoses(ram, st, p, base, n, pa, w);
    }
  }

  // ----- address spaces before and after a fill

  /** sp' is what filling [s, e) with consecutive frames from pa on makes of sp. */
  ghost predicate FilledSpace(sp: Space, sp': Space, s: nat, e: nat, pa: nat, attrs: nat) {
    forall w {:trigger w in sp'} :: 0 <= w < PAGES ==>
      && (w in sp' <==> s <= w < e || (w in sp && !Crossed(s, e, w)))
      && (w in sp' ==> sp'[w] == if s <= w < e then LeafEntry(pa + (w - s), attrs, false) else sp[w])
  }

  lemma OneFilledSpace(sp: Space, w: nat, pa: nat, attrs: nat)
    ensures FilledSpace(sp, sp[w := LeafEntry(pa, attrs, false)], w, w + 1, pa, attrs)
  {
    forall x | x in sp ensures !Crossed(w, w + 1, x) {
    }
  }

  lemma TextFilledSpace(st: State, p: nat, attrs: nat)
    requires p in st.procs && Unloaded(st.procs[p]) && st.procs[p].code + st.procs[p].text <= |st.refs|
    ensures FilledSpace(st.procs[p].space, TextFilled(st, p, attrs).procs[p].space, 0, st.procs[p].text,
            st.procs[p].code, attrs)
  {
    var pr := st.procs[p];
    var sp, run := Uncrossed(pr.space, 0, pr.text), Run(pr.code, pr.text, attrs);
    assert TextFilled(st, p, attrs).procs[p].space == sp + run;
    RunFilledSpace(pr.space, run, 0, pr.text, pr.code, attrs);
  }

  lemma DeviceFilledSpace(sp: Space, base: nat, n: nat, pa: nat)
    requires forall w {:trigger w in sp} :: w in sp ==> !(base <= w < base + n)
    ensures FilledSpace(sp, Uncrossed(sp, base, base + n) + DeviceRun(base, n, pa), base, base + n, pa, TEXT_ATTRS)
  {
    RunFilledSpace(sp, DeviceRun(base, n, pa), base, base + n, pa, TEXT_ATTRS);
  }

  lemma RunFilledSpace(sp: Space, run: Space, s: nat, e: nat, pa: nat, attrs: nat)
    requires forall w {:trigger w in run} :: w in run <==> s <= w < e
    requires forall w {:trigger run[w]} :: s <= w < e ==> run[w] == LeafEntry(pa + (w - s), attrs, false)
    ensures FilledSpace(sp, Uncrossed(sp, s, e) + run, s, e, pa, attrs)
  {
  }
}
