/**
 The counting that fork does before it copies the tables: a walk over the pages of all
 sections that adds a reference for each page found mapped.
 */
module CowCount {
  import opened PageWalk
  import opened CowState

  /** Page w is among those visited after i whole sections and the first k pages of section i. */
  ghost predicate Visited(ss: seq<Section>, i: nat, k: nat, w: nat) {
    || (exists j :: 0 <= j < i && j < |ss| && ss[j].kind != Device && InSection(ss[j], w))
    || (i < |ss| && ss[i].kind != Device && ss[i].base <= w < ss[i].base + k)
  }

  ghost predicate MapsVisited(sp: Space, ss: seq<Section>, i: nat, k: nat, f: nat) {
    exists w :: w in sp && sp[w].frame == f && Visited(ss, i, k, w)
  }

  /** The frames of the visited pages have one more reference than in refs0; page 0, which stands for unmapped pages,
      is not tracked. */
  ghost predicate Counted(ram: nat, sp: Space, ss: seq<Section>, i: nat, k: nat, refs0: seq<nat>, refs: seq<nat>) {
    |refs| == |refs0| == ram &&
    forall f {:trigger refs[f]} :: 0 < f < ram ==>
      refs[f] == if MapsVisited(sp, ss, i, k, f) then (refs0[f] + 1) % 65536 else refs0[f]
  }

  /** The page that v2p_trans reports, with 0 for an unmapped one. */
  function FrameOf(sp: Space, w: nat): (f: nat) {
    if w in sp then sp[w].frame else 0
  }

  lemma FrameInRam(ram: nat, st: State, pr: Proc, i: nat, k: nat)
    requires ProcOk(ram, st, pr) && 0 < ram && i < |pr.sections| && k < NumPages(pr.sections[i].size)
             && pr.sections[i].kind != Device
    ensures FrameOf(pr.space, pr.sections[i].base + k) < ram && pr.sections[i].base + k < PAGES
  {
    var w := pr.sections[i].base + k;
    assert InSection(pr.sections[i], w);
    assert RamPage(pr.sections, w);
  }

  ghost predicate PageIn(ram: nat, pr: Proc, i: nat, k: nat)
    requires i < |pr.sections|
  {
    FrameOf(pr.space, pr.sections[i].base + k) < ram && pr.sections[i].base + k < PAGES
  }

  /** What the walk over section i needs: frames in RAM, mapped once, and sections that do not overlap. */
  ghost predicate Countable(ram: nat, pr: Proc, i: nat) {
    && i < |pr.sections| && pr.sections[i].kind != Device && Injective(ram, pr.space) && SectionsDisjoint(pr.sections)
    && forall k {:trigger PageIn(ram, pr, i, k)} :: 0 <= k < NumPages(pr.sections[i].size) ==> PageIn(ram, pr, i, k)
  }

  lemma SectionCountable(ram: nat, st: State, pr: Proc, i: nat)
    requires ProcOk(ram, st, pr) && 0 < ram && i < |pr.sections| && pr.sections[i].kind != Device
    ensures Countable(ram, pr, i)
  {
    forall k | 0 <= k < NumPages(pr.sections[i].size) ensures PageIn(ram, pr, i, k) {
      FrameInRam(ram, st, pr, i, k);
    }
  }

  lemma VisitedNext(ss: seq<Section>, i: nat, k: nat, w: nat)
    requires i < |ss| && ss[i].kind != Device
    ensures Visited(ss, i, k + 1, w) <==> Visited(ss, i, k, w) || w == ss[i].base + k
  {
  }

  lemma NotVisited(ss: seq<Section>, i: nat, k: nat)
    requires SectionsDisjoint(ss) && i < |ss| && k < NumPages(ss[i].size)
    ensures !Visited(ss, i, k, ss[i].base + k)
  {
    assert InSection(ss[i], ss[i].base + k);
  }

  /** One page further: its frame, and only its frame, gains a reference. */
  lemma CountNext(ram: nat, pr: Proc, i: nat, k: nat, refs0: seq<nat>, refs: seq<nat>)
    requires Counted(ram, pr.space, pr.sections, i, k, refs0, refs) && Countable(ram, pr, i)
             && k < NumPages(pr.sections[i].size)
    ensures FrameOf(pr.space, pr.sections[i].base + k) < ram && pr.sections[i].base + k < PAGES
    ensures Counted(ram, pr.space, pr.sections, i, k + 1, refs0,
            Incremented(refs, FrameOf(pr.space, pr.sections[i].base + k)))
  {
    var sp, ss, v := pr.space, pr.sections, pr.sections[i].base + k;
    assert PageIn(ram, pr, i, k);
    var refs' := Incremented(refs, FrameOf(sp, v));
    NotVisited(ss, i, k);
    forall f | 0 < f < ram
      ensures refs'[f] == if MapsVisited(sp, ss, i, k + 1, f) then (refs0[f] + 1) % 65536 else refs0[f]
    {
      MapsNext(ram, sp, ss, i, k, f);
    }
  }

  lemma MapsNext(ram: nat, sp: Space, ss: seq<Section>, i: nat, k: nat, f: nat)
    requires Injective(ram, sp) && i < |ss| && ss[i].kind != Device && 0 < f < ram && !Visited(ss, i, k, ss[i].base + k)
    ensures MapsVisited(sp, ss, i, k + 1, f) <==> MapsVisited(sp, ss, i, k, f) || f == FrameOf(sp, ss[i].base + k)
    ensures !(MapsVisited(sp, ss, i, k, f) && f == FrameOf(sp, ss[i].base + k))
  {
    var v := ss[i].base + k;
    if MapsVisited(sp, ss, i, k + 1, f) {
      var w :| w in sp && sp[w].frame == f && Visited(ss, i, k + 1, w);
      VisitedNext(ss, i, k, w);
    }
    if MapsVisited(sp, ss, i, k, f) {
      var w :| w in sp && sp[w].frame == f && Visited(ss, i, k, w);
      VisitedNext(ss, i, k, w);
      assert w != v;
    }
    if f == FrameOf(sp, v) {
      VisitedNext(ss, i, k, v);
      assert v in sp && sp[v].frame == f && Visited(ss, i, k + 1, v);
    }
  }

  /** The end of a section is the start of the next. */
  lemma VisitedSection(ss: seq<Section>, i: nat, k: nat, w: nat)
    requires i < |ss| && (ss[i].kind == Device || k == NumPages(ss[i].size))
    ensures Visited(ss, i, k, w) <==> Visited(ss, i + 1, 0, w)
  {
    var n := i + 1;
    if Visited(ss, i, k, w) && ss[i].kind != Device && ss[i].base <= w < ss[i].base + k {
      assert 0 <= i < n && InSection(ss[i], w);
    }
  }

  lemma CountSection(ram: nat, sp: Space, ss: seq<Section>, i: nat, k: nat, refs0: seq<nat>, refs: seq<nat>)
    requires Counted(ram, sp, ss, i, k, refs0, refs) && i < |ss| && (ss[i].kind == Device || k == NumPages(ss[i].size))
    ensures Counted(ram, sp, ss, i + 1, 0, refs0, refs)
  {
    forall f: nat ensures MapsVisited(sp, ss, i, k, f) <==> MapsVisited(sp, ss, i + 1, 0, f) {
      forall w: nat ensures Visited(ss, i, k, w) <==> Visited(ss, i + 1, 0, w) {
        VisitedSection(ss, i, k, w);
      }
    }
  }

  /** After the last section every mapped frame has been counted once. */
  lemma AllCounted(ram: nat, st: State, pr: Proc, refs0: seq<nat>, refs: seq<nat>)
    requires PagesOk(ram, st, pr) && Counted(ram, pr.space, pr.sections, |pr.sections|, 0, refs0, refs)
    ensures CountsFork(ram, pr.space, refs0, refs)
  {
    var sp, ss := pr.space, pr.sections;
    forall f | 0 < f < ram ensures MapsVisited(sp, ss, |ss|, 0, f) <==> Maps(sp, f) {
      if Maps(sp, f) {
        var w :| w in sp && sp[w].frame == f;
        assert PageOk(ram, st, ss, w, sp[w]);
        var j :| 0 <= j < |ss| && ss[j].kind != Device && InSection(ss[j], w);
        assert Visited(ss, |ss|, 0, w);
      }
    }
  }
}
