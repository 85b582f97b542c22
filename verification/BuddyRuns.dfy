/**
 Whole runs of the page allocator: what any sequence of allocations and frees does to
 the tag array, and the one reservation that has no effect.
 */
module BuddyRuns {
  import opened Common
  import opened Dyadic
  import opened BuddyTags
  import opened Buddy

  datatype Event = Alloc(p: nat, k: nat) | Release(p: nat)

  ghost predicate Good(n: nat, a: seq<int>) {
    Tiled(n, a) && Coalesced(n, a)
  }

  ghost predicate Step(n: nat, a: seq<int>, e: Event, b: seq<int>) {
    match e
    case Alloc(p, k) => k <= n && Allocated(n, a, b, p, k)
    case Release(p) => Released(n, a, b, p)
  }

  /** states[i + 1] follows states[i] by events[i], and every state satisfies the allocator's invariant. */
  ghost predicate Run(n: nat, states: seq<seq<int>>, events: seq<Event>) {
    && |states| == |events| + 1
    && (forall i :: 0 <= i < |states| ==> Good(n, states[i]))
    && (forall i :: 0 <= i < |events| ==> Step(n, states[i], events[i], states[i + 1]))
  }

  /** The blocks allocated and not yet released, after all events. */
  ghost function Live(events: seq<Event>): (m: map<nat, nat>) {
    if events == [] then map[]
    else
      var m := Live(events[..|events| - 1]);
      match events[|events| - 1]
      case Alloc(p, k) => m[p := k]
      case Release(p) => m - {p}
  }

  /** Every release returns a block that the same run allocated. */
  ghost predicate OwnReleases(events: seq<Event>) {
    forall i :: 0 <= i < |events| && events[i].Release? ==> events[i].p in Live(events[..i])
  }

  ghost function UsedBlocks(a: seq<int>): (m: map<nat, int>) {
    map q: nat | q < |a| && a[q] < 0 :: a[q]
  }

  ghost function Tags(live: map<nat, nat>): (m: map<nat, int>) {
    map p | p in live :: UsedTag(live[p])
  }

  /** At every point of a run the used blocks are the initial ones and, apart from those, the live ones. */
  lemma {:induction false} UsedIsInitialPlusLive(n: nat, states: seq<seq<int>>, events: seq<Event>)
    requires Run(n, states, events) && OwnReleases(events)
    ensures Tags(Live(events)).Keys !! UsedBlocks(states[0]).Keys
    ensures UsedBlocks(states[|events|]) == UsedBlocks(states[0]) + Tags(Live(events))
    decreases |events|
  {
    if events == [] {
      return;
    }
    var m := |events| - 1;
    RunPrefix(n, states, events);
    UsedIsInitialPlusLive(n, states[..m + 1], events[..m]);
    UsedAfterStep(n, states[m], events[m], states[m + 1]);
    LiveAfterStep(events);
    match events[m] {
      case Alloc(p, k) =>
        ExtendUnion(UsedBlocks(states[0]), Tags(Live(events[..m])), p, UsedTag(k));
      case Release(p) =>
        ShrinkUnion(UsedBlocks(states[0]), Tags(Live(events[..m])), p);
    }
  }

  lemma ExtendUnion(u: map<nat, int>, t: map<nat, int>, p: nat, x: int)
    requires t.Keys !! u.Keys && p !in u + t
    ensures (u + t)[p := x] == u + t[p := x] && t[p := x].Keys !! u.Keys
  {
  }

  lemma ShrinkUnion(u: map<nat, int>, t: map<nat, int>, p: nat)
    requires t.Keys !! u.Keys && p in t
    ensures (u + t) - {p} == u + (t - {p}) && (t - {p}).Keys !! u.Keys
  {
  }

  lemma RunPrefix(n: nat, states: seq<seq<int>>, events: seq<Event>)
    requires Run(n, states, events) && OwnReleases(events) && events != []
    ensures var m := |events| - 1;
            Run(n, states[..m + 1], events[..m]) && OwnReleases(events[..m]) &&
            Step(n, states[m], events[m], states[m + 1]) &&
            (events[m].Release? ==> events[m].p in Live(events[..m]))
  {
    var es := events[..|events| - 1];
    forall i | 0 <= i < |es| && es[i].Release? ensures es[i].p in Live(es[..i]) {
      assert es[..i] == events[..i];
    }
  }

  lemma LiveAfterStep(events: seq<Event>)
    requires events != []
    ensures var e, live := events[|events| - 1], Live(events[..|events| - 1]);
            match e
            case Alloc(p, k) => Tags(Live(events)) == Tags(live)[p := UsedTag(k)]
            case Release(p) => Tags(Live(events)) == Tags(live) - {p}
  {
  }

  lemma UsedAfterStep(n: nat, a: seq<int>, e: Event, b: seq<int>)
    requires Step(n, a, e, b)
    ensures e.Alloc? ==> e.p !in UsedBlocks(a) && UsedBlocks(b) == UsedBlocks(a)[e.p := UsedTag(e.k)]
    ensures e.Release? ==> UsedBlocks(b) == UsedBlocks(a) - {e.p}
  {
  }

  /** Releasing everything a run allocated, in any order, restores the tag array it started from. */
  lemma ReleasingAllRestores(n: nat, states: seq<seq<int>>, events: seq<Event>)
    requires Run(n, states, events) && OwnReleases(events) && Live(events) == map[]
    ensures states[|events|] == states[0]
  {
    UsedIsInitialPlusLive(n, states, events);
    var a, b := states[0], states[|events|];
    assert Good(n, a) && Good(n, b);
    assert UsedBlocks(b) == UsedBlocks(a);
    forall q: nat | q < |a| && (a[q] < 0 || b[q] < 0) ensures a[q] == b[q] {
      assert q in UsedBlocks(a) <==> q in UsedBlocks(b);
    }
    CanonicalTags(n, a, b);
  }

  /** Two live blocks of a run share no page. */
  lemma LiveBlocksDisjoint(n: nat, states: seq<seq<int>>, events: seq<Event>, p: nat, q: nat)
    requires Run(n, states, events) && OwnReleases(events)
    requires p in Live(events) && q in Live(events) && p < q
    ensures p + Pow2(Live(events)[p]) <= q
  {
    UsedIsInitialPlusLive(n, states, events);
    var b := states[|events|];
    assert Good(n, b);
    LiveOrders(n, states, events, p);
    assert p in UsedBlocks(b) && q in UsedBlocks(b);
    Apart(n, b, p, q);
  }

  lemma {:induction false} LiveOrders(n: nat, states: seq<seq<int>>, events: seq<Event>, p: nat)
    requires Run(n, states, events) && p in Live(events)
    ensures Live(events)[p] <= n
    decreases |events|
  {
    var m := |events| - 1;
    assert Step(n, states[m], events[m], states[m + 1]);
    if !(events[m].Alloc? && events[m].p == p) {
      assert Run(n, states[..m + 1], events[..m]);
      LiveOrders(n, states[..m + 1], events[..m], p);
    }
  }

  /** Freeing a block just allocated undoes the allocation. */
  lemma FreeUndoesMalloc(n: nat, a: seq<int>, b: seq<int>, c: seq<int>, p: nat, k: nat)
    requires Good(n, a) && Good(n, b) && Good(n, c) && k <= n
    requires Allocated(n, a, b, p, k) && Released(n, b, c, p)
    ensures c == a
  {
    CanonicalTags(n, a, c);
  }

  /**
   A reservation that is lost. Reserving the first of two pages leaves the second as a free
   one-page block; reserving exactly that page then changes nothing, and it stays free.
   */
  method LostReservation() returns (b: Allocator, ghost before: seq<int>, ghost idx: nat, ghost k: nat)
    ensures b.Valid() && b.n == 1 && before == [UsedTag(0), 0] && Good(1, before)
    ensures idx == 1 && k == 0 && LeastCover(PAGE_SIZE, 2 * PAGE_SIZE, idx, k)
    ensures b.arr[..] == before && !Used(1, before, 1) && !Reserved(1, before, b.arr[..], idx, k)
  {
    b := new Allocator(2 * PAGE_SIZE);
    assert Pow2(1) == 2;
    assert b.n == 1;
    idx, k := b.Reserve(0, PAGE_SIZE);
    assert Aligned(0, 0);
    before := b.arr[..];
    assert idx == 0 && k == 0;
    Cover(1, before, 0);
    Cover(1, before, 1);
    assert Used(1, before, 0) && !Used(1, before, 1);
    idx, k := b.Reserve(PAGE_SIZE, 2 * PAGE_SIZE);
    assert Aligned(1, 0);
  }
}
