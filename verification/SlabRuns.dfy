/**
 Whole runs of malloc and free: what is live is what was taken and not given back, and giving
 everything back restores the page allocator.
 */
module SlabRuns {
  import opened SlabHeap
  import SlabPools

  datatype Event = Take(addr: nat, size: nat) | Give(addr: nat)

  /** Live allocations, from address to size. */
  type Table = map<nat, nat>

  /** The effects that malloc and free promise. */
  ghost predicate Step(m: Table, e: Event, m': Table) {
    match e
    case Take(addr, size) => addr !in m && m' == m[addr := size]
    case Give(addr) => addr in m && m' == m - {addr}
  }

  ghost predicate Run(ms: seq<Table>, es: seq<Event>) {
    |ms| == |es| + 1 && forall i {:trigger Goes(ms, es, i)} :: 0 <= i < |es| ==> Goes(ms, es, i)
  }

  ghost predicate Goes(ms: seq<Table>, es: seq<Event>, i: nat) {
    i < |es| && i + 1 < |ms| && Step(ms[i], es[i], ms[i + 1])
  }

  /** Taken and not given back, after the first n events. */
  ghost function Live(es: seq<Event>, n: nat): (m: Table)
    requires n <= |es|
  {
    if n == 0 then map[]
    else match es[n - 1]
      case Take(addr, size) => Live(es, n - 1)[addr := size]
      case Give(addr) => Live(es, n - 1) - {addr}
  }

  /** Every address given back was taken in the same run. */
  ghost predicate OwnGives(es: seq<Event>) {
    forall i {:trigger Own(es, i)} :: 0 <= i < |es| ==> Own(es, i)
  }

  ghost predicate Own(es: seq<Event>, i: nat)
    requires i < |es|
  {
    es[i].Give? ==> es[i].addr in Live(es, i)
  }

  /** The live allocations are the initial ones and, apart from those, the live ones of the run. */
  lemma {:induction false} InitialPlusLive(ms: seq<Table>, es: seq<Event>, n: nat)
    requires Run(ms, es) && OwnGives(es) && n <= |es|
    ensures Live(es, n).Keys !! ms[0].Keys && ms[n] == ms[0] + Live(es, n)
  {
    if n > 0 {
      InitialPlusLive(ms, es, n - 1);
      assert Goes(ms, es, n - 1) && Own(es, n - 1);
      OneStep(ms[0], Live(es, n - 1), es[n - 1], ms[n - 1], ms[n], Live(es, n));
    }
  }

  lemma OneStep(u: Table, t: Table, e: Event, m: Table, m': Table, t': Table)
    requires u.Keys !! t.Keys && m == u + t && Step(m, e, m') && (e.Give? ==> e.addr in t)
    requires t' == match e { case Take(addr, size) => t[addr := size] case Give(addr) => t - {addr} }
    ensures u.Keys !! t'.Keys && m' == u + t'
  {
    match e {
      case Take(addr, size) => TakeUnion(u, t, addr, size);
      case Give(addr) => GiveUnion(u, t, addr);
    }
  }

  lemma TakeUnion(u: Table, t: Table, p: nat, x: nat)
    requires u.Keys !! t.Keys && p !in u + t
    ensures (u + t)[p := x] == u + t[p := x] && u.Keys !! t[p := x].Keys
  {
  }

  lemma GiveUnion(u: Table, t: Table, p: nat)
    requires u.Keys !! t.Keys && p in t
    ensures (u + t) - {p} == u + (t - {p}) && u.Keys !! (t - {p}).Keys
  {
  }

  // ----- runs of heaps

  ghost predicate Good(wide: bool, n: nat, h: Heap) {
    HeapOk(wide, h) && h.n == n
  }

  /** Heaps of one machine, each with the live allocations that the event before it leaves. */
  ghost predicate HeapRun(wide: bool, n: nat, hs: seq<Heap>, es: seq<Event>) {
    && |hs| == |es| + 1 && (forall i {:trigger Good(wide, n, hs[i])} :: 0 <= i < |hs| ==> Good(wide, n, hs[i]))
    && Run(Tables(hs), es)
  }

  ghost function Tables(hs: seq<Heap>): (ms: seq<Table>)
    ensures |ms| == |hs|
    ensures forall i {:trigger ms[i]} :: 0 <= i < |hs| && |hs[i].pages| == |hs[i].live| == |hs[i].a| ==>
            ms[i] == Allocs(hs[i])
  {
    seq(|hs|, i requires 0 <= i < |hs| => if |hs[i].pages| == |hs[i].live| == |hs[i].a| then Allocs(hs[i]) else map[])
  }

  /** At every point of a run of malloc and free, the live allocations are those that were live at the start and, apart
      from them, those taken and not given back. */
  lemma AllocsAreInitialPlusLive(wide: bool, n: nat, hs: seq<Heap>, es: seq<Event>, k: nat)
    requires HeapRun(wide, n, hs, es) && OwnGives(es) && k <= |es|
    ensures Good(wide, n, hs[0]) && Good(wide, n, hs[k])
    ensures Live(es, k).Keys !! Allocs(hs[0]).Keys && Allocs(hs[k]) == Allocs(hs[0]) + Live(es, k)
  {
    assert Good(wide, n, hs[0]) && Good(wide, n, hs[k]);
    InitialPlusLive(Tables(hs), es, k);
    assert Tables(hs)[0] == Allocs(hs[0]) && Tables(hs)[k] == Allocs(hs[k]);
  }

  /** What a run took and has not given back never overlaps, neither with itself nor with what was live at the start. */
  lemma LiveDisjoint(wide: bool, n: nat, hs: seq<Heap>, es: seq<Event>, k: nat, x: nat, y: nat)
    requires HeapRun(wide, n, hs, es) && OwnGives(es) && k <= |es|
    requires x in Live(es, k) && Good(wide, n, hs[0]) && (y in Live(es, k) || y in Allocs(hs[0])) && x != y
    ensures var size := if y in Live(es, k) then Live(es, k)[y] else Allocs(hs[0])[y];
            x + Live(es, k)[x] <= y || y + size <= x
  {
    AllocsAreInitialPlusLive(wide, n, hs, es, k);
    if x < y {
      AllocsDisjoint(wide, hs[k], x, y);
    } else {
      AllocsDisjoint(wide, hs[k], y, x);
    }
  }

  /** Giving back everything a run took, in any order, restores the page blocks it started from. */
  lemma GivingAllRestores(wide: bool, n: nat, hs: seq<Heap>, es: seq<Event>)
    requires HeapRun(wide, n, hs, es) && OwnGives(es) && Live(es, |es|) == map[]
    ensures hs[|es|].a == hs[0].a
  {
    AllocsAreInitialPlusLive(wide, n, hs, es, |es|);
    assert Allocs(hs[|es|]) == Allocs(hs[0]);
    SlabPools.AllocsDeterminePages(wide, hs[0], hs[|es|]);
  }
}
