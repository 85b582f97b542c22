/**
 Runs of the scheduler: conservation in every reachable state, and bounded waiting.
 */
module SchedWaiting {
  import opened Common
  import opened SchedState
  import opened SchedRuns

  datatype Event =
    | EvCreate(p: nat) | EvSchedule | EvWait(chan: Chan, data: nat) | EvWake(chan: Chan)
    | EvExit | EvKill(p: nat) | EvReap

  /** Idle neither waits, exits nor is killed; new pids are free. */
  ghost predicate Enabled(s: Sched, idle: nat, e: Event) {
    match e
    case EvCreate(p) => p !in s.table && p < MAX_PROC
    case EvWait(_, _) => s.current != idle
    case EvWake(c) => Total(s) && s.waiting[c] != []
    case EvExit => s.current != idle
    case EvKill(p) => p != idle
    case _ => true
  }

  lemma Defined(s: Sched, idle: nat)
    requires Inv(s, idle)
    ensures Sound(s) && s.current in s.table && (s.ready != [] ==> s.ready[0] in s.table)
  {
    QueuesSound(s);
    assert LivesAt(s.table, s.current, OnCpu);
  }

  ghost function Step(s: Sched, idle: nat, e: Event): (r: Sched)
    requires Inv(s, idle) && Enabled(s, idle, e)
  {
    Defined(s, idle);
    match e
    case EvCreate(p) => Create(s, p)
    case EvSchedule => Schedule(s)
    case EvWait(c, data) => WaitOn(s, c, data)
    case EvWake(c) => Wake(s, c, 0)
    case EvExit => Exit(s)
    case EvKill(p) => Kill(s, p)
    case EvReap => Reap(s)
  }

  /** Every step keeps the conservation invariant. */
  lemma StepInv(s: Sched, idle: nat, e: Event)
    requires Inv(s, idle) && Enabled(s, idle, e)
    ensures Inv(Step(s, idle, e), idle)
  {
    match e
    case EvCreate(p) => CreateInv(s, idle, p);
    case EvSchedule => ScheduleInv(s, idle);
    case EvWait(c, data) => WaitInv(s, idle, c, data);
    case EvWake(c) => WakeInv(s, idle, c);
    case EvExit => ExitInv(s, idle);
    case EvKill(p) => KillInv(s, idle, p);
    case EvReap => ReapInv(s, idle);
  }

  ghost predicate Goes(ss: seq<Sched>, idle: nat, i: nat, e: Event) {
    i + 1 < |ss| && (Inv(ss[i], idle) ==> Enabled(ss[i], idle, e) && ss[i + 1] == Step(ss[i], idle, e))
  }

  /** The states before and after each event of a run that starts in a good state. */
  ghost predicate IsRun(ss: seq<Sched>, idle: nat, es: seq<Event>) {
    |ss| == |es| + 1 && Inv(ss[0], idle) && forall i {:trigger es[i]} :: 0 <= i < |es| ==> Goes(ss, idle, i, es[i])
  }

  lemma {:induction false} Conservation(ss: seq<Sched>, idle: nat, es: seq<Event>, n: nat)
    requires IsRun(ss, idle, es) && n <= |es|
    ensures Inv(ss[n], idle)
  {
    if n > 0 {
      Conservation(ss, idle, es, n - 1);
      assert Goes(ss, idle, n - 1, es[n - 1]);
      StepInv(ss[n - 1], idle, es[n - 1]);
    }
  }

  // ----- bounded waiting

  /** Does this event dispatch the head of the ready queue? */
  ghost predicate Switches(s: Sched, e: Event) {
    match e
    case EvSchedule => s.ready != []
    case EvWait(_, _) => true
    case EvExit => true
    case EvKill(p) => LivesAt(s.table, p, OnCpu)
    case _ => false
  }

  lemma {:induction false} PrefixIndex(a: seq<nat>, b: seq<nat>, p: nat)
    requires a <= b && p in a
    ensures p in b && IndexOf(b, p) == IndexOf(a, p)
  {
    assert b[IndexOf(a, p)] == p;
  }

  lemma TailIndex(q: seq<nat>, p: nat)
    requires p in q && q[0] != p
    ensures p in q[1..] && IndexOf(q[1..], p) == IndexOf(q, p) - 1
  {
    var i := IndexOf(q, p);
    assert q[1..][i - 1] == p;
  }

  lemma RemoveIndex(q: seq<nat>, i: nat, p: nat)
    requires i < |q| && p in q && q[i] != p
    ensures p in Remove(q, i) && IndexOf(Remove(q, i), p) <= IndexOf(q, p)
  {
    var k := IndexOf(q, p);
    var r := Remove(q, i);
    assert r[if k < i then k else k - 1] == p;
  }

  /** After a switch, p is one place nearer to the front, or it runs. */
  lemma SwitchAdvances(q: seq<nat>, r: seq<nat>, p: nat)
    requires p in q && q[1..] <= r
    ensures p == q[0] || (p in r && IndexOf(r, p) == IndexOf(q, p) - 1)
  {
    if p != q[0] {
      TailIndex(q, p);
      PrefixIndex(q[1..], r, p);
    }
  }

  lemma KillAdvances(s: Sched, idle: nat, p: nat, x: nat)
    requires Inv(s, idle) && p in s.ready && x != p && x != idle && s.current in s.table && !LivesAt(s.table, x, OnCpu)
    ensures p in Kill(s, x).ready && IndexOf(Kill(s, x).ready, p) <= IndexOf(s.ready, p)
  {
    if x in s.table && s.table[x].state != Dead {
      SlayKeeps(s, idle, x);
      MournKeeps(Slay(s, x), x);
      if s.table[x].state == Ready && x in s.ready {
        RemoveIndex(s.ready, IndexOf(s.ready, x), p);
      }
      PrefixIndex(Slay(s, x).ready, Kill(s, x).ready, p);
    }
  }

  /** One step: a ready process that is not killed advances with every switch and never falls back. */
  lemma Advances(s: Sched, idle: nat, e: Event, p: nat)
    requires Inv(s, idle) && Enabled(s, idle, e) && p in s.ready && e != EvKill(p)
    ensures var r := Step(s, idle, e);
            r.current == p ||
            (p in r.ready && IndexOf(r.ready, p) + (if Switches(s, e) then 1 else 0) <= IndexOf(s.ready, p))
  {
    var r := Step(s, idle, e);
    match e {
      case EvCreate(x) => { PrefixIndex(s.ready, r.ready, p); }
      case EvSchedule => { ScheduleInv(s, idle); SwitchAdvances(s.ready, r.ready, p); }
      case EvWait(c, data) => { WaitInv(s, idle, c, data); SwitchAdvances(s.ready, r.ready, p); }
      case EvWake(c) => { WakeInv(s, idle, c); PrefixIndex(s.ready, r.ready, p); }
      case EvExit => { ExitInv(s, idle); SwitchAdvances(s.ready, r.ready, p); }
      case EvKill(x) => {
        if LivesAt(s.table, x, OnCpu) {
          ExitInv(s, idle);
          SwitchAdvances(s.ready, r.ready, p);
        } else {
          Defined(s, idle);
          KillAdvances(s, idle, p, x);
        }
      }
      case EvReap => { }
    }
  }

  /** The number of switches among the first n events. */
  ghost function Count(ss: seq<Sched>, es: seq<Event>, n: nat): (k: nat)
    requires n <= |es| < |ss|
  {
    if n == 0 then 0 else Count(ss, es, n - 1) + if Switches(ss[n - 1], es[n - 1]) then 1 else 0
  }

  lemma {:induction false} Progress(ss: seq<Sched>, idle: nat, es: seq<Event>, p: nat, n: nat)
    requires IsRun(ss, idle, es) && n <= |es| && p in ss[0].ready
    requires forall i {:trigger es[i]} :: 0 <= i < n ==> es[i] != EvKill(p)
    requires forall i {:trigger ss[i]} :: 0 <= i <= n ==> ss[i].current != p
    ensures p in ss[n].ready && IndexOf(ss[n].ready, p) + Count(ss, es, n) <= IndexOf(ss[0].ready, p)
  {
    if n > 0 {
      Progress(ss, idle, es, p, n - 1);
      Conservation(ss, idle, es, n - 1);
      assert Goes(ss, idle, n - 1, es[n - 1]);
      Advances(ss[n - 1], idle, es[n - 1], p);
    }
  }

  /** Bounded waiting: a ready process with k others ahead runs within k + 1 switches unless it is killed. */
  lemma Dispatched(ss: seq<Sched>, idle: nat, es: seq<Event>, p: nat)
    requires IsRun(ss, idle, es) && p in ss[0].ready
    requires forall i {:trigger es[i]} :: 0 <= i < |es| ==> es[i] != EvKill(p)
    requires Count(ss, es, |es|) >= IndexOf(ss[0].ready, p) + 1
    ensures exists i :: 0 <= i < |ss| && ss[i].current == p
  {
    if forall i {:trigger ss[i]} :: 0 <= i < |ss| ==> ss[i].current != p {
      Progress(ss, idle, es, p, |es|);
      assert false;
    }
  }

  // ----- the search for a free pid

  datatype Search = Found(pid: nat) | NoPid | OffTable

  /** The loop of thread_create from pid on; the source reads behind the table in the last case. */
  function SearchFrom(table: map<nat, Pcb>, last: nat, pid: nat): (r: Search)
    decreases MAX_PROC - pid
  {
    if pid >= MAX_PROC then OffTable
    else if pid !in table then Found(pid)
    else if pid == last then NoPid
    else SearchFrom(table, last, pid + 1)
  }

  function FindPid(table: map<nat, Pcb>, last: nat): (r: Search) {
    SearchFrom(table, last, (last + 1) % MAX_PROC)
  }

  ghost predicate Taken(table: map<nat, Pcb>, lo: nat, hi: nat) {
    forall p :: lo <= p < hi ==> p in table
  }

  lemma {:induction false} SearchResult(table: map<nat, Pcb>, last: nat, pid: nat)
    requires last < MAX_PROC && pid <= MAX_PROC && (last < pid || last == MAX_PROC - 1)
    ensures match SearchFrom(table, last, pid)
            case Found(p) => pid <= p < MAX_PROC && p !in table && Taken(table, pid, p)
            case NoPid => Taken(table, pid, MAX_PROC) && last == MAX_PROC - 1
            case OffTable => Taken(table, pid, MAX_PROC) && (last < pid)
    decreases MAX_PROC - pid
  {
    if pid < MAX_PROC && pid in table && pid != last {
      SearchResult(table, last, pid + 1);
    }
  }

  /** p is the least free pid after the last one, or of all if the last one is the greatest. */
  ghost predicate FirstFree(table: map<nat, Pcb>, last: nat, p: nat) {
    p < MAX_PROC && p !in table && if last == MAX_PROC - 1 then Taken(table, 0, p)
                                   else last < p && Taken(table, last + 1, p)
  }

  /** The search finds the least free pid after the last one, or from 0 on if the last one is the greatest. It leaves
      the table exactly if the last pid is not the greatest and every greater one is taken, and reports that no pid
      is left exactly if the last pid is the greatest and all are taken. */
  lemma SearchExact(table: map<nat, Pcb>, last: nat)
    requires last < MAX_PROC
    ensures FindPid(table, last) == OffTable <==> last != MAX_PROC - 1 && Taken(table, last + 1, MAX_PROC)
    ensures FindPid(table, last) == NoPid <==> last == MAX_PROC - 1 && Taken(table, 0, MAX_PROC)
    ensures forall p: nat :: FindPid(table, last) == Found(p) <==> FirstFree(table, last, p)
  {
    SearchResult(table, last, (last + 1) % MAX_PROC);
    forall p: nat | FirstFree(table, last, p) ensures FindPid(table, last) == Found(p) {
      match FindPid(table, last)
      case Found(q) => assert !(q < p) && !(p < q);
      case _ => assert false;
    }
  }

  /** A running system with pids 1022 and 1023 in use, 1022 given out last: the search leaves the table although
      most pids are free. */
  lemma SearchDoesNotWrap() returns (s: Sched)
    ensures Inv(s, 1) && s.table.Keys == {0, 1, 1022, 1023} && FindPid(s.table, s.last) == OffTable
  {
    BootInv();
    CreateInv(Boot(), 1, 1023);
    s := Create(Boot(), 1023);
    CreateInv(s, 1, 1022);
    s := Create(s, 1022);
    assert Taken(s.table, 1023, MAX_PROC);
    SearchExact(s.table, 1022);
  }

  // ----- the start

  /** The shell runs as process 0, idle is ready as process 1. */
  function Boot(): (s: Sched) {
    Sched(map[0 := Pcb(Run, Proc, 0), 1 := Pcb(Ready, Proc, 0)], [1], [], map[Proc := [], R := [], W := []], 0, 1)
  }

  lemma BootInv()
    ensures Inv(Boot(), 1)
  {
    var s := Sched(map[0 := Pcb(Run, Proc, 0)], [], [], map[Proc := [], R := [], W := []], 0, 0);
    forall c: Chan ensures c in s.waiting {
      match c { case Proc => case R => case W => }
    }
    forall h | h != OnCpu ensures Holds(s.table, QueueOf(s, h), h) {
      assert QueueOf(s, h) == [];
      forall x ensures !LivesAt(s.table, x, h) {
      }
    }
    CreateInv(s, 0, 1);
    assert Create(s, 1).table == Boot().table && Create(s, 1).ready == [1];
  }
}
