/**
 What becomes of each single process in a step of the scheduler, and the promise of wait over
 whole runs: a sleeper stays asleep until the process it waits for ends, and is ready then.
 */
module SchedLife {
  import opened Common
  import opened SchedState
  import opened SchedRuns
  import opened SchedWaiting

  /** Does a living process p end in this step? */
  ghost predicate Ends(s: Sched, e: Event, p: nat) {
    match e
    case EvExit => p == s.current
    case EvKill(x) => p == x && p in s.table && s.table[p].state != Dead
    case _ => false
  }

  /** Is p woken: by input or output as the first waiter, or by the end of the process whose pid it has named? */
  ghost predicate Rouses(s: Sched, e: Event, p: nat)
    requires Total(s)
  {
    match e
    case EvWake(c) => s.waiting[c] != [] && p == s.waiting[c][0]
    case _ => p in s.waiting[Proc] && p in s.table && Ends(s, e, s.table[p].data % 0x1_0000_0000)
  }

  /** The life of one process, without the queues: what the entry of p is after the step. */
  ghost function Next(s: Sched, e: Event, p: nat): (b: Option<Pcb>)
    requires Total(s)
  {
    if p !in s.table then if e == EvCreate(p) then Some(Pcb(Ready, Proc, 0)) else None
    else if Ends(s, e, p) then Some(s.table[p].(state := Dead))
    else if Rouses(s, e, p) then Some(Pcb(Ready, Proc, 0))
    else if e == EvReap && s.table[p].state == Dead then None
    else if e.EvWait? && p == s.current then Some(Pcb(Wait, e.chan, e.data))
    else if e == EvSchedule && s.ready != [] && p == s.current then Some(s.table[p].(state := Ready))
    else if Switches(s, e) && s.ready != [] && p == s.ready[0] then Some(s.table[p].(state := Run))
    else Some(s.table[p])
  }

  ghost function Entry(s: Sched, p: nat): (b: Option<Pcb>) {
    if p in s.table then Some(s.table[p]) else None
  }

  lemma {:induction false} AllReadyAt(table: map<nat, Pcb>, ps: seq<nat>, x: nat)
    requires forall i {:trigger ps[i]} :: 0 <= i < |ps| ==> ps[i] in table
    ensures x in AllReady(table, ps) <==> x in table
    ensures x in table ==> AllReady(table, ps)[x] == if x in ps then Pcb(Ready, Proc, 0) else table[x]
  {
    if ps != [] {
      AllReadyAt(table, ps[..|ps| - 1], x);
      assert ps == ps[..|ps| - 1] + [ps[|ps| - 1]];
    }
  }

  /** x sleeps on the end of a process, and p is the pid it has given, as 32 bits. */
  ghost predicate Named(s: Sched, x: nat, p: nat)
    requires Total(s)
  {
    x in s.waiting[Proc] && x in s.table && s.table[x].data % 0x1_0000_0000 == p
  }

  /** The scan after the end of p, for one process. */
  lemma MournAt(s: Sched, p: nat, x: nat)
    requires AllHold(s)
    ensures Sound(s) && (x in Mourn(s, p).table <==> x in s.table)
    ensures x in s.table ==> Mourn(s, p).table[x] == if Named(s, x, p) then Pcb(Ready, Proc, 0) else s.table[x]
  {
    QueuesSound(s);
    MournIs(s, p);
    var q, m := s.waiting[Proc], Waiter(s.table, p);
    var woken := Select(q, m, true);
    forall i | 0 <= i < |woken| ensures woken[i] in s.table {
      SelectMember(q, m, true, woken[i]);
    }
    AllReadyAt(s.table, woken, x);
    SelectMember(q, m, true, x);
  }

  lemma CurrentAlone(s: Sched, idle: nat)
    requires Inv(s, idle)
    ensures Sound(s) && LivesAt(s.table, s.current, OnCpu) && s.current !in s.ready
    ensures forall c: Chan :: s.current !in s.waiting[c]
  {
    QueuesSound(s);
    assert LivesAt(s.table, s.current, OnCpu) && QueueOf(s, InReady) == s.ready;
    forall c: Chan ensures s.current !in s.waiting[c] {
      assert QueueOf(s, InWait(c)) == s.waiting[c];
    }
  }

  lemma HeadSleepsNot(s: Sched)
    requires AllHold(s) && s.ready != []
    ensures LivesAt(s.table, s.ready[0], InReady) && s.ready[0] !in s.waiting[Proc]
  {
    HeadInTable(s);
    assert QueueOf(s, InWait(Proc)) == s.waiting[Proc];
  }

  lemma ExitNext(s: Sched, idle: nat, p: nat)
    requires Inv(s, idle) && s.current != idle
    ensures Sound(s) && s.current in s.table && Entry(Exit(s), p) == Next(s, EvExit, p)
  {
    CurrentAlone(s, idle);
    HeadSleepsNot(s);
    var me := s.current;
    var b := s.table[me].(state := Dead);
    StepDown(s, idle, b);
    var s1 := Arrive(s, me, b);
    MournKeeps(s1, me);
    MournAt(s1, me, p);
    MournAt(s1, me, s.ready[0]);
    assert s1.waiting == s.waiting && s1.ready == s.ready;
    assert Mourn(s1, me).ready[0] == s.ready[0];
    assert Exit(s) == Dispatch(Mourn(s1, me));
  }

  lemma KillNext(s: Sched, idle: nat, x: nat, p: nat)
    requires Inv(s, idle) && x != idle
    ensures s.current in s.table && Entry(Kill(s, x), p) == Next(s, EvKill(x), p)
  {
    CurrentAlone(s, idle);
    if x in s.table && s.table[x].state == Run {
      assert LivesAt(s.table, x, OnCpu);
      ExitNext(s, idle, p);
      ExitIsKill(s, p);
    } else if x in s.table && s.table[x].state != Dead {
      SlayHolds(s, x);
      var s1 := Slay(s, x);
      SlainSleepers(s, x, p);
      MournAt(s1, x, p);
    }
  }

  lemma ExitIsKill(s: Sched, p: nat)
    requires Total(s) && LivesAt(s.table, s.current, OnCpu)
    ensures Next(s, EvKill(s.current), p) == Next(s, EvExit, p)
  {
  }

  lemma SlainSleepers(s: Sched, x: nat, p: nat)
    requires AllHold(s) && x in s.table && s.table[x].state != Run && s.table[x].state != Dead
    ensures x in QueueOf(s, HomeOf(s.table[x])) && (p in Slay(s, x).waiting[Proc] <==> p in s.waiting[Proc] && p != x)
  {
    SlayHolds(s, x);
    var r := Slay(s, x);
    assert QueueOf(s, InWait(Proc)) == s.waiting[Proc] && QueueOf(r, InWait(Proc)) == r.waiting[Proc];
    assert p in s.waiting[Proc] <==> LivesAt(s.table, p, InWait(Proc));
    assert p in r.waiting[Proc] <==> LivesAt(r.table, p, InWait(Proc));
  }

  lemma SwitchNext(s: Sched, idle: nat, e: Event, p: nat)
    requires Inv(s, idle) && Enabled(s, idle, e) && (e == EvSchedule || e.EvWait?)
    ensures Entry(Step(s, idle, e), p) == Next(s, e, p)
  {
    CurrentAlone(s, idle);
    if s.ready != [] {
      HeadSleepsNot(s);
    }
  }

  /** Every step, for every process: the queues do to each process what its life says. */
  lemma Lives(s: Sched, idle: nat, e: Event, p: nat)
    requires Inv(s, idle) && Enabled(s, idle, e)
    ensures Entry(Step(s, idle, e), p) == Next(s, e, p)
  {
    CurrentAlone(s, idle);
    match e
    case EvCreate(x) =>
    case EvSchedule => SwitchNext(s, idle, e, p);
    case EvWait(_, _) => SwitchNext(s, idle, e, p);
    case EvWake(c) => WakeKeeps(s, c, 0);
    case EvExit => ExitNext(s, idle, p);
    case EvKill(x) => KillNext(s, idle, x, p);
    case EvReap => ReapInv(s, idle);
  }

  // ----- the promise of wait

  /** p is asleep until the process with this pid ends. */
  ghost predicate Asleep(s: Sched, p: nat, data: nat) {
    Total(s) && p in s.waiting[Proc] && p in s.table && s.table[p] == Pcb(Wait, Proc, data)
  }

  lemma InQueue(s: Sched, idle: nat, p: nat)
    requires Inv(s, idle)
    ensures p in s.waiting[Proc] <==> LivesAt(s.table, p, InWait(Proc))
    ensures p in s.ready <==> LivesAt(s.table, p, InReady)
    ensures p in s.dead <==> LivesAt(s.table, p, InDead)
  {
    assert QueueOf(s, InWait(Proc)) == s.waiting[Proc] && QueueOf(s, InReady) == s.ready
           && QueueOf(s, InDead) == s.dead;
  }

  /** One call of wait: what is waited for is recorded. */
  lemma FallsAsleep(s: Sched, idle: nat, data: nat)
    requires Inv(s, idle) && s.current != idle
    ensures Asleep(Step(s, idle, EvWait(Proc, data)), s.current, data)
  {
    var e := EvWait(Proc, data);
    CurrentAlone(s, idle);
    Lives(s, idle, e, s.current);
    StepInv(s, idle, e);
    InQueue(Step(s, idle, e), idle, s.current);
  }

  lemma MournSleeper(s: Sched, p: nat, data: nat, x: nat)
    requires AllHold(s) && InTable(s) && Asleep(s, p, data)
    ensures Sound(s) && (if x == data % 0x1_0000_0000 then p in Mourn(s, x).ready else p in Mourn(s, x).waiting[Proc])
  {
    MournAt(s, x, p);
    MournKeeps(s, x);
    var m := Mourn(s, x);
    assert QueueOf(m, InWait(Proc)) == m.waiting[Proc] && QueueOf(m, InReady) == m.ready;
    assert LivesAt(m.table, p, InReady) || LivesAt(m.table, p, InWait(Proc));
  }

  /** The end of the process waited for, and of no other, wakes the sleeper. */
  lemma WokenByOne(s: Sched, idle: nat, data: nat, x: nat)
    requires Inv(s, idle) && s.current != idle
    ensures var r := Step(s, idle, EvWait(Proc, data));
            && Sound(r)
            && (x == data % 0x1_0000_0000 ==> s.current in Mourn(r, x).ready)
            && (x != data % 0x1_0000_0000 ==> s.current in Mourn(r, x).waiting[Proc])
  {
    FallsAsleep(s, idle, data);
    StepInv(s, idle, EvWait(Proc, data));
    MournSleeper(Step(s, idle, EvWait(Proc, data)), s.current, data, x);
  }

  /** One step of the others: a sleeper that is not killed sleeps on if and only if the process it waits for does
      not end, and otherwise it is ready. */
  lemma SleepsOn(s: Sched, idle: nat, e: Event, p: nat, data: nat)
    requires Inv(s, idle) && Enabled(s, idle, e) && Asleep(s, p, data) && e != EvKill(p) && e != EvWake(Proc)
    ensures !Ends(s, e, data % 0x1_0000_0000) ==> Asleep(Step(s, idle, e), p, data)
    ensures Ends(s, e, data % 0x1_0000_0000) ==> p in Step(s, idle, e).ready
  {
    InQueue(s, idle, p);
    CurrentAlone(s, idle);
    Lives(s, idle, e, p);
    StepInv(s, idle, e);
    InQueue(Step(s, idle, e), idle, p);
    assert e.EvWake? ==> QueueOf(s, InWait(e.chan)) == s.waiting[e.chan];
    assert QueueOf(s, InReady) == s.ready;
  }

  /** Nothing kills p or wakes it by hand among the events from 1 to n, and the process with this pid does not end. */
  ghost predicate Undisturbed(ss: seq<Sched>, es: seq<Event>, p: nat, pid: nat, n: nat)
    requires |ss| == |es| + 1
  {
    forall i {:trigger es[i]} :: 1 <= i < n && i < |es| ==>
      es[i] != EvKill(p) && es[i] != EvWake(Proc) && !Ends(ss[i], es[i], pid)
  }

  lemma {:induction false} StaysAsleep(ss: seq<Sched>, idle: nat, es: seq<Event>, data: nat, n: nat)
    requires IsRun(ss, idle, es) && 1 <= n <= |es| && es[0] == EvWait(Proc, data)
    requires Undisturbed(ss, es, ss[0].current, data % 0x1_0000_0000, n)
    ensures Asleep(ss[n], ss[0].current, data)
  {
    assert Goes(ss, idle, n - 1, es[n - 1]);
    Conservation(ss, idle, es, n - 1);
    if n == 1 {
      FallsAsleep(ss[0], idle, data);
    } else {
      StaysAsleep(ss, idle, es, data, n - 1);
      SleepsOn(ss[n - 1], idle, es[n - 1], ss[0].current, data);
    }
  }

  /** Over every run: who calls wait for the end of a process and is not killed sleeps until that process exits or
      is killed, and is ready from then on. */
  lemma WaitEnds(ss: seq<Sched>, idle: nat, es: seq<Event>, data: nat)
    requires IsRun(ss, idle, es) && |es| >= 2 && es[0] == EvWait(Proc, data)
    requires Undisturbed(ss, es, ss[0].current, data % 0x1_0000_0000, |es| - 1)
    requires var e := es[|es| - 1]; e != EvKill(ss[0].current) && e != EvWake(Proc)
    ensures forall i {:trigger ss[i]} :: 1 <= i < |es| ==> Asleep(ss[i], ss[0].current, data)
    ensures if Ends(ss[|es| - 1], es[|es| - 1], data % 0x1_0000_0000) then ss[0].current in ss[|es|].ready
            else Asleep(ss[|es|], ss[0].current, data)
  {
    var n := |es| - 1;
    forall i | 1 <= i < |es| ensures Asleep(ss[i], ss[0].current, data) {
      StaysAsleep(ss, idle, es, data, i);
    }
    Conservation(ss, idle, es, n);
    assert Goes(ss, idle, n, es[n]);
    SleepsOn(ss[n], idle, es[n], ss[0].current, data);
  }
}
