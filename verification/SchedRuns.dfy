/**
 The steps of the scheduler and what holds over whole runs: conservation of processes,
 a switch always finds somebody, and a ready process waits no longer than its place in the queue.
 */
module SchedRuns {
  import opened Common
  import opened SchedState

  // ----- the steps

  function Schedule(s: Sched): (r: Sched)
    requires Total(s) && s.current in s.table && (s.ready != [] ==> s.ready[0] in s.table)
  {
    if s.ready == [] then s else Dispatch(Arrive(s, s.current, s.table[s.current].(state := Ready)))
  }

  function WaitOn(s: Sched, c: Chan, data: nat): (r: Sched)
    requires Total(s) && (s.ready != [] ==> s.ready[0] in s.table)
  {
    Yield(Arrive(s, s.current, Pcb(Wait, c, data)))
  }

  /** The last part of exit and kill: whoever waits for p is woken. */
  ghost function Mourn(s: Sched, p: nat): (r: Sched)
    requires Sound(s)
    ensures Sound(r)
  {
    WakeAll(s, 0, p)
  }

  ghost function Exit(s: Sched): (r: Sched)
    requires Sound(s) && s.current in s.table
  {
    Yield(Mourn(Arrive(s, s.current, s.table[s.current].(state := Dead)), s.current))
  }

  /** Take process p out of the queue it is in and put it in the dead queue. */
  function Slay(s: Sched, p: nat): (r: Sched)
    requires Total(s) && p in s.table && p in QueueOf(s, HomeOf(s.table[p]))
  {
    var h := HomeOf(s.table[p]);
    Leave(s, h, IndexOf(QueueOf(s, h), p), s.table[p].(state := Dead))
  }

  function IndexOf(q: seq<nat>, p: nat): (i: nat)
    requires p in q
    ensures i < |q| && q[i] == p && forall j {:trigger q[j]} :: 0 <= j < i ==> q[j] != p
  {
    if q[0] == p then 0 else 1 + IndexOf(q[1..], p)
  }

  ghost function Kill(s: Sched, p: nat): (r: Sched)
    requires AllHold(s) && s.current in s.table
  {
    QueuesSound(s);
    if p !in s.table then s
    else match s.table[p].state
      case Run => Exit(s)
      case Dead => s
      case _ => SlayHolds(s, p); Mourn(Slay(s, p), p)
  }

  lemma SlayHolds(s: Sched, p: nat)
    requires AllHold(s) && p in s.table && s.table[p].state != Run && s.table[p].state != Dead
    ensures p in QueueOf(s, HomeOf(s.table[p])) && AllHold(Slay(s, p)) && Sound(Slay(s, p))
    ensures Slay(s, p).table == s.table[p := s.table[p].(state := Dead)]
  {
    var h := HomeOf(s.table[p]);
    assert LivesAt(s.table, p, h);
    LeaveHolds(s, h, IndexOf(QueueOf(s, h), p), s.table[p].(state := Dead));
    QueuesSound(Slay(s, p));
  }

  /** kill_zombies */
  function Reap(s: Sched): (r: Sched) {
    s.(table := s.table - (set p | p in s.dead), dead := [])
  }

  // ----- conservation

  lemma HeadInTable(s: Sched)
    requires AllHold(s) && s.ready != []
    ensures s.ready[0] in s.table && LivesAt(s.table, s.ready[0], InReady)
  {
    assert QueueOf(s, InReady) == s.ready && s.ready[0] in s.ready;
  }

  lemma DispatchInv(s: Sched, idle: nat)
    requires AllHold(s) && InTable(s) && NoneRuns(s) && idle in s.ready
    ensures s.ready[0] in s.table && Inv(Dispatch(s), idle)
    ensures Dispatch(s).ready == s.ready[1..] && Dispatch(s).current == s.ready[0]
  {
    HeadInTable(s);
    var p, b := s.ready[0], s.table[s.ready[0]].(state := Run);
    assert QueueOf(s, InReady) == s.ready;
    LeaveHolds(s, InReady, 0, b);
    var r := Dispatch(s);
    assert r.table == s.table[p := b] && Remove(s.ready, 0) == s.ready[1..];
    forall x ensures LivesAt(r.table, x, OnCpu) <==> x == r.current {
      assert !LivesAt(s.table, x, OnCpu);
    }
    assert AllHold(r.(current := s.current));
    SameQueues(r.(current := s.current), r);
    assert s.ready == [p] + s.ready[1..];
  }

  lemma SameQueues(s: Sched, r: Sched)
    requires AllHold(s) && r.table == s.table && r.ready == s.ready && r.dead == s.dead && r.waiting == s.waiting
    ensures AllHold(r)
  {
    forall h | h != OnCpu ensures Holds(r.table, QueueOf(r, h), h) {
      assert QueueOf(r, h) == QueueOf(s, h);
    }
  }

  /** The current process leaves the processor. */
  lemma StepDown(s: Sched, idle: nat, b: Pcb)
    requires Inv(s, idle) && HomeOf(b) != OnCpu
    ensures s.current in s.table && var r := Arrive(s, s.current, b); AllHold(r) && InTable(r) && NoneRuns(r)
  {
    assert LivesAt(s.table, s.current, OnCpu);
    ArriveHolds(s, s.current, b);
    var r := Arrive(s, s.current, b);
    assert r.table == s.table[s.current := b];
    forall x ensures !LivesAt(r.table, x, OnCpu) {
      assert LivesAt(s.table, x, OnCpu) <==> x == s.current;
    }
  }

  lemma CreateInv(s: Sched, idle: nat, p: nat)
    requires Inv(s, idle) && p !in s.table && p < MAX_PROC
    ensures Inv(Create(s, p), idle)
  {
    var b := Pcb(Ready, Proc, 0);
    ArriveHolds(s, p, b);
    SameQueues(Arrive(s, p, b), Create(s, p));
    var r := Create(s, p);
    assert r.table == s.table[p := b] && r.ready == s.ready + [p];
    forall x ensures LivesAt(r.table, x, OnCpu) <==> x == r.current {
      assert LivesAt(s.table, x, OnCpu) <==> x == s.current;
    }
  }

  lemma ScheduleInv(s: Sched, idle: nat)
    requires Inv(s, idle)
    ensures s.current in s.table && (s.ready != [] ==> s.ready[0] in s.table) && Inv(Schedule(s), idle)
    ensures s.ready != [] ==> Schedule(s).current == s.ready[0] && Schedule(s).ready == s.ready[1..] + [s.current]
  {
    assert LivesAt(s.table, s.current, OnCpu);
    if s.ready != [] {
      HeadInTable(s);
      var b := s.table[s.current].(state := Ready);
      StepDown(s, idle, b);
      var s1 := Arrive(s, s.current, b);
      assert s1.ready == s.ready + [s.current];
      DispatchInv(s1, idle);
    }
  }

  /** wait, by any process but idle, switches to the head of the ready queue. */
  lemma WaitInv(s: Sched, idle: nat, c: Chan, data: nat)
    requires Inv(s, idle) && s.current != idle
    ensures s.ready != [] && s.ready[0] in s.table && Inv(WaitOn(s, c, data), idle)
    ensures WaitOn(s, c, data).current == s.ready[0] && WaitOn(s, c, data).ready == s.ready[1..]
    ensures WaitOn(s, c, data).waiting == s.waiting[c := s.waiting[c] + [s.current]]
  {
    HeadInTable(s);
    StepDown(s, idle, Pcb(Wait, c, data));
    DispatchInv(Arrive(s, s.current, Pcb(Wait, c, data)), idle);
  }

  lemma WakeInv(s: Sched, idle: nat, c: Chan)
    requires Inv(s, idle) && s.waiting[c] != []
    ensures Inv(Wake(s, c, 0), idle) && Wake(s, c, 0).ready == s.ready + [s.waiting[c][0]]
  {
    WakeKeeps(s, c, 0);
  }

  /** Waking the waiters of p: everything stays in place, and afterwards nobody in the queue waits for p. */
  lemma MournKeeps(s: Sched, p: nat)
    requires AllHold(s) && InTable(s)
    ensures Sound(s) && Scanned(s, Mourn(s, p)) && s.ready <= Mourn(s, p).ready && Forgotten(Mourn(s, p), p)
  {
    QueuesSound(s);
    WakeAllKeeps(s, 0, p);
    WakeAllIs(s, 0, p);
    var q, r := s.waiting[Proc], Mourn(s, p);
    assert q[0..] == q && QueueOf(r, InWait(Proc)) == r.waiting[Proc];
    forall x | x in r.waiting[Proc] ensures x in r.table && !WaitsFor(r.table[x], p) {
      SelectMember(q, Waiter(s.table, p), false, x);
      assert LivesAt(r.table, x, InWait(Proc));
    }
  }

  /** Nobody in wait_queue[PROC] waits for p. */
  ghost predicate Forgotten(s: Sched, p: nat) {
    Total(s) && forall x {:trigger x in s.waiting[Proc]} :: x in s.waiting[Proc] ==>
      x in s.table && !WaitsFor(s.table[x], p)
  }

  lemma DispatchForgets(s: Sched, p: nat)
    requires AllHold(s) && s.ready != [] && Forgotten(s, p)
    ensures s.ready[0] in s.table && Forgotten(Dispatch(s), p)
  {
    HeadInTable(s);
    var r := Dispatch(s);
    forall x | x in r.waiting[Proc] ensures x in r.table && !WaitsFor(r.table[x], p) {
      assert x in s.waiting[Proc] && QueueOf(s, InWait(Proc)) == s.waiting[Proc];
      assert LivesAt(s.table, x, InWait(Proc));
    }
  }

  /** The scan as a whole: the waiters for p are taken out and made ready in order. */
  lemma MournIs(s: Sched, p: nat)
    requires Sound(s) && Distinct(s.waiting[Proc])
    ensures var woken := Select(s.waiting[Proc], Waiter(s.table, p), true);
            && Mourn(s, p).table == AllReady(s.table, woken) && Mourn(s, p).ready == s.ready + woken
            && Mourn(s, p).waiting[Proc] == Select(s.waiting[Proc], Waiter(s.table, p), false)
  {
    assert s.waiting[Proc][0..] == s.waiting[Proc];
    WakeAllIs(s, 0, p);
  }

  /** exit, by any process but idle: it is dead, its waiters are ready, and the head of the ready queue runs. */
  lemma ExitInv(s: Sched, idle: nat)
    requires Inv(s, idle) && s.current != idle
    ensures Sound(s) && s.current in s.table && s.ready != []
    ensures var r := Exit(s);
            Inv(r, idle) && Forgotten(r, s.current) && r.current == s.ready[0] && s.ready[1..] <= r.ready
    ensures LivesAt(Exit(s).table, s.current, InDead)
  {
    QueuesSound(s);
    var p := s.current;
    assert LivesAt(s.table, p, OnCpu);
    var b := s.table[p].(state := Dead);
    StepDown(s, idle, b);
    var s1 := Arrive(s, p, b);
    MournKeeps(s1, p);
    var s2 := Mourn(s1, p);
    assert idle in s2.ready && s2.ready[0] == s.ready[0];
    forall x ensures !LivesAt(s2.table, x, OnCpu) {
      assert !LivesAt(s1.table, x, OnCpu);
    }
    DispatchInv(s2, idle);
    DispatchForgets(s2, p);
    assert p in s2.dead;
    var r := Dispatch(s2);
    assert QueueOf(r, InDead) == r.dead;
  }

  /** kill, of any process but idle; a missing or dead process changes nothing. */
  lemma KillInv(s: Sched, idle: nat, p: nat)
    requires Inv(s, idle) && p != idle
    ensures s.current in s.table && Inv(Kill(s, p), idle)
    ensures p !in s.table || s.table[p].state == Dead ==> Kill(s, p) == s
    ensures p in s.table && s.table[p].state != Dead ==>
              LivesAt(Kill(s, p).table, p, InDead) && Forgotten(Kill(s, p), p)
  {
    assert LivesAt(s.table, s.current, OnCpu);
    if p in s.table && s.table[p].state != Dead {
      if s.table[p].state == Run {
        assert LivesAt(s.table, p, OnCpu);
        ExitInv(s, idle);
      } else {
        SlayKeeps(s, idle, p);
        MournKeeps(Slay(s, p), p);
        var s1, r := Slay(s, p), Kill(s, p);
        forall x ensures LivesAt(r.table, x, OnCpu) <==> x == r.current {
          assert LivesAt(s1.table, x, OnCpu) <==> x == s.current;
        }
        assert QueueOf(r, InDead) == r.dead && p in r.dead;
      }
    }
  }

  lemma SlayKeeps(s: Sched, idle: nat, p: nat)
    requires Inv(s, idle) && p != idle && p in s.table && s.table[p].state != Dead && s.table[p].state != Run
    ensures p in QueueOf(s, HomeOf(s.table[p])) && Inv(Slay(s, p), idle) && p in Slay(s, p).dead
            && Slay(s, p).current == s.current
    ensures Slay(s, p).ready == if s.table[p].state == Ready
            && p in s.ready then Remove(s.ready, IndexOf(s.ready, p)) else s.ready
  {
    SlayHolds(s, p);
    var r, h := Slay(s, p), HomeOf(s.table[p]);
    assert LivesAt(s.table, p, h) && QueueOf(s, InReady) == s.ready;
    assert Holds(s.table, s.ready, InReady);
    if h == InReady {
      RemoveDistinct(s.ready, IndexOf(s.ready, p));
    }
    forall x ensures LivesAt(r.table, x, OnCpu) <==> x == r.current {
      assert LivesAt(s.table, x, OnCpu) <==> x == s.current;
    }
  }

  /** kill_zombies: exactly the dead leave the table. */
  lemma ReapInv(s: Sched, idle: nat)
    requires Inv(s, idle)
    ensures Inv(Reap(s), idle)
    ensures forall p :: p in Reap(s).table <==> p in s.table && s.table[p].state != Dead
  {
    var r := Reap(s);
    assert QueueOf(s, InDead) == s.dead;
    forall p ensures p in r.table <==> p in s.table && s.table[p].state != Dead {
      assert p in s.dead <==> LivesAt(s.table, p, InDead);
    }
    forall h | h != OnCpu ensures Holds(r.table, QueueOf(r, h), h) {
      assert Holds(s.table, QueueOf(s, h), h);
      forall x ensures x in QueueOf(r, h) <==> LivesAt(r.table, x, h) {
        assert x in QueueOf(s, h) <==> LivesAt(s.table, x, h);
      }
    }
    forall p ensures LivesAt(r.table, p, OnCpu) <==> p == r.current {
      assert LivesAt(s.table, p, OnCpu) <==> p == s.current;
    }
  }
}
