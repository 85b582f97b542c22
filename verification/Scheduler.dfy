/**
 The process table and its queues, changed in place by the scheduler's operations, each
 proved to be the step on values of the same name.
 */
module Scheduler {
  import opened Common
  import opened SchedState
  import opened SchedRuns
  import opened SchedWaiting

  class Processes {
    var table: map<nat, Pcb>               // pcb_table; a missing entry is NULL
    var ready: seq<nat>
    var dead: seq<nat>
    var waiting: map<Chan, seq<nat>>
    var current: nat
    var last: nat                          // last_pid
    ghost const idle: nat                  // the process that runs idle()

    ghost function Abs(): (s: Sched)
      reads this
    {
      Sched(table, ready, dead, waiting, current, last)
    }

    ghost predicate Valid()
      reads this
    {
      Inv(Abs(), idle)
    }

    /** init_pcb and the creation of the idle process: the shell runs as process 0, idle is ready as process 1. */
    constructor ()
      ensures Valid() && table.Keys == {0, 1} && current == 0 && idle == 1 && ready == [1] && last == 1
    {
      table := map[0 := Pcb(Run, Proc, 0), 1 := Pcb(Ready, Proc, 0)];
      ready, dead := [1], [];
      waiting := map[Proc := [], R := [], W := []];
      current, last := 0, 1;
      idle := 1;
      new;
      BootInv();
    }

    /** The search of thread_create for a free entry of the table. */
    method NextPid() returns (pid: int)
      requires last < MAX_PROC && FindPid(table, last) != OffTable
      ensures match FindPid(table, last)
              case Found(p) => pid == p
              case _ => pid == -1
    {
      var p := (last + 1) % MAX_PROC;
      while p in table
        invariant p < MAX_PROC && SearchFrom(table, last, p) == FindPid(table, last)
        decreases MAX_PROC - p
      {
        if p == last {
          return -1;
        }
        p := p + 1;
      }
      return p;
    }

    /** thread_create: the new process gets the next free pid and is ready; the table may be exhausted. */
    method ThreadCreate() returns (pid: int)
      requires Valid() && FindPid(table, last) != OffTable
      modifies this
      ensures Valid() && (pid == -1 <==> old(last) == MAX_PROC - 1 && Taken(old(table), 0, MAX_PROC))
      ensures pid == -1 ==> Abs() == old(Abs())
      ensures pid != -1 ==> pid >= 0 && FirstFree(old(table), old(last), pid) && Abs() == Create(old(Abs()), pid)
    {
      SearchExact(table, last);
      pid := NextPid();
      if pid == -1 {
        return;
      }
      assert FirstFree(table, last, pid);
      CreateInv(Abs(), idle, pid);
      table := table[pid := Pcb(Ready, Proc, 0)];
      last := pid;
      ready := ready + [pid];
    }

    /** switch_to_next, as a change of the current process. */
    method SwitchToNext()
      requires Total(Abs()) && ready != [] && ready[0] in table
      modifies this
      ensures Abs() == Dispatch(old(Abs()))
    {
      var next := ready[0];
      ready := ready[1..];
      table := table[next := table[next].(state := Run)];
      current := next;
      assert old(ready)[..0] + old(ready)[1..] == ready;
    }

    /** schedule: the current process goes to the end of the ready queue, if there is another one. */
    method Reschedule()
      requires Valid()
      modifies this
      ensures Valid() && Abs() == Step(old(Abs()), idle, EvSchedule)
      ensures old(ready) == [] ==> Abs() == old(Abs())
      ensures old(ready) != [] ==> current == old(ready)[0] && ready == old(ready)[1..] + [old(current)]
    {
      ScheduleInv(Abs(), idle);
      if ready == [] {
        return;
      }
      ghost var s := Abs();
      table := table[current := table[current].(state := Ready)];
      ready := ready + [current];
      assert Abs() == Arrive(s, s.current, s.table[s.current].(state := Ready));
      SwitchToNext();
    }

    /** wait: the current process goes to the end of a wait queue, and the next one runs, if there is one. */
    method SleepAndSwitch(c: Chan, data: nat)
      requires Total(Abs()) && (ready != [] ==> ready[0] in table)
      modifies this
      ensures Abs() == WaitOn(old(Abs()), c, data)
    {
      ghost var s := Abs();
      table := table[current := Pcb(Wait, c, data)];
      waiting := waiting[c := waiting[c] + [current]];
      assert Abs() == Arrive(s, s.current, Pcb(Wait, c, data));
      if ready == [] {
        return;
      }
      SwitchToNext();
    }

    /** wait, by any process but idle. */
    method Sleep(c: Chan, data: nat)
      requires Valid() && current != idle
      modifies this
      ensures Valid() && Abs() == Step(old(Abs()), idle, EvWait(c, data))
      ensures old(ready) != [] && current == old(ready)[0] && waiting[c] == old(waiting)[c] + [old(current)]
    {
      WaitInv(Abs(), idle, c, data);
      SleepAndSwitch(c, data);
    }

    /** wait_to_ready of the i-th waiter, which leaves its queue. */
    method WaitToReady(c: Chan, i: nat)
      requires Total(Abs()) && i < |waiting[c]|
      modifies this`table, this`ready, this`waiting
      ensures Abs() == Wake(old(Abs()), c, i)
    {
      var p := waiting[c][i];
      table := table[p := Pcb(Ready, Proc, 0)];
      ready := ready + [p];
      waiting := waiting[c := waiting[c][..i] + waiting[c][i + 1..]];
    }

    /** Waking the first waiter on input or output. */
    method WakeFirst(c: Chan)
      requires Valid() && waiting[c] != []
      modifies this`table, this`ready, this`waiting
      ensures Valid() && Abs() == Step(old(Abs()), idle, EvWake(c))
      ensures ready == old(ready) + [old(waiting)[c][0]] && waiting[c] == old(waiting)[c][1..]
    {
      WakeInv(Abs(), idle, c);
      WaitToReady(c, 0);
    }

    /** list_rm_and_process over wait_queue[PROC], with match_pid and wait_to_ready. */
    method WakeWaiters(pid: nat)
      requires Sound(Abs())
      modifies this`table, this`ready, this`waiting
      ensures Abs() == Mourn(old(Abs()), pid)
    {
      var i := 0;
      while i < |waiting[Proc]|
        invariant Sound(Abs()) && i <= |waiting[Proc]|
        invariant WakeAll(Abs(), i, pid) == Mourn(old(Abs()), pid)
        decreases |waiting[Proc]| - i
      {
        if WaitsFor(table[waiting[Proc][i]], pid) {
          WakeSound(Abs(), i);
          WaitToReady(Proc, i);
        } else {
          i := i + 1;
        }
      }
    }

    /** exit, by any process but idle: a dead process and a successor, and nobody left waiting for it. */
    method Exit()
      requires Valid() && current != idle
      modifies this
      ensures Valid() && Abs() == Step(old(Abs()), idle, EvExit)
      ensures old(current) in dead && Forgotten(Abs(), old(current))
      ensures old(ready) != [] && current == old(ready)[0] && old(ready)[1..] <= ready
    {
      ExitInv(Abs(), idle);
      StepDown(Abs(), idle, table[current].(state := Dead));
      ghost var s := Abs();
      var me := current;
      table := table[me := table[me].(state := Dead)];
      dead := dead + [me];
      assert Abs() == Arrive(s, me, s.table[me].(state := Dead));
      WakeWaiters(me);
      if ready == [] {
        return;
      }
      SwitchToNext();
      assert QueueOf(Abs(), InDead) == dead;
    }

    /** list_delete of p from a queue that holds it. */
    method Delete(q: seq<nat>, p: nat) returns (r: seq<nat>)
      requires p in q
      ensures r == Remove(q, IndexOf(q, p))
    {
      var i := 0;
      while q[i] != p
        invariant i <= IndexOf(q, p)
        decreases |q| - i
      {
        i := i + 1;
      }
      r := q[..i] + q[i + 1..];
    }

    /** kill, of any process but idle; found is false for a pid without a process. */
    method Kill(p: nat) returns (found: bool)
      requires Valid() && p != idle
      modifies this
      ensures Valid() && found == (p in old(table))
      ensures Abs() == Step(old(Abs()), idle, EvKill(p))
      ensures found && old(table)[p].state != Dead ==> p in dead && Forgotten(Abs(), p)
    {
      KillInv(Abs(), idle, p);
      found := p in table;
      if !found {
        return;
      }
      match table[p].state {
        case Run => {
          assert LivesAt(table, p, OnCpu);
          Exit();
        }
        case Ready => KillReady(p);
        case Wait => KillWaiting(p);
        case Dead => return;
      }
      assert QueueOf(Abs(), InDead) == dead;
    }

    method KillReady(p: nat)
      requires Valid() && p != idle && p in table && table[p].state == Ready
      modifies this
      ensures Abs() == Step(old(Abs()), idle, EvKill(p))
    {
      ghost var s := Abs();
      SlayHolds(s, p);
      ready := Delete(ready, p);
      table := table[p := table[p].(state := Dead)];
      dead := dead + [p];
      assert Abs() == Slay(s, p);
      WakeWaiters(p);
    }

    method KillWaiting(p: nat)
      requires Valid() && p != idle && p in table && table[p].state == Wait
      modifies this
      ensures Abs() == Step(old(Abs()), idle, EvKill(p))
    {
      ghost var s := Abs();
      SlayHolds(s, p);
      var c := table[p].chan;
      var rest := Delete(waiting[c], p);
      waiting := waiting[c := rest];
      table := table[p := table[p].(state := Dead)];
      dead := dead + [p];
      assert Abs() == Slay(s, p);
      WakeWaiters(p);
    }

    /** kill_zombies: the pids of the dead, and only those, become free. */
    method KillZombies()
      requires Valid()
      modifies this`table, this`dead
      ensures Valid() && Abs() == Step(old(Abs()), idle, EvReap) && dead == []
      ensures forall p :: p in table <==> p in old(table) && old(table)[p].state != Dead
    {
      ReapInv(Abs(), idle);
      while dead != []
        invariant Reap(Abs()) == Reap(old(Abs()))
        decreases |dead|
      {
        ReapFirst(Abs());
        var p := dead[0];
        dead := dead[1..];
        table := table - {p};
      }
      assert table - (set p | p in dead) == table;
    }
  }

  lemma WakeSound(s: Sched, i: nat)
    requires Sound(s) && i < |s.waiting[Proc]|
    ensures Sound(Wake(s, Proc, i))
  {
    var q := s.waiting[Proc];
    assert forall j {:trigger Remove(q, i)[j]} :: 0 <= j < |q| - 1 ==> Remove(q, i)[j] == q[if j < i then j else j + 1];
  }

  lemma ReapFirst(s: Sched)
    requires s.dead != []
    ensures Reap(s.(dead := s.dead[1..], table := s.table - {s.dead[0]})) == Reap(s)
  {
    var p, rest := s.dead[0], s.dead[1..];
    assert s.dead == [p] + rest;
    assert (s.table - {p}) - (set x | x in rest) == s.table - (set x | x in s.dead);
  }
}
