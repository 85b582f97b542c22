/**
 The queue operations of the scheduler on the kernel's linked lists: after each, the lists
 spell out the queues that the step on values has.
 */
module SchedLists {
  import opened Common
  import opened Lists
  import opened SchedState
  import opened SchedRuns

  /** A process that becomes b is pushed on the list of its new home. */
  method PushArriving(l: List, p: nat, ghost b: Pcb, ghost s: Sched)
    requires l.Valid() && Total(s) && HomeOf(b) != OnCpu && l.contents == QueueOf(s, HomeOf(b))
    modifies l
    ensures l.Valid() && l.contents == QueueOf(Arrive(s, p, b), HomeOf(b))
  {
    l.Push(p);
  }

  /** switch_to_next: the head of the ready list is the next process. */
  method PopNext(ready: List, ghost s: Sched) returns (next: Option<nat>)
    requires ready.Valid() && Total(s) && ready.contents == s.ready && (s.ready != [] ==> s.ready[0] in s.table)
    modifies ready
    ensures ready.Valid() && ready.contents == Yield(s).ready
    ensures next == if s.ready == [] then None else Some(Dispatch(s).current)
  {
    next := ready.Pop();
    assert s.ready != [] ==> Remove(s.ready, 0) == s.ready[1..];
  }

  /** schedule: the old process goes to the end of the ready list, and the head leaves it. */
  method Rotate(ready: List, ghost s: Sched, current: nat) returns (next: Option<nat>)
    requires ready.Valid() && Sound(s) && ready.contents == s.ready && current == s.current && s.current in s.table
    modifies ready
    ensures ready.Valid() && ready.contents == Schedule(s).ready
    ensures next == if s.ready == [] then None else Some(Schedule(s).current)
  {
    if ready.Empty() {
      return None;
    }
    ghost var b := s.table[s.current].(state := Ready);
    PushArriving(ready, current, b, s);
    next := PopNext(ready, Arrive(s, s.current, b));
  }

  /** Waking the first waiter: from the head of its list to the end of the ready list. */
  method MoveFirst(waiting: List, ready: List, ghost s: Sched, ghost c: Chan)
    requires waiting != ready && waiting.Valid() && ready.Valid() && Total(s)
    requires waiting.contents == s.waiting[c] && ready.contents == s.ready && s.waiting[c] != []
    modifies waiting, ready
    ensures waiting.Valid() && ready.Valid()
    ensures waiting.contents == Wake(s, c, 0).waiting[c] && ready.contents == Wake(s, c, 0).ready
  {
    var p := waiting.Pop();
    assert Remove(s.waiting[c], 0) == s.waiting[c][1..];
    ready.Push(p.value);
  }

  /** The wake-up in exit and kill: list_rm_and_process over the waiters, each match pushed on the ready list. */
  method MoveWaiters(onProc: List, ready: List, table: map<nat, Pcb>, pid: nat, ghost s: Sched)
    requires onProc != ready && onProc.Valid() && ready.Valid() && Sound(s) && Distinct(s.waiting[Proc])
             && table == s.table
    requires onProc.contents == s.waiting[Proc] && ready.contents == s.ready
    modifies onProc, ready
    ensures onProc.Valid() && ready.Valid()
    ensures onProc.contents == Mourn(s, pid).waiting[Proc] && ready.contents == Mourn(s, pid).ready
  {
    MournIs(s, pid);
    var woken := onProc.RmAndProcess(Waiter(table, pid));
    PushAll(ready, woken);
  }

  method PushAll(l: List, ps: seq<nat>)
    requires l.Valid()
    modifies l
    ensures l.Valid() && l.contents == old(l.contents) + ps
  {
    var i := 0;
    while i < |ps|
      invariant 0 <= i <= |ps| && l.Valid() && l.contents == old(l.contents) + ps[..i]
    {
      l.Push(ps[i]);
      i := i + 1;
    }
  }

  /** kill of a waiting or ready process: it leaves its list for the dead list. */
  method MoveToDead(l: List, dead: List, p: nat, ghost s: Sched)
    requires l != dead && l.Valid() && dead.Valid() && AllHold(s) && p in s.table
    requires s.table[p].state == Ready || s.table[p].state == Wait
    requires l.contents == QueueOf(s, HomeOf(s.table[p])) && dead.contents == s.dead
    modifies l, dead
    ensures l.Valid() && dead.Valid() && p in QueueOf(s, HomeOf(s.table[p])) && Total(Slay(s, p))
    ensures l.contents == QueueOf(Slay(s, p), HomeOf(s.table[p])) && dead.contents == Slay(s, p).dead
  {
    SlayHolds(s, p);
    SlayQueues(s, p);
    DeleteFrom(l, p);
    dead.Push(p);
  }

  method DeleteFrom(l: List, p: nat)
    requires l.Valid() && p in l.contents
    modifies l
    ensures l.Valid() && l.contents == Remove(old(l.contents), IndexOf(old(l.contents), p))
  {
    ghost var q := l.contents;
    var found := l.Delete(p);
    FirstIs(q, p);
  }

  lemma SlayQueues(s: Sched, p: nat)
    requires Total(s) && p in s.table && (s.table[p].state == Ready || s.table[p].state == Wait)
             && p in QueueOf(s, HomeOf(s.table[p]))
    ensures var h := HomeOf(s.table[p]);
            && Total(Slay(s, p)) && QueueOf(Slay(s, p), h) == Remove(QueueOf(s, h), IndexOf(QueueOf(s, h), p))
            && Slay(s, p).dead == s.dead + [p]
  {
  }

  lemma FirstIs(q: seq<nat>, p: nat)
    requires p in q
    ensures forall i {:trigger q[..i]} :: 0 <= i < |q| && q[i] == p && p !in q[..i] ==> i == IndexOf(q, p)
  {
    var k := IndexOf(q, p);
    forall i | k < i < |q| ensures p in q[..i] {
      assert q[..i][k] == p;
    }
  }

  /** kill_zombies: the dead list is emptied, and exactly its processes leave the table. */
  method Drain(dead: List, table: map<nat, Pcb>, ghost s: Sched) returns (r: map<nat, Pcb>)
    requires dead.Valid() && dead.contents == s.dead && table == s.table
    modifies dead
    ensures dead.Valid() && dead.contents == Reap(s).dead && r == Reap(s).table
  {
    r := table;
    var p := dead.Pop();
    while p != None
      invariant dead.Valid() && (p == None ==> dead.contents == [])
      invariant r - Members((if p == None then [] else [p.value]) + dead.contents) == Reap(s).table
      decreases |dead.contents| + if p == None then 0 else 1
    {
      DropFirst(r, p.value, dead.contents);
      r := r - {p.value};
      ghost var rest := dead.contents;
      p := dead.Pop();
      assert rest == (if p == None then [] else [p.value]) + dead.contents;
    }
    assert r - Members([]) == r;
  }

  ghost function Members(q: seq<nat>): (m: set<nat>) {
    set p | p in q
  }

  lemma DropFirst(t: map<nat, Pcb>, p: nat, q: seq<nat>)
    ensures t - Members([p] + q) == (t - {p}) - Members(q)
  {
  }
}
