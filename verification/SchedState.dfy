/**
 Processes, their states and the queues they wait in, as steps on values: what every step of
 the scheduler keeps.
 */
module SchedState {
  import opened Common

  /** The events that wait() knows: the end of a process, input, output. */
  datatype Chan = Proc | R | W

  datatype Stat = Run | Ready | Wait | Dead

  /** State, the wait queue a waiting process is in, and what it waits for. */
  datatype Pcb = Pcb(state: Stat, chan: Chan, data: nat)

  datatype Sched = Sched(table: map<nat, Pcb>, ready: seq<nat>, dead: seq<nat>, waiting: map<Chan, seq<nat>>,
                         current: nat, last: nat)

  /** Where a process must be. */
  datatype Home = OnCpu | InReady | InDead | InWait(chan: Chan)

  function HomeOf(b: Pcb): (h: Home) {
    match b.state
    case Run => OnCpu
    case Ready => InReady
    case Dead => InDead
    case Wait => InWait(b.chan)
  }

  ghost predicate LivesAt(table: map<nat, Pcb>, p: nat, h: Home) {
    p in table && HomeOf(table[p]) == h
  }

  /** The queue has exactly the processes whose home it is, each once. */
  ghost predicate Holds(table: map<nat, Pcb>, q: seq<nat>, h: Home) {
    Distinct(q) && forall p {:trigger p in q} {:trigger LivesAt(table, p, h)} :: p in q <==> LivesAt(table, p, h)
  }

  predicate Total(s: Sched) {
    forall c: Chan :: c in s.waiting
  }

  ghost predicate InTable(s: Sched) {
    s.last < MAX_PROC && forall p {:trigger p in s.table} :: p in s.table ==> p < MAX_PROC
  }

  ghost predicate NoneRuns(s: Sched) {
    forall p {:trigger LivesAt(s.table, p, OnCpu)} :: !LivesAt(s.table, p, OnCpu)
  }

  // ----- moving a process between queues

  lemma HoldsOther(table: map<nat, Pcb>, q: seq<nat>, h: Home, p: nat, b: Pcb)
    requires Holds(table, q, h) && p !in q && HomeOf(b) != h
    ensures Holds(table[p := b], q, h)
  {
    forall x ensures x in q <==> LivesAt(table[p := b], x, h) {
      assert x in q <==> LivesAt(table, x, h);
    }
  }

  lemma HoldsPush(table: map<nat, Pcb>, q: seq<nat>, h: Home, p: nat, b: Pcb)
    requires Holds(table, q, h) && p !in q && HomeOf(b) == h
    ensures Holds(table[p := b], q + [p], h)
  {
    forall x ensures x in q + [p] <==> LivesAt(table[p := b], x, h) {
      assert x in q <==> LivesAt(table, x, h);
    }
  }

  lemma HoldsRemove(table: map<nat, Pcb>, q: seq<nat>, h: Home, i: nat, b: Pcb)
    requires Holds(table, q, h) && i < |q| && HomeOf(b) != h
    ensures Holds(table[q[i] := b], Remove(q, i), h)
  {
    RemoveDistinct(q, i);
    forall x ensures x in Remove(q, i) <==> LivesAt(table[q[i] := b], x, h) {
      assert x in q <==> LivesAt(table, x, h);
    }
  }

  lemma NotElsewhere(table: map<nat, Pcb>, q: seq<nat>, h: Home, p: nat)
    requires Holds(table, q, h) && !LivesAt(table, p, h)
    ensures p !in q
  {
  }

  // ----- the queues as one function of the home

  function QueueOf(s: Sched, h: Home): (q: seq<nat>)
    requires Total(s)
  {
    match h
    case OnCpu => []
    case InReady => s.ready
    case InDead => s.dead
    case InWait(c) => s.waiting[c]
  }

  function SetQueue(s: Sched, h: Home, q: seq<nat>): (r: Sched) {
    match h
    case OnCpu => s
    case InReady => s.(ready := q)
    case InDead => s.(dead := q)
    case InWait(c) => s.(waiting := s.waiting[c := q])
  }

  ghost predicate AllHold(s: Sched) {
    Total(s) && forall h {:trigger QueueOf(s, h)} :: h != OnCpu ==> Holds(s.table, QueueOf(s, h), h)
  }

  /** Conservation: every process is in the one queue of its state, once; exactly one process runs and it is the
      current one; the idle process is running or ready. */
  ghost predicate Inv(s: Sched, idle: nat) {
    && AllHold(s) && InTable(s)
    && (forall p {:trigger LivesAt(s.table, p, OnCpu)} :: LivesAt(s.table, p, OnCpu) <==> p == s.current)
    && (idle == s.current || idle in s.ready)
  }

  /** Process p becomes b and goes to the end of the queue that is its new home. */
  function Arrive(s: Sched, p: nat, b: Pcb): (r: Sched)
    requires Total(s)
  {
    SetQueue(s.(table := s.table[p := b]), HomeOf(b), QueueOf(s, HomeOf(b)) + [p])
  }

  /** The i-th process of queue h becomes b and goes to the end of its new queue, or runs. */
  function Leave(s: Sched, h: Home, i: nat, b: Pcb): (r: Sched)
    requires Total(s) && i < |QueueOf(s, h)|
  {
    var p := QueueOf(s, h)[i];
    Arrive(SetQueue(s, h, Remove(QueueOf(s, h), i)), p, b)
  }

  lemma ArriveHolds(s: Sched, p: nat, b: Pcb)
    requires AllHold(s) && (p !in s.table || HomeOf(s.table[p]) == OnCpu)
    ensures AllHold(Arrive(s, p, b))
  {
    var r := Arrive(s, p, b);
    forall h | h != OnCpu ensures Holds(r.table, QueueOf(r, h), h) {
      assert Holds(s.table, QueueOf(s, h), h);
      NotElsewhere(s.table, QueueOf(s, h), h, p);
      if h == HomeOf(b) {
        HoldsPush(s.table, QueueOf(s, h), h, p, b);
      } else {
        HoldsOther(s.table, QueueOf(s, h), h, p, b);
      }
    }
  }

  lemma LeaveHolds(s: Sched, h: Home, i: nat, b: Pcb)
    requires AllHold(s) && h != OnCpu && i < |QueueOf(s, h)| && HomeOf(b) != h
    ensures AllHold(Leave(s, h, i, b))
  {
    var p, r := QueueOf(s, h)[i], Leave(s, h, i, b);
    assert Holds(s.table, QueueOf(s, h), h) && LivesAt(s.table, p, h);
    forall k | k != OnCpu ensures Holds(r.table, QueueOf(r, k), k) {
      assert Holds(s.table, QueueOf(s, k), k);
      if k == h {
        HoldsRemove(s.table, QueueOf(s, h), h, i, b);
      } else {
        NotElsewhere(s.table, QueueOf(s, k), k, p);
        if k == HomeOf(b) {
          HoldsPush(s.table, QueueOf(s, k), k, p, b);
        } else {
          HoldsOther(s.table, QueueOf(s, k), k, p, b);
        }
      }
    }
  }

  // ----- the steps

  function Create(s: Sched, p: nat): (r: Sched)
    requires Total(s)
  {
    Arrive(s, p, Pcb(Ready, Proc, 0)).(last := p)
  }

  /** switch_to_next: the head of the ready queue runs. */
  function Dispatch(s: Sched): (r: Sched)
    requires Total(s) && s.ready != [] && s.ready[0] in s.table
  {
    Leave(s, InReady, 0, s.table[s.ready[0]].(state := Run)).(current := s.ready[0])
  }

  /** The next process is dispatched, if there is one. */
  function Yield(s: Sched): (r: Sched)
    requires Total(s) && (s.ready != [] ==> s.ready[0] in s.table)
  {
    if s.ready == [] then s else Dispatch(s)
  }

  /** wait_to_ready of the i-th waiter on c. */
  function Wake(s: Sched, c: Chan, i: nat): (r: Sched)
    requires Total(s) && i < |s.waiting[c]|
  {
    Leave(s, InWait(c), i, Pcb(Ready, Proc, 0))
  }

  /** match_pid: wait_data is compared after truncation to a 32-bit pid. */
  predicate WaitsFor(b: Pcb, pid: nat) {
    b.data % 0x1_0000_0000 == pid
  }

  /** The processes in the ready queue and in wait_queue[PROC] are in the table. */
  ghost predicate Sound(s: Sched) {
    && Total(s) && (forall j {:trigger s.ready[j]} :: 0 <= j < |s.ready| ==> s.ready[j] in s.table)
    && (forall j {:trigger s.waiting[Proc][j]} :: 0 <= j < |s.waiting[Proc]| ==> s.waiting[Proc][j] in s.table)
  }

  /** list_rm_and_process with match_pid and wait_to_ready, from position i of the queue on. */
  ghost function WakeAll(s: Sched, i: nat, pid: nat): (r: Sched)
    requires Sound(s) && i <= |s.waiting[Proc]|
    ensures Sound(r)
    decreases |s.waiting[Proc]| - i
  {
    var q := s.waiting[Proc];
    assert i < |q| ==> forall j {:trigger Remove(q, i)[j]} :: 0 <= j < |q| - 1 ==>
           Remove(q, i)[j] == q[if j < i then j else j + 1];
    if i == |q| then s
    else if WaitsFor(s.table[q[i]], pid) then WakeAll(Wake(s, Proc, i), i, pid)
    else WakeAll(s, i + 1, pid)
  }

  lemma WakeKeeps(s: Sched, c: Chan, i: nat)
    requires AllHold(s) && InTable(s) && i < |s.waiting[c]|
    ensures AllHold(Wake(s, c, i)) && InTable(Wake(s, c, i)) && Wake(s, c, i).current == s.current
    ensures Wake(s, c, i).table.Keys == s.table.Keys && s.waiting[c][i] in s.table
    ensures forall p {:trigger LivesAt(Wake(s, c, i).table, p, OnCpu)} :: LivesAt(Wake(s, c, i).table, p, OnCpu) <==>
            LivesAt(s.table, p, OnCpu)
  {
    var q := s.waiting[c];
    assert QueueOf(s, InWait(c)) == q && q[i] in q;
    assert LivesAt(s.table, q[i], InWait(c));
    LeaveHolds(s, InWait(c), i, Pcb(Ready, Proc, 0));
    assert Wake(s, c, i).table == s.table[q[i] := Pcb(Ready, Proc, 0)];
  }

  lemma QueuesSound(s: Sched)
    requires AllHold(s)
    ensures Sound(s) && Distinct(s.waiting[Proc])
  {
    assert QueueOf(s, InWait(Proc)) == s.waiting[Proc] && QueueOf(s, InReady) == s.ready;
    forall j | 0 <= j < |s.waiting[Proc]| ensures s.waiting[Proc][j] in s.table {
      assert s.waiting[Proc][j] in s.waiting[Proc];
    }
    forall j | 0 <= j < |s.ready| ensures s.ready[j] in s.table {
      assert s.ready[j] in s.ready;
    }
  }

  /** The test that the scan makes of a process. */
  function Waiter(table: map<nat, Pcb>, pid: nat): (m: nat -> bool) {
    p => p in table && WaitsFor(table[p], pid)
  }

  lemma WaiterFrame(table: map<nat, Pcb>, q: seq<nat>, pid: nat, want: bool, p: nat, b: Pcb)
    requires forall j {:trigger q[j]} :: 0 <= j < |q| ==> q[j] != p
    ensures Select(q, Waiter(table[p := b], pid), want) == Select(q, Waiter(table, pid), want)
  {
    SelectSame(q, Waiter(table[p := b], pid), Waiter(table, pid), want);
  }

  /** What the scan keeps from one process to the next. */
  ghost predicate Scanned(s: Sched, r: Sched) {
    && AllHold(r) && InTable(r) && r.current == s.current && r.last == s.last && r.table.Keys == s.table.Keys
      && r.dead == s.dead
    && Total(s) && (forall c :: c != Proc ==> r.waiting[c] == s.waiting[c])
    && (forall p {:trigger LivesAt(r.table, p, OnCpu)} :: LivesAt(r.table, p, OnCpu) <==> LivesAt(s.table, p, OnCpu))
    && forall p {:trigger r.table[p]} :: p in r.table ==> r.table[p] == s.table[p] || r.table[p] == Pcb(Ready, Proc, 0)
  }

  lemma {:induction false} WakeAllKeeps(s: Sched, i: nat, pid: nat)
    requires AllHold(s) && InTable(s) && Sound(s) && i <= |s.waiting[Proc]|
    ensures Scanned(s, WakeAll(s, i, pid))
    decreases |s.waiting[Proc]| - i
  {
    if i < |s.waiting[Proc]| {
      if WaitsFor(s.table[s.waiting[Proc][i]], pid) {
        WakeKeeps(s, Proc, i);
        QueuesSound(Wake(s, Proc, i));
        WakeAllKeeps(Wake(s, Proc, i), i, pid);
      } else {
        WakeAllKeeps(s, i + 1, pid);
      }
    }
  }

  lemma SelectStep(q: seq<nat>, i: nat, m: nat -> bool, want: bool)
    requires i < |q|
    ensures Select(q[i..], m, want) == (if m(q[i]) == want then [q[i]] else []) + Select(q[i + 1..], m, want)
  {
    SelectFirst(q[i..], m, want);
    assert q[i..][1..] == q[i + 1..];
  }

  lemma WokenFirst(s: Sched, i: nat)
    requires Sound(s) && i < |s.waiting[Proc]| && Distinct(s.waiting[Proc])
    ensures var q, r := s.waiting[Proc], Wake(s, Proc, i);
            && Sound(r) && r.ready == s.ready + [q[i]] && r.table == s.table[q[i] := Pcb(Ready, Proc, 0)]
            && |r.waiting[Proc]| == |q| - 1 && Distinct(r.waiting[Proc])
            && r.waiting[Proc][i..] == q[i + 1..] && r.waiting[Proc][..i] == q[..i]
  {
    var q := s.waiting[Proc];
    RemoveDistinct(q, i);
    assert forall j {:trigger Remove(q, i)[j]} :: 0 <= j < |q| - 1 ==> Remove(q, i)[j] == q[if j < i then j else j + 1];
  }

  /** The table after each process of a list has been made ready. */
  function AllReady(table: map<nat, Pcb>, ps: seq<nat>): (r: map<nat, Pcb>) {
    if ps == [] then table else AllReady(table, ps[..|ps| - 1])[ps[|ps| - 1] := Pcb(Ready, Proc, 0)]
  }

  lemma {:induction false} AllReadyFirst(table: map<nat, Pcb>, p: nat, ps: seq<nat>)
    ensures AllReady(table, [p] + ps) == AllReady(table[p := Pcb(Ready, Proc, 0)], ps)
  {
    var n, all := |ps|, [p] + ps;
    if n > 0 {
      AllReadyFirst(table, p, ps[..n - 1]);
      assert all[..n] == [p] + ps[..n - 1];
    } else {
      assert all[..0] == [];
    }
  }

  /** From position i on, the waiters for pid have gone to the end of the ready queue, in order, and the others are
      still waiting, in order. */
  ghost predicate Woken(s: Sched, i: nat, pid: nat, r: Sched)
    requires Total(s) && Total(r) && i <= |s.waiting[Proc]|
  {
    var rest, m := s.waiting[Proc][i..], Waiter(s.table, pid);
    && r.ready == s.ready + Select(rest, m, true) && r.waiting[Proc] == s.waiting[Proc][..i] + Select(rest, m, false)
    && r.table == AllReady(s.table, Select(rest, m, true))
  }

  lemma WokenMatch(s: Sched, i: nat, pid: nat, r: Sched)
    requires Sound(s) && Total(r) && i < |s.waiting[Proc]| && Distinct(s.waiting[Proc])
             && WaitsFor(s.table[s.waiting[Proc][i]], pid)
    requires Sound(Wake(s, Proc, i)) && |Wake(s, Proc, i).waiting[Proc]| == |s.waiting[Proc]| - 1
             && Woken(Wake(s, Proc, i), i, pid, r)
    ensures Woken(s, i, pid, r)
  {
    var q, s', b := s.waiting[Proc], Wake(s, Proc, i), Pcb(Ready, Proc, 0);
    var yes, no := Select(q[i + 1..], Waiter(s.table, pid), true), Select(q[i + 1..], Waiter(s.table, pid), false);
    WokenFirst(s, i);
    WaiterFrame(s.table, q[i + 1..], pid, true, q[i], b);
    WaiterFrame(s.table, q[i + 1..], pid, false, q[i], b);
    assert r.ready == s.ready + [q[i]] + yes && r.waiting[Proc] == q[..i] + no
           && r.table == AllReady(s.table[q[i] := b], yes);
    WokenMatchSelect(q, i, Waiter(s.table, pid));
    Regroup(s.ready, q[i], yes);
    AllReadyFirst(s.table, q[i], yes);
  }

  lemma WokenMatchSelect(q: seq<nat>, i: nat, m: nat -> bool)
    requires i < |q| && m(q[i])
    ensures Select(q[i..], m, true) == [q[i]] + Select(q[i + 1..], m, true)
            && Select(q[i..], m, false) == Select(q[i + 1..], m, false)
  {
    SelectStep(q, i, m, true);
    SelectStep(q, i, m, false);
  }

  lemma WokenSkip(s: Sched, i: nat, pid: nat, r: Sched)
    requires Sound(s) && Total(r) && i < |s.waiting[Proc]| && !WaitsFor(s.table[s.waiting[Proc][i]], pid)
    requires Woken(s, i + 1, pid, r)
    ensures Woken(s, i, pid, r)
  {
    var q, m := s.waiting[Proc], Waiter(s.table, pid);
    SelectStep(q, i, m, true);
    SelectStep(q, i, m, false);
    assert q[..i + 1] == q[..i] + [q[i]];
    Regroup(q[..i], q[i], Select(q[i + 1..], m, false));
    assert Select(q[i..], m, true) == Select(q[i + 1..], m, true);
  }

  /** Every waiter for pid, and nobody else, becomes ready. */
  lemma {:induction false} WakeAllIs(s: Sched, i: nat, pid: nat)
    requires Sound(s) && i <= |s.waiting[Proc]| && Distinct(s.waiting[Proc])
    ensures Woken(s, i, pid, WakeAll(s, i, pid))
    decreases |s.waiting[Proc]| - i
  {
    if i < |s.waiting[Proc]| {
      if WaitsFor(s.table[s.waiting[Proc][i]], pid) {
        WokenFirst(s, i);
        WakeAllIs(Wake(s, Proc, i), i, pid);
        WokenMatch(s, i, pid, WakeAll(s, i, pid));
      } else {
        WakeAllIs(s, i + 1, pid);
        WokenSkip(s, i, pid, WakeAll(s, i, pid));
      }
    }
  }

  lemma Regroup(a: seq<nat>, x: nat, b: seq<nat>)
    ensures a + [x] + b == a + ([x] + b) && [] + b == b
  {
  }
}
