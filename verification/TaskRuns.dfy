/**
 The discipline of deferred interrupt work, on values: a task's handler runs with interrupts
 enabled, and each interrupt that arrives meanwhile adds a task and processes the queue.
 */
module TaskRuns {
  import opened Common
  import opened Ring

  const INIT_PRIO: nat := 2147483647

  /** A task: its priority (small is urgent) and the tasks whose interrupts arrive while its handler runs. */
  datatype Task = Task(prio: nat, id: nat, arrivals: seq<Task>)

  function Prio(t: Task): (p: nat) { t.prio }

  /** A task started: the priority it interrupted and what was queued. */
  datatype Start = Start(task: Task, interrupted: nat, queued: seq<Task>)

  /** peak is the largest length the queue has had. */
  datatype State = State(queue: seq<Task>, cur: nat, log: seq<Start>, peak: nat)

  // ----- sizes

  function Size(t: Task): (n: nat)
    ensures n > 0
  {
    1 + Work(t.arrivals)
  }

  /** The tasks in a list, with all that arrive during their handlers. */
  function Work(ts: seq<Task>): (n: nat) {
    if ts == [] then 0 else Size(ts[0]) + Work(ts[1..])
  }

  lemma {:induction false} WorkAppend(s: seq<Task>, t: seq<Task>)
    ensures Work(s + t) == Work(s) + Work(t)
  {
    if s == [] {
      assert s + t == t;
    } else {
      WorkAppend(s[1..], t);
      assert (s + t)[1..] == s[1..] + t;
    }
  }

  lemma {:induction false} WorkInserted(s: seq<Task>, x: Task)
    ensures Work(Inserted(Prio, s, x)) == Work(s) + Size(x)
  {
    assert Work([x]) == Size(x);
    if s == [] || Prio(s[|s| - 1]) <= Prio(x) {
      WorkAppend(s, [x]);
    } else {
      var front, last := s[..|s| - 1], s[|s| - 1];
      WorkInserted(front, x);
      WorkAppend(front, [last]);
      WorkAppend(Inserted(Prio, front, x), [last]);
      assert s == front + [last];
    }
  }

  // ----- the steps

  function Queued(s: State, t: Task): (r: State)
    ensures Work(r.queue) == Work(s.queue) + Size(t)
  {
    WorkInserted(s.queue, t);
    s.(queue := Inserted(Prio, s.queue, t), peak := Max(s.peak, |s.queue| + 1))
  }

  /** The second part of process_task: run t, restore the priority, go on with the queue. */
  function Run(s: State, t: Task): (r: State)
    ensures Work(r.queue) < Work(s.queue) + Size(t) && r.cur == s.cur && r.peak >= s.peak
    ensures s.log + [Start(t, s.cur, s.queue)] <= r.log
    decreases Work(s.queue) + Size(t), 0, 0
  {
    var s1 := State(s.queue, t.prio, s.log + [Start(t, s.cur, s.queue)], s.peak);
    var s2 := Handle(s1, t.arrivals);
    Drain(s2.(cur := s.cur))
  }

  /** process_task(NULL) */
  function Drain(s: State): (r: State)
    ensures Work(r.queue) <= Work(s.queue) && r.cur == s.cur && r.peak >= s.peak && s.log <= r.log
    decreases Work(s.queue), 1, 0
  {
    if s.queue == [] || s.cur < s.queue[0].prio then s
    else Run(s.(queue := s.queue[1..]), s.queue[0])
  }

  /** add_task */
  function Add(s: State, t: Task): (r: State)
    ensures Work(r.queue) <= Work(s.queue) + Size(t) && r.cur == s.cur && r.peak >= s.peak && s.log <= r.log
    decreases Work(s.queue) + Size(t), 1, 0
  {
    if t.prio < s.cur then Run(s, t) else Queued(s, t)
  }

  /** The interrupts that arrive while a handler runs. */
  function Handle(s: State, ts: seq<Task>): (r: State)
    ensures Work(r.queue) <= Work(s.queue) + Work(ts) && r.cur == s.cur && r.peak >= s.peak && s.log <= r.log
    decreases Work(s.queue) + Work(ts), 2, |ts|
  {
    if ts == [] then s else Handle(Drain(Add(s, ts[0])), ts[1..])
  }

  // ----- the discipline

  /** The queue is sorted and holds nothing more urgent than the running task. */
  ghost predicate Ready(s: State) {
    Sorted(Prio, s.queue) && forall t {:trigger t in s.queue} :: t in s.queue ==> s.cur <= t.prio
  }

  /** The queue is sorted and everything in it is strictly less urgent. */
  ghost predicate Rested(s: State) {
    Sorted(Prio, s.queue) && forall t {:trigger t in s.queue} :: t in s.queue ==> s.cur < t.prio
  }

  /** A task that starts is at least as urgent as what it interrupts and as everything queued. */
  ghost predicate Urgent(e: Start) {
    e.task.prio <= e.interrupted && forall t :: t in e.queued ==> e.task.prio <= t.prio
  }

  ghost predicate AllUrgent(log: seq<Start>) {
    forall i {:trigger log[i]} :: 0 <= i < |log| ==> Urgent(log[i])
  }

  lemma QueuedReady(s: State, t: Task)
    requires Ready(s) && s.cur <= t.prio
    ensures Ready(Queued(s, t))
  {
    InsertedSorted(Prio, s.queue, t);
    forall u | u in Queued(s, t).queue ensures s.cur <= u.prio {
      InsertedMember(Prio, s.queue, t, u);
    }
  }

  lemma {:induction false} RunDiscipline(s: State, t: Task)
    requires Sorted(Prio, s.queue) && AllUrgent(s.log) && Urgent(Start(t, s.cur, s.queue))
    ensures Rested(Run(s, t)) && AllUrgent(Run(s, t).log)
    decreases Work(s.queue) + Size(t), 0, 0
  {
    var s1 := State(s.queue, t.prio, s.log + [Start(t, s.cur, s.queue)], s.peak);
    var s2 := Handle(s1, t.arrivals);
    HandleDiscipline(s1, t.arrivals);
    DrainDiscipline(s2.(cur := s.cur));
  }

  /** process_task leaves only strictly less urgent tasks. */
  lemma {:induction false} DrainDiscipline(s: State)
    requires Sorted(Prio, s.queue) && AllUrgent(s.log)
    ensures Rested(Drain(s)) && AllUrgent(Drain(s).log)
    decreases Work(s.queue), 1, 0
  {
    if s.queue != [] && s.queue[0].prio <= s.cur {
      var s1 := s.(queue := s.queue[1..]);
      forall t | t in s1.queue ensures s.queue[0].prio <= t.prio {
        var i :| 0 <= i < |s1.queue| && s1.queue[i] == t;
        assert Prio(s.queue[0]) <= Prio(s.queue[i + 1]);
      }
      assert Sorted(Prio, s1.queue);
      RunDiscipline(s1, s.queue[0]);
    } else if s.queue != [] {
      forall t | t in s.queue ensures s.cur < t.prio {
        var i :| 0 <= i < |s.queue| && s.queue[i] == t;
        assert Prio(s.queue[0]) <= Prio(s.queue[i]);
      }
    }
  }

  lemma {:induction false} AddDiscipline(s: State, t: Task)
    requires Ready(s) && AllUrgent(s.log)
    ensures Ready(Add(s, t)) && AllUrgent(Add(s, t).log)
    decreases Work(s.queue) + Size(t), 1, 0
  {
    if t.prio < s.cur {
      RunDiscipline(s, t);
    } else {
      QueuedReady(s, t);
    }
  }

  lemma {:induction false} HandleDiscipline(s: State, ts: seq<Task>)
    requires Ready(s) && AllUrgent(s.log)
    ensures Ready(Handle(s, ts)) && AllUrgent(Handle(s, ts).log)
    decreases Work(s.queue) + Work(ts), 2, |ts|
  {
    if ts != [] {
      AddDiscipline(s, ts[0]);
      DrainDiscipline(Add(s, ts[0]));
      HandleDiscipline(Drain(Add(s, ts[0])), ts[1..]);
    }
  }

  /** At the initial priority nothing is left over. */
  lemma RestedAtInit(s: State)
    requires Rested(s) && s.cur == INIT_PRIO && forall t :: t in s.queue ==> t.prio <= INIT_PRIO
    ensures s.queue == []
  {
    if s.queue != [] {
      HeadIn(s.queue);
      assert false;
    }
  }

  lemma HeadIn(ts: seq<Task>)
    requires ts != []
    ensures ts[0] in ts
  {
  }

  // ----- every task runs exactly once

  /** How often x occurs as task t or among the arrivals below it. */
  function InTree(x: Task, t: Task): (n: nat) {
    (if x == t then 1 else 0) + Occurs(x, t.arrivals)
  }

  function Occurs(x: Task, ts: seq<Task>): (n: nat) {
    if ts == [] then 0 else InTree(x, ts[0]) + Occurs(x, ts[1..])
  }

  /** How often x has been started. */
  function Started(x: Task, log: seq<Start>): (n: nat) {
    if log == [] then 0 else Started(x, log[..|log| - 1]) + if log[|log| - 1].task == x then 1 else 0
  }

  lemma {:induction false} OccursAppend(x: Task, s: seq<Task>, t: seq<Task>)
    ensures Occurs(x, s + t) == Occurs(x, s) + Occurs(x, t)
  {
    if s == [] {
      assert s + t == t;
    } else {
      OccursAppend(x, s[1..], t);
      assert (s + t)[1..] == s[1..] + t;
    }
  }

  lemma {:induction false} OccursInserted(x: Task, s: seq<Task>, t: Task)
    ensures Occurs(x, Inserted(Prio, s, t)) == Occurs(x, s) + InTree(x, t)
  {
    assert Occurs(x, [t]) == InTree(x, t);
    if s == [] || Prio(s[|s| - 1]) <= Prio(t) {
      OccursAppend(x, s, [t]);
    } else {
      var front, last := s[..|s| - 1], s[|s| - 1];
      OccursInserted(x, front, t);
      OccursAppend(x, front, [last]);
      OccursAppend(x, Inserted(Prio, front, t), [last]);
      assert s == front + [last];
    }
  }

  /** How often x has run or is still to run. */
  function Total(x: Task, s: State): (n: nat) {
    Started(x, s.log) + Occurs(x, s.queue)
  }

  lemma {:induction false} RunOnce(x: Task, s: State, t: Task)
    ensures Total(x, Run(s, t)) == Total(x, s) + InTree(x, t)
    decreases Work(s.queue) + Size(t), 0, 0
  {
    var e := Start(t, s.cur, s.queue);
    var s1 := State(s.queue, t.prio, s.log + [e], s.peak);
    var s2 := Handle(s1, t.arrivals);
    assert (s.log + [e])[..|s.log|] == s.log;
    HandleOnce(x, s1, t.arrivals);
    DrainOnce(x, s2.(cur := s.cur));
  }

  lemma {:induction false} DrainOnce(x: Task, s: State)
    ensures Total(x, Drain(s)) == Total(x, s)
    decreases Work(s.queue), 1, 0
  {
    if s.queue != [] && s.queue[0].prio <= s.cur {
      RunOnce(x, s.(queue := s.queue[1..]), s.queue[0]);
    }
  }

  lemma {:induction false} AddOnce(x: Task, s: State, t: Task)
    ensures Total(x, Add(s, t)) == Total(x, s) + InTree(x, t)
    decreases Work(s.queue) + Size(t), 1, 0
  {
    if t.prio < s.cur {
      RunOnce(x, s, t);
    } else {
      OccursInserted(x, s.queue, t);
    }
  }

  lemma {:induction false} HandleOnce(x: Task, s: State, ts: seq<Task>)
    ensures Total(x, Handle(s, ts)) == Total(x, s) + Occurs(x, ts)
    decreases Work(s.queue) + Work(ts), 2, |ts|
  {
    if ts != [] {
      AddOnce(x, s, ts[0]);
      DrainOnce(x, Add(s, ts[0]));
      HandleOnce(x, Drain(Add(s, ts[0])), ts[1..]);
    }
  }

  // ----- preemption

  lemma {:induction false} StartedAppend(x: Task, s: seq<Start>, t: seq<Start>)
    ensures Started(x, s + t) == Started(x, s) + Started(x, t)
  {
    if t == [] {
      assert s + t == s;
    } else {
      assert (s + t)[..|s + t| - 1] == s + t[..|t| - 1];
      StartedAppend(x, s, t[..|t| - 1]);
    }
  }

  /** What is logged after s is at least as urgent as the priority it interrupts, and that priority as s.cur. */
  ghost predicate Within(s: State, log: seq<Start>) {
    forall j {:trigger log[j]} :: |s.log| <= j < |log| ==> log[j].task.prio <= log[j].interrupted <= s.cur
  }

  lemma {:induction false} RunWithin(s: State, t: Task)
    requires t.prio <= s.cur
    ensures Within(s, Run(s, t).log)
    decreases Work(s.queue) + Size(t), 0, 0
  {
    var s1 := State(s.queue, t.prio, s.log + [Start(t, s.cur, s.queue)], s.peak);
    HandleWithin(s1, t.arrivals);
    DrainWithin(Handle(s1, t.arrivals).(cur := s.cur));
  }

  lemma {:induction false} DrainWithin(s: State)
    ensures Within(s, Drain(s).log)
    decreases Work(s.queue), 1, 0
  {
    if s.queue != [] && s.queue[0].prio <= s.cur {
      RunWithin(s.(queue := s.queue[1..]), s.queue[0]);
    }
  }

  lemma {:induction false} HandleWithin(s: State, ts: seq<Task>)
    ensures Within(s, Handle(s, ts).log)
    decreases Work(s.queue) + Work(ts), 2, |ts|
  {
    if ts != [] {
      if ts[0].prio < s.cur {
        RunWithin(s, ts[0]);
      }
      DrainWithin(Add(s, ts[0]));
      HandleWithin(Drain(Add(s, ts[0])), ts[1..]);
    }
  }

  lemma {:induction false} HandleNext(s: State, ts: seq<Task>, i: nat)
    requires i < |ts|
    ensures Handle(s, ts[..i + 1]) == Drain(Add(Handle(s, ts[..i]), ts[i]))
    decreases i
  {
    if i == 0 {
      assert ts[..1][1..] == [] && ts[..0] == [];
    } else {
      assert ts[..i + 1][1..] == ts[1..][..i] && ts[..i][1..] == ts[1..][..i - 1];
      HandleNext(Drain(Add(s, ts[0])), ts[1..], i - 1);
    }
  }

  /** From the arrival of interrupt i during the handler of entry k to the next one, p[i] to p[i + 1] in the log.
      A more urgent task starts at once, and it interrupts the handler. Nothing less urgent than the handler starts.
      Until then, only what was queued or has arrived can have started. */
  ghost predicate Stage(log: seq<Start>, k: nat, p: seq<nat>, i: nat)
    requires k < |log| && i + 1 < |p| && i < |log[k].task.arrivals|
  {
    var t := log[k].task;
    var u := t.arrivals[i];
    && k < p[i] <= p[i + 1] <= |log|
    && (u.prio < t.prio ==> p[i] < p[i + 1] && log[p[i]].task == u && log[p[i]].interrupted == t.prio)
    && (forall j {:trigger log[j]} :: p[i] <= j < p[i + 1] ==> log[j].task.prio <= log[j].interrupted <= t.prio)
    && (forall x {:trigger Started(x, log[k + 1..p[i]])} ::
          Started(x, log[k + 1..p[i]]) <= Occurs(x, log[k].queued) + Occurs(x, t.arrivals[..i]))
  }

  /** p marks the arrivals during the handler of entry k and its end. */
  ghost predicate Stages(log: seq<Start>, k: nat, p: seq<nat>)
    requires k < |log|
  {
    && |p| == |log[k].task.arrivals| + 1 && p[0] == k + 1 && p[|p| - 1] <= |log|
    && forall i {:trigger Stage(log, k, p, i)} :: 0 <= i < |log[k].task.arrivals| ==> Stage(log, k, p, i)
  }

  /** The handler of entry k is preempted by every more urgent interrupt, in the order of arrival. */
  ghost predicate Preemptible(log: seq<Start>, k: nat)
    requires k < |log|
  {
    exists p {:trigger Stages(log, k, p)} :: Stages(log, k, p)
  }

  ghost predicate AllPreemptible(from: nat, log: seq<Start>) {
    forall k {:trigger Preemptible(log, k)} :: from <= k < |log| ==> Preemptible(log, k)
  }

  lemma StageGrows(log: seq<Start>, k: nat, p: seq<nat>, i: nat, longer: seq<Start>)
    requires k < |log| && i + 1 < |p| && i < |log[k].task.arrivals| && log <= longer && Stage(log, k, p, i)
    ensures Stage(longer, k, p, i)
  {
    assert longer[k + 1..p[i]] == log[k + 1..p[i]];
  }

  lemma PreemptibleGrows(log: seq<Start>, k: nat, longer: seq<Start>)
    requires k < |log| && log <= longer && Preemptible(log, k)
    ensures Preemptible(longer, k)
  {
    var p :| Stages(log, k, p);
    forall i | 0 <= i < |log[k].task.arrivals| ensures Stage(longer, k, p, i) {
      StageGrows(log, k, p, i, longer);
    }
    assert Stages(longer, k, p);
  }

  lemma AllGrow(from: nat, log: seq<Start>, longer: seq<Start>)
    requires log <= longer && AllPreemptible(from, log) && AllPreemptible(|log|, longer)
    ensures AllPreemptible(from, longer)
  {
    forall k | from <= k < |longer| ensures Preemptible(longer, k) {
      if k < |log| {
        assert Preemptible(log, k);
        PreemptibleGrows(log, k, longer);
      }
    }
  }

  /** The state in which arrival i of the handler of t is met, if t starts in s. */
  function At(s: State, t: Task, i: nat): (r: State)
    requires i <= |t.arrivals|
  {
    Handle(State(s.queue, t.prio, s.log + [Start(t, s.cur, s.queue)], s.peak), t.arrivals[..i])
  }

  lemma NothingEarly(s: State, t: Task, i: nat, x: Task)
    requires i <= |t.arrivals|
    ensures Started(x, At(s, t, i).log[|s.log| + 1..]) <= Occurs(x, s.queue) + Occurs(x, t.arrivals[..i])
  {
    var e := s.log + [Start(t, s.cur, s.queue)];
    HandleOnce(x, State(s.queue, t.prio, e, s.peak), t.arrivals[..i]);
    StartedAppend(x, e, At(s, t, i).log[|e|..]);
    assert At(s, t, i).log == e + At(s, t, i).log[|e|..];
  }

  lemma MetAtOnce(s: State, u: Task)
    ensures var log := Drain(Add(s, u)).log;
            && Within(s, log)
            && (u.prio < s.cur ==> |s.log| < |log| && log[|s.log|] == Start(u, s.cur, s.queue))
  {
    if u.prio < s.cur {
      RunWithin(s, u);
      assert Add(s, u).log[|s.log|] == (s.log + [Start(u, s.cur, s.queue)])[|s.log|];
    }
    DrainWithin(Add(s, u));
  }

  lemma AtNext(s: State, t: Task, i: nat)
    requires i < |t.arrivals|
    ensures At(s, t, i).cur == t.prio && At(s, t, i + 1) == Drain(Add(At(s, t, i), t.arrivals[i]))
    ensures s.log + [Start(t, s.cur, s.queue)] <= At(s, t, i).log
  {
    HandleNext(State(s.queue, t.prio, s.log + [Start(t, s.cur, s.queue)], s.peak), t.arrivals, i);
  }

  lemma RunStage(s: State, t: Task, p: seq<nat>, i: nat)
    requires i < |t.arrivals| && i + 1 < |p| && p[i] == |At(s, t, i).log| && p[i + 1] == |At(s, t, i + 1).log|
    ensures At(s, t, i + 1).log[|s.log|] == Start(t, s.cur, s.queue) && Stage(At(s, t, i + 1).log, |s.log|, p, i)
  {
    var a, log := At(s, t, i), At(s, t, i + 1).log;
    AtNext(s, t, i);
    MetAtOnce(a, t.arrivals[i]);
    assert a.log[|s.log|] == Start(t, s.cur, s.queue);
    forall x ensures Started(x, log[|s.log| + 1..p[i]]) <= Occurs(x, s.queue) + Occurs(x, t.arrivals[..i]) {
      assert log[|s.log| + 1..p[i]] == a.log[|s.log| + 1..];
      NothingEarly(s, t, i, x);
    }
  }

  lemma {:induction false} AtGrows(s: State, t: Task, i: nat)
    requires i <= |t.arrivals|
    ensures At(s, t, i).log <= Run(s, t).log
    decreases |t.arrivals| - i
  {
    var s1 := State(s.queue, t.prio, s.log + [Start(t, s.cur, s.queue)], s.peak);
    if i == |t.arrivals| {
      assert t.arrivals[..i] == t.arrivals;
    } else {
      HandleNext(s1, t.arrivals, i);
      AtGrows(s, t, i + 1);
    }
  }

  /** A task is preempted while its handler runs. */
  lemma RunPreemptible(s: State, t: Task)
    ensures Preemptible(Run(s, t).log, |s.log|)
  {
    var log := Run(s, t).log;
    var p := seq(|t.arrivals| + 1, i requires 0 <= i <= |t.arrivals| => |At(s, t, i).log|);
    forall i | 0 <= i < |t.arrivals| ensures Stage(log, |s.log|, p, i) {
      RunStage(s, t, p, i);
      AtGrows(s, t, i + 1);
      StageGrows(At(s, t, i + 1).log, |s.log|, p, i, log);
    }
    AtGrows(s, t, |t.arrivals|);
    assert t.arrivals[..0] == [];
    assert Stages(log, |s.log|, p);
  }

  lemma {:induction false} RunPreempts(s: State, t: Task)
    ensures AllPreemptible(|s.log|, Run(s, t).log)
    decreases Work(s.queue) + Size(t), 0, 0
  {
    var s1 := State(s.queue, t.prio, s.log + [Start(t, s.cur, s.queue)], s.peak);
    var s2 := Handle(s1, t.arrivals);
    HandlePreempts(s1, t.arrivals);
    DrainPreempts(s2.(cur := s.cur));
    AllGrow(|s1.log|, s2.log, Run(s, t).log);
    RunPreemptible(s, t);
  }

  lemma {:induction false} DrainPreempts(s: State)
    ensures AllPreemptible(|s.log|, Drain(s).log)
    decreases Work(s.queue), 1, 0
  {
    if s.queue != [] && s.queue[0].prio <= s.cur {
      RunPreempts(s.(queue := s.queue[1..]), s.queue[0]);
    }
  }

  lemma {:induction false} AddPreempts(s: State, t: Task)
    ensures AllPreemptible(|s.log|, Add(s, t).log)
    decreases Work(s.queue) + Size(t), 1, 0
  {
    if t.prio < s.cur {
      RunPreempts(s, t);
    }
  }

  /** Whatever starts during a burst, at every depth, is preempted by each more urgent interrupt as it arrives. */
  lemma {:induction false} HandlePreempts(s: State, ts: seq<Task>)
    ensures AllPreemptible(|s.log|, Handle(s, ts).log)
    decreases Work(s.queue) + Work(ts), 2, |ts|
  {
    if ts != [] {
      var a := Add(s, ts[0]);
      AddPreempts(s, ts[0]);
      DrainPreempts(a);
      AllGrow(|s.log|, a.log, Drain(a).log);
      HandlePreempts(Drain(a), ts[1..]);
      AllGrow(|s.log|, Drain(a).log, Handle(s, ts).log);
    }
  }

  /** The priorities of a whole forest. */
  ghost predicate Bounded(ts: seq<Task>) {
    forall t {:trigger Occurs(t, ts)} :: Occurs(t, ts) > 0 ==> t.prio <= INIT_PRIO
  }

  lemma {:induction false} OccursMember(ts: seq<Task>, t: Task)
    requires t in ts
    ensures Occurs(t, ts) > 0
  {
    if t != ts[0] {
      OccursMember(ts[1..], t);
    }
  }

  /** Any burst of interrupts on an idle machine: afterwards the queue is empty, and every task of
      the whole tree, however deeply its interrupt was nested, has started exactly once, each in turn of urgency
      and preempted by whatever more urgent arrives during its handler. */
  lemma Burst(ts: seq<Task>)
    requires Bounded(ts)
    ensures var r := Handle(State([], INIT_PRIO, [], 0), ts);
            && r.queue == [] && r.cur == INIT_PRIO && AllUrgent(r.log) && AllPreemptible(0, r.log)
            && forall x :: Started(x, r.log) == Occurs(x, ts)
  {
    var s := State([], INIT_PRIO, [], 0);
    var r := Handle(s, ts);
    forall x ensures Total(x, r) == Occurs(x, ts) {
      HandleOnce(x, s, ts);
    }
    QueueBounded(r, ts);
    HandleDiscipline(s, ts);
    HandlePreempts(s, ts);
    BurstRested(s, ts);
    RestedAtInit(r);
    forall x ensures Started(x, r.log) == Occurs(x, ts) {
      assert Total(x, r) == Occurs(x, ts);
    }
  }

  lemma QueueBounded(s: State, ts: seq<Task>)
    requires Bounded(ts) && forall x {:trigger Total(x, s)} :: Total(x, s) == Occurs(x, ts)
    ensures forall t :: t in s.queue ==> t.prio <= INIT_PRIO
  {
    forall t | t in s.queue ensures t.prio <= INIT_PRIO {
      OccursMember(s.queue, t);
      assert Total(t, s) > 0;
    }
  }

  lemma {:induction false} BurstRested(s: State, ts: seq<Task>)
    requires Rested(s) && AllUrgent(s.log)
    ensures Rested(Handle(s, ts))
    decreases |ts|
  {
    if ts != [] {
      AddDiscipline(s, ts[0]);
      DrainDiscipline(Add(s, ts[0]));
      BurstRested(Drain(Add(s, ts[0])), ts[1..]);
    }
  }
}
