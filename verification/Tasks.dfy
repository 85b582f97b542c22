/**
 The task queue of the interrupt handlers: add_task and process_task over the ring buffer,
 proved to do what the functions on values say.
 */
module Tasks {
  import opened Common
  import opened Ring
  import opened TaskRuns

  /** The state after process_task with this argument. */
  function Processed(s: State, task: Option<Task>): (r: State) {
    match task
    case None => Drain(s)
    case Some(t) => Run(s, t)
  }

  function Pending(s: State, task: Option<Task>): (n: nat) {
    match task
    case None => Work(s.queue)
    case Some(t) => Work(s.queue) + Size(t)
  }

  class Queue {
    const ring: Buffer<Task>
    var cur: nat
    ghost var log: seq<Start>
    ghost var peak: nat

    ghost predicate Valid()
      reads this, ring
    {
      ring.Valid() && ring.key == Prio
    }

    ghost function Abs(): (s: State)
      requires Valid()
      reads this, ring, ring.buf
    {
      State(ring.Contents(), cur, log, peak)
    }

    constructor ()
      ensures Valid() && Abs() == State([], INIT_PRIO, [], 0) && fresh(ring) && fresh(ring.buf)
    {
      ring := new Buffer(Prio, Task(0, 0, []));
      cur, log, peak := INIT_PRIO, [], 0;
    }

    /** add_task: run at once what is more urgent, queue the rest. The queue must never need more than 511 places. */
    method AddTask(t: Task)
      requires Valid() && Add(Abs(), t).peak < BUFLEN
      modifies this, ring, ring.buf
      ensures Valid() && Abs() == old(Add(Abs(), t))
      decreases Work(Abs().queue) + Size(t), 1, 0
    {
      if t.prio < cur {
        ProcessTask(Some(t));
      } else {
        peak := Max(peak, |ring.Contents()| + 1);
        var front := ring.Insert(t);
      }
    }

    /** process_task: a given task, or the head of the queue if it is urgent enough. */
    method ProcessTask(task: Option<Task>)
      requires Valid() && Processed(Abs(), task).peak < BUFLEN
      modifies this, ring, ring.buf
      ensures Valid() && Abs() == old(Processed(Abs(), task))
      decreases Pending(Abs(), task), if task == None then 1 else 0, 0
    {
      var tmp := cur;
      var element: Task;
      ghost var s := Abs();
      if task != None {
        element := task.value;
      } else {
        if ring.Empty() || cur < ring.buf[ring.consumer].prio {
          return;
        }
        element := ring.Consume();
        s := Abs();
      }
      assert Processed(old(Abs()), task) == Run(s, element);
      log := log + [Start(element, cur, ring.Contents())];
      cur := element.prio;
      Handler(element.arrivals);
      cur := tmp;
      ProcessTask(None);
    }

    /** A handler, as far as other tasks see it: the interrupts that arrive while it runs. */
    method Handler(ts: seq<Task>)
      requires Valid() && Handle(Abs(), ts).peak < BUFLEN
      modifies this, ring, ring.buf
      ensures Valid() && Abs() == old(Handle(Abs(), ts))
      decreases Work(Abs().queue) + Work(ts), 2, |ts|
    {
      if ts != [] {
        AddTask(ts[0]);
        ProcessTask(None);
        Handler(ts[1..]);
      }
    }
  }
}
