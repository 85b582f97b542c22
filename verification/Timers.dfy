/**
 The software timers: a ring buffer sorted by deadline, and the comparator of the generic
 timer, which is set through its 32-bit timer-value register.
 */
module Timers {
  import opened Common
  import opened Ring

  const TWO31: nat := 0x8000_0000
  const TWO32: nat := 0x1_0000_0000

  /** A timer set at tick start to expire duration ticks later. */
  datatype Timer = Timer(start: nat, duration: nat, id: nat)

  /** The deadline as the 64-bit sum that the code compares. */
  function Deadline(t: Timer): (d: nat) {
    (t.start + t.duration) % TWO64
  }

  /** Writing v to CNTP_TVAL_EL0 sets the comparator to the count plus the sign-extended low word of v. */
  function Compare(now: nat, v: nat): (c: nat) {
    var low := v % TWO32;
    (now + (if low < TWO31 then low else low + (TWO64 - TWO32))) % TWO64
  }

  /** An interval that the 32-bit register can express. */
  predicate Expressible(v: nat) {
    v < TWO31 || TWO64 - TWO31 <= v
  }

  /** The comparator gets the intended value exactly if the interval, as a signed number, fits 32 bits. */
  lemma CompareExact(now: nat, v: nat)
    requires v < TWO64
    ensures Compare(now, v) == (now + v) % TWO64 <==> Expressible(v)
  {
    var low := v % TWO32;
    var ext := if low < TWO31 then low else low + (TWO64 - TWO32);
    assert 0 <= ext < TWO64;
    SameModulus(now, v, ext);
    assert v == ext <==> Expressible(v);
  }

  lemma SameModulus(now: nat, a: nat, b: nat)
    requires a < TWO64 && b < TWO64
    ensures (now + a) % TWO64 == (now + b) % TWO64 <==> a == b
  {
  }

  /** A timeout of two minutes at 19.2 MHz does not reach the comparator. */
  lemma LongTimeoutMisses()
    ensures Compare(0, 120 * 19_200_000) != Deadline(Timer(0, 120 * 19_200_000, 0))
  {
    CompareExact(0, 120 * 19_200_000);
  }

  /** With deadlines that fit 64 bits the first timer is the one that expires first. */
  lemma FirstIsEarliest(ts: seq<Timer>, t: Timer)
    requires Sorted(Deadline, ts) && t in ts
    requires forall u :: u in ts ==> u.start + u.duration < TWO64
    ensures ts[0].start + ts[0].duration <= t.start + t.duration
  {
    var i :| 0 <= i < |ts| && ts[i] == t;
    assert ts[0] in ts;
    assert Deadline(ts[0]) <= Deadline(ts[i]);
  }

  /** A handler that sets timers one after the other. */
  function SetAll(ts: seq<Timer>, more: seq<Timer>): (r: seq<Timer>)
    ensures |r| == |ts| + |more|
    decreases |more|
  {
    if more == [] then ts else SetAll(Inserted(Deadline, ts, more[0]), more[1..])
  }

  lemma {:induction false} SetAllKeeps(ts: seq<Timer>, more: seq<Timer>)
    requires Sorted(Deadline, ts)
    ensures Sorted(Deadline, SetAll(ts, more)) && multiset(SetAll(ts, more)) == multiset(ts) + multiset(more)
    decreases |more|
  {
    if more != [] {
      InsertedSorted(Deadline, ts, more[0]);
      InsertedMultiset(Deadline, ts, more[0]);
      SetAllKeeps(Inserted(Deadline, ts, more[0]), more[1..]);
      assert more == [more[0]] + more[1..];
    }
  }

  // ----- the queue and the comparator

  /** The timers in order, the comparator, and how many ticks passed between reading the counter and writing the
      register the last time. */
  datatype Clock = Clock(ts: seq<Timer>, cval: nat, late: nat)

  /** The comparator holds the deadline of the first timer, late by the delay of the last write. */
  ghost predicate Armed(c: Clock) {
    c.ts != [] ==> c.cval == (Deadline(c.ts[0]) + c.late) % TWO64
  }

  /** The new timer comes first. */
  predicate ComesFirst(ts: seq<Timer>, t: Timer) {
    ts == [] || Deadline(t) < Deadline(ts[0])
  }

  /** add_timer, with the register written late ticks after the counter was read. */
  function AfterSet(c: Clock, t: Timer, late: nat): (r: Clock) {
    var ts := Inserted(Deadline, c.ts, t);
    if ComesFirst(c.ts, t) then Clock(ts, Compare(t.start + late, t.duration), late) else c.(ts := ts)
  }

  /** What process_timer does after the handler, at tick now. */
  function AfterRearm(c: Clock, now: nat, late: nat): (r: Clock) {
    if c.ts == [] then c else Clock(c.ts, Compare(now + late, Ahead(c.ts[0], now)), late)
  }

  /** The interval to the deadline, as a 64-bit number. */
  function Ahead(t: Timer, now: nat): (v: nat)
    ensures v < TWO64
  {
    (Deadline(t) - now) % TWO64
  }

  /** The timer that expires leaves, the handler sets more, and the comparator is written for the next. */
  function AfterFire(c: Clock, more: seq<Timer>, now: nat, late: nat): (r: Clock)
    requires c.ts != []
  {
    AfterRearm(c.(ts := SetAll(c.ts[1..], more)), now, late)
  }

  lemma {:induction false} InsertedFirst(ts: seq<Timer>, t: Timer)
    requires Sorted(Deadline, ts)
    ensures Inserted(Deadline, ts, t)[0] == if ComesFirst(ts, t) then t else ts[0]
  {
    if ts != [] && Deadline(ts[|ts| - 1]) > Deadline(t) {
      InsertedFirst(ts[..|ts| - 1], t);
    } else if ts != [] {
      assert Deadline(ts[0]) <= Deadline(ts[|ts| - 1]);
    }
  }

  lemma FrontIs(ts: seq<Timer>, t: Timer)
    requires Sorted(Deadline, ts)
    ensures ComesFirst(ts, t) <==> forall i {:trigger ts[i]} :: 0 <= i < |ts| ==> Deadline(ts[i]) > Deadline(t)
  {
    forall i | 0 <= i < |ts| ensures Deadline(ts[0]) <= Deadline(ts[i]) {
    }
  }

  /** A new timer keeps the comparator right, and one that comes first does so exactly if its duration can be
      expressed. */
  lemma SetArms(c: Clock, t: Timer, late: nat)
    requires Sorted(Deadline, c.ts) && t.duration < TWO64
    ensures Sorted(Deadline, AfterSet(c, t, late).ts)
    ensures ComesFirst(c.ts, t) ==> (Armed(AfterSet(c, t, late)) <==> Expressible(t.duration))
    ensures !ComesFirst(c.ts, t) ==> (Armed(AfterSet(c, t, late)) <==> Armed(c))
  {
    InsertedSorted(Deadline, c.ts, t);
    InsertedFirst(c.ts, t);
    CompareExact(t.start + late, t.duration);
    Delayed(t.start + t.duration, late);
  }

  /** Writing the register for the first timer arms the comparator exactly if the interval can be expressed. */
  lemma RearmArms(c: Clock, now: nat, late: nat)
    requires c.ts != []
    ensures Armed(AfterRearm(c, now, late)) <==> Expressible(Ahead(c.ts[0], now))
  {
    var t := c.ts[0];
    CompareExact(now + late, Ahead(t, now));
    Rewind(now, Deadline(t));
    Delayed(now + Ahead(t, now), late);
  }

  // ----- runs

  /** The duration as a signed number. */
  function Signed(v: nat): (d: int) {
    if v < TWO63 then v else v - TWO64
  }

  /** By how many ticks the timer is overdue; negative if it is still to come. */
  function Overdue(t: Timer, now: nat): (d: int) {
    now - t.start - Signed(t.duration)
  }

  /** An expressible timer that was set before now can be armed for exactly if it is overdue by at most 2^31 ticks. */
  lemma OverdueExact(t: Timer, now: nat)
    requires t.start <= now < t.start + TWO63 && t.duration < TWO64 && Expressible(t.duration)
    ensures Expressible(Ahead(t, now)) <==> Overdue(t, now) <= TWO31
  {
    var d := Overdue(t, now);
    assert 0 < d + TWO31 && d <= TWO63 + TWO31;
    AheadIs(t, now);
  }

  lemma AheadIs(t: Timer, now: nat)
    requires t.duration < TWO64 && 0 < Overdue(t, now) + TWO64 && Overdue(t, now) <= TWO64
    ensures Ahead(t, now) == if Overdue(t, now) <= 0 then -Overdue(t, now) else TWO64 - Overdue(t, now)
  {
    var d := Overdue(t, now);
    assert (t.start + t.duration - now) % TWO64 == (-d) % TWO64;
    ModMinus(t.start + t.duration, now);
  }

  lemma ModMinus(x: nat, y: nat)
    ensures (x % TWO64 - y) % TWO64 == (x - y) % TWO64
  {
  }

  datatype Event = Set(t: Timer, late: nat) | Fire(more: seq<Timer>, now: nat, late: nat)

  /** When the event reads the counter for the last time. */
  function Time(e: Event): (now: nat) {
    match e
    case Set(t, _) => t.start
    case Fire(_, now, _) => now
  }

  ghost predicate CanSet(t: Timer, since: nat, now: nat) {
    since <= t.start <= now < t.start + TWO63 && t.duration < TWO64 && Expressible(t.duration)
  }

  /** Timers have expressible durations, time does not run backwards, a timer fires only if there is one, and the next
      one is not overdue by more than 2^31 ticks then. */
  ghost predicate Enabled(c: Clock, since: nat, e: Event) {
    match e
    case Set(t, _) => CanSet(t, since, t.start)
    case Fire(more, now, _) =>
      && since <= now && c.ts != [] && (forall i {:trigger more[i]} :: 0 <= i < |more| ==> CanSet(more[i], since, now))
      && var ts := SetAll(c.ts[1..], more); ts != [] ==> now < ts[0].start + TWO63 && Overdue(ts[0], now) <= TWO31
  }

  function After(c: Clock, e: Event): (r: Clock) {
    match e
    case Set(t, late) => AfterSet(c, t, late)
    case Fire(more, now, late) => if c.ts == [] then c else AfterFire(c, more, now, late)
  }

  /** Sorted timers that were set before now with expressible durations, and the first one is armed. */
  ghost predicate Good(c: Clock, now: nat) {
    && Sorted(Deadline, c.ts) && Armed(c)
    && forall t {:trigger t in c.ts} :: t in c.ts ==> t.start <= now && t.duration < TWO64 && Expressible(t.duration)
  }

  lemma SetGood(c: Clock, since: nat, t: Timer, late: nat)
    requires Good(c, since) && CanSet(t, since, t.start)
    ensures Good(AfterSet(c, t, late), t.start)
  {
    SetArms(c, t, late);
    forall u | u in Inserted(Deadline, c.ts, t)
      ensures u.start <= t.start && u.duration < TWO64 && Expressible(u.duration)
    {
      InsertedMember(Deadline, c.ts, t, u);
    }
  }

  lemma FireGood(c: Clock, since: nat, more: seq<Timer>, now: nat, late: nat)
    requires Good(c, since) && Enabled(c, since, Fire(more, now, late))
    ensures Good(AfterFire(c, more, now, late), now)
  {
    var ts := SetAll(c.ts[1..], more);
    SetAllKeeps(c.ts[1..], more);
    forall u | u in ts ensures u.start <= now && u.duration < TWO64 && Expressible(u.duration) {
      SetAllMember(c.ts[1..], more, u);
      MemberGood(c, since, more, now, u);
    }
    if ts != [] {
      assert ts[0] in ts;
      OverdueExact(ts[0], now);
      RearmArms(c.(ts := ts), now, late);
    }
  }

  lemma SetAllMember(ts: seq<Timer>, more: seq<Timer>, u: Timer)
    requires Sorted(Deadline, ts) && u in SetAll(ts, more)
    ensures u in ts || u in more
  {
    SetAllKeeps(ts, more);
    assert u in multiset(SetAll(ts, more));
  }

  lemma MemberGood(c: Clock, since: nat, more: seq<Timer>, now: nat, u: Timer)
    requires Good(c, since) && c.ts != [] && since <= now && (u in c.ts[1..] || u in more)
    requires forall i {:trigger more[i]} :: 0 <= i < |more| ==> CanSet(more[i], since, now)
    ensures u.start <= now && u.duration < TWO64 && Expressible(u.duration)
  {
    if u in more {
      var i :| 0 <= i < |more| && more[i] == u;
    } else {
      assert u in c.ts;
    }
  }

  ghost predicate Goes(cs: seq<Clock>, es: seq<Event>, i: nat) {
    i < |es| && i + 1 < |cs| && Enabled(cs[i], Since(es, i), es[i]) && cs[i + 1] == After(cs[i], es[i])
  }

  function Since(es: seq<Event>, i: nat): (now: nat)
    requires i <= |es|
  {
    if i == 0 then 0 else Time(es[i - 1])
  }

  /** A run from an empty queue. */
  ghost predicate IsRun(cs: seq<Clock>, es: seq<Event>) {
    |cs| == |es| + 1 && cs[0].ts == [] && forall i {:trigger Goes(cs, es, i)} :: 0 <= i < |es| ==> Goes(cs, es, i)
  }

  lemma {:induction false} RunGood(cs: seq<Clock>, es: seq<Event>, n: nat)
    requires IsRun(cs, es) && n <= |es|
    ensures Good(cs[n], Since(es, n))
  {
    if n > 0 {
      RunGood(cs, es, n - 1);
      assert Goes(cs, es, n - 1);
      match es[n - 1] {
        case Set(t, late) => SetGood(cs[n - 1], Since(es, n - 1), t, late);
        case Fire(more, now, late) => FireGood(cs[n - 1], Since(es, n - 1), more, now, late);
      }
    }
  }

  /** In every state of every run, the comparator of a non-empty queue holds the earliest of all deadlines, late by the
      delay of the last write. */
  lemma AlwaysArmed(cs: seq<Clock>, es: seq<Event>, n: nat, t: Timer)
    requires IsRun(cs, es) && n <= |es| && t in cs[n].ts
    ensures cs[n].cval == (Deadline(cs[n].ts[0]) + cs[n].late) % TWO64 && Deadline(cs[n].ts[0]) <= Deadline(t)
  {
    RunGood(cs, es, n);
    var i :| 0 <= i < |cs[n].ts| && cs[n].ts[i] == t;
    assert Deadline(cs[n].ts[0]) <= Deadline(cs[n].ts[i]);
  }

  class Queue {
    const ring: Buffer<Timer>
    var cval: nat          // CNTP_CVAL_EL0
    ghost var late: nat    // the delay of the last write to it

    ghost predicate Valid()
      reads this, ring, ring.buf
    {
      ring.Valid() && ring.key == Deadline && Sorted(Deadline, ring.Contents())
    }

    ghost function Abs(): (c: Clock)
      requires Valid()
      reads this, ring, ring.buf
    {
      Clock(ring.Contents(), cval, late)
    }

    constructor ()
      ensures Valid() && ring.Contents() == [] && fresh(ring) && fresh(ring.buf)
    {
      ring := new Buffer(Deadline, Timer(0, 0, 0));
      cval, late := 0, 0;
    }

    /** add_timer, which reads the counter at tick now and may write the register late ticks later: a timer that comes
        first reprograms the comparator, any other leaves it alone. */
    method AddTimer(now: nat, late: nat, duration: nat, id: nat)
      requires Valid() && !ring.Full() && duration < TWO64
      modifies this, ring, ring.buf
      ensures Valid() && Abs() == AfterSet(old(Abs()), Timer(now, duration, id), late)
      ensures ComesFirst(old(ring.Contents()), Timer(now, duration, id)) ==> (Armed(Abs()) <==> Expressible(duration))
      ensures !ComesFirst(old(ring.Contents()), Timer(now, duration, id)) ==> (Armed(Abs()) <==> Armed(old(Abs())))
    {
      var t := Timer(now, duration, id);
      ghost var c := Abs();
      SetArms(c, t, late);
      FrontIs(c.ts, t);
      var front := ring.Insert(t);
      if front {
        cval := Compare(now + late, duration);
        this.late := late;
      }
    }

    /** The rest of process_timer, which reads the counter at tick now and writes the register late ticks later: arm the
        comparator for the next timer. */
    method Rearm(now: nat, late: nat)
      requires Valid()
      modifies this`cval, this`late
      ensures Valid() && Abs() == AfterRearm(old(Abs()), now, late)
      ensures ring.Contents() != [] ==> (Armed(Abs()) <==> Expressible(Ahead(ring.Contents()[0], now)))
    {
      if !ring.Empty() {
        RearmArms(Abs(), now, late);
        var next := ring.buf[ring.consumer];
        cval := Compare(now + late, (Deadline(next) - now) % TWO64);
        this.late := late;
      }
    }

    /** The calls of add_timer that a handler makes. */
    method SetTimers(more: seq<Timer>)
      requires Valid() && |ring.Contents()| + |more| < BUFLEN && forall u :: u in more ==> u.duration < TWO64
      modifies this, ring, ring.buf
      ensures Valid() && ring.Contents() == SetAll(old(ring.Contents()), more)
      ensures more == [] ==> cval == old(cval) && late == old(late)
      decreases |more|
    {
      if more != [] {
        var delay: nat := *;
        AddTimer(more[0].start, delay, more[0].duration, more[0].id);
        SetTimers(more[1..]);
      }
    }

    /** timer_int and process_timer: the first timer leaves, its handler sets more, and the comparator is armed for the
        next. */
    method Expire(more: seq<Timer>, now: nat, late: nat) returns (t: Timer)
      requires Valid() && !ring.Empty() && |ring.Contents()| + |more| <= BUFLEN
      requires forall u :: u in more ==> u.duration < TWO64
      modifies this, ring, ring.buf
      ensures Valid() && t == old(ring.Contents())[0] && Abs() == AfterFire(old(Abs()), more, now, late)
      ensures ring.Contents() != [] ==> (Armed(Abs()) <==> Expressible(Ahead(ring.Contents()[0], now)))
    {
      ghost var s := ring.Contents();
      t := ring.Consume();
      assert ring.Contents() == s[1..];
      SetTimers(more);
      Rearm(now, late);
    }
  }

  lemma Delayed(x: nat, late: nat)
    ensures (x % TWO64 + late) % TWO64 == (x + late) % TWO64
  {
  }

  lemma Rewind(now: nat, d: nat)
    requires d < TWO64
    ensures (now + (d - now) % TWO64) % TWO64 == d
  {
  }
}
