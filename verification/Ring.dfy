/**
 The fixed-size ring buffer, and sorted insertion into it: a new element is produced at the
 end and swapped backwards, across the wrap point if need be, past every later key.
 */
module Ring {
  const BUFLEN: nat := 512

  /** The slot of the i-th element when the first one is in slot c. */
  function Slot(c: nat, i: nat): (k: nat)
    requires c < BUFLEN && i < BUFLEN
    ensures k < BUFLEN
  {
    if c + i < BUFLEN then c + i else c + i - BUFLEN
  }

  /** The n elements of a ring from slot c on. */
  function Unrolled<T>(buf: seq<T>, c: nat, n: nat): (s: seq<T>)
    requires |buf| == BUFLEN && c < BUFLEN && n < BUFLEN
    ensures |s| == n && forall i {:trigger s[i]} :: 0 <= i < n ==> s[i] == buf[Slot(c, i)]
  {
    seq(n, i requires 0 <= i < n => buf[Slot(c, i)])
  }

  lemma SlotsDiffer(c: nat, i: nat, j: nat)
    requires c < BUFLEN && i < BUFLEN && j < BUFLEN && i != j
    ensures Slot(c, i) != Slot(c, j)
  {
  }

  // ----- sorted insertion

  ghost predicate Sorted<T(!new)>(key: T -> nat, s: seq<T>) {
    forall i, j {:trigger s[i], s[j]} :: 0 <= i <= j < |s| ==> key(s[i]) <= key(s[j])
  }

  /** Insert x behind every element whose key is not larger, looking from the end. */
  function Inserted<T>(key: T -> nat, s: seq<T>, x: T): (r: seq<T>)
    ensures |r| == |s| + 1
  {
    if s == [] || key(s[|s| - 1]) <= key(x) then s + [x]
    else Inserted(key, s[..|s| - 1], x) + [s[|s| - 1]]
  }

  /** The elements with key k, in order. */
  function WithKey<T>(key: T -> nat, s: seq<T>, k: nat): (r: seq<T>) {
    if s == [] then []
    else WithKey(key, s[..|s| - 1], k) + if key(s[|s| - 1]) == k then [s[|s| - 1]] else []
  }

  lemma {:induction false} InsertedMultiset<T>(key: T -> nat, s: seq<T>, x: T)
    ensures multiset(Inserted(key, s, x)) == multiset(s) + multiset{x}
  {
    if s != [] && key(s[|s| - 1]) > key(x) {
      InsertedMultiset(key, s[..|s| - 1], x);
      assert s == s[..|s| - 1] + [s[|s| - 1]];
    }
  }

  lemma InsertedMember<T>(key: T -> nat, s: seq<T>, x: T, y: T)
    ensures y in Inserted(key, s, x) <==> y == x || y in s
  {
    InsertedMultiset(key, s, x);
    assert y in Inserted(key, s, x) <==> y in multiset(Inserted(key, s, x));
  }

  lemma AppendSorted<T(!new)>(key: T -> nat, s: seq<T>, x: T)
    requires Sorted(key, s) && forall y :: y in s ==> key(y) <= key(x)
    ensures Sorted(key, s + [x])
  {
    assert forall i {:trigger s[i]} :: 0 <= i < |s| ==> s[i] in s;
  }

  lemma {:induction false} InsertedSorted<T(!new)>(key: T -> nat, s: seq<T>, x: T)
    requires Sorted(key, s)
    ensures Sorted(key, Inserted(key, s, x))
  {
    if s == [] || key(s[|s| - 1]) <= key(x) {
      AppendSorted(key, s, x);
    } else {
      var front, last := s[..|s| - 1], s[|s| - 1];
      InsertedSorted(key, front, x);
      forall y | y in Inserted(key, front, x) ensures key(y) <= key(last) {
        InsertedMember(key, front, x, y);
      }
      AppendSorted(key, Inserted(key, front, x), last);
    }
  }

  /** First come, first served: among equal keys the new element is last and the others keep their order. */
  lemma {:induction false} InsertedStable<T>(key: T -> nat, s: seq<T>, x: T, k: nat)
    requires forall i, j {:trigger s[i], s[j]} :: 0 <= i <= j < |s| ==> key(s[i]) <= key(s[j])
    ensures WithKey(key, Inserted(key, s, x), k) == WithKey(key, s, k) + if key(x) == k then [x] else []
  {
    var r := Inserted(key, s, x);
    if s == [] || key(s[|s| - 1]) <= key(x) {
      assert r[..|r| - 1] == s;
    } else {
      var front, last := s[..|s| - 1], s[|s| - 1];
      InsertedStable(key, front, x, k);
      assert r[..|r| - 1] == Inserted(key, front, x);
      if key(last) == k {
        assert key(x) < k;
      }
    }
  }

  /** How far the backward search has come: x sits before position j, and everything from there on has a larger key. */
  lemma {:induction false} InsertedAt<T>(key: T -> nat, s: seq<T>, x: T, j: nat)
    requires j <= |s| && (forall i {:trigger s[i]} :: j <= i < |s| ==> key(s[i]) > key(x))
    requires j == 0 || key(s[j - 1]) <= key(x)
    ensures Inserted(key, s, x) == s[..j] + [x] + s[j..]
    decreases |s|
  {
    if j < |s| {
      var front := s[..|s| - 1];
      InsertedAt(key, front, x, j);
      assert front[..j] == s[..j] && front[j..] + [s[|s| - 1]] == s[j..];
    }
  }

  lemma SwapBack<T>(s: seq<T>, x: T, j: nat)
    requires 0 < j <= |s|
    ensures var r := s[..j] + [x] + s[j..]; r[j := r[j - 1]][j - 1 := r[j]] == s[..j - 1] + [x] + s[j - 1..]
  {
  }

  lemma Before(c: nat, j: nat, idx: nat)
    requires c < BUFLEN && j < BUFLEN && idx == Slot(c, j)
    ensures idx == c <==> j == 0
    ensures j > 0 ==> (idx + BUFLEN - 1) % BUFLEN == Slot(c, j - 1) == if idx == 0 then BUFLEN - 1 else idx - 1
  {
  }

  /** The ring: elements from consumer up to producer, one slot always unused. */
  class Buffer<T> {
    const key: T -> nat
    const buf: array<T>
    var producer: nat
    var consumer: nat

    ghost predicate Valid()
      reads this
    {
      buf.Length == BUFLEN && producer < BUFLEN && consumer < BUFLEN
    }

    /** ring_buf_num_e */
    function Count(): (n: nat)
      requires Valid()
      reads this
      ensures n < BUFLEN && producer == Slot(consumer, n)
    {
      (producer - consumer + BUFLEN) % BUFLEN
    }

    ghost function Contents(): (s: seq<T>)
      requires Valid()
      reads this, buf
    {
      Unrolled(buf[..], consumer, Count())
    }

    constructor (key: T -> nat, init: T)
      ensures Valid() && fresh(buf) && Contents() == [] && this.key == key
    {
      this.key := key;
      buf := new T[BUFLEN](_ => init);
      producer, consumer := 0, 0;
    }

    /** ring_buf_full: one slot is given up to tell full from empty. */
    predicate Full()
      requires Valid()
      reads this
      ensures Full() <==> Count() == BUFLEN - 1
    {
      (producer + 1) % BUFLEN == consumer
    }

    predicate Empty()
      requires Valid()
      reads this
      ensures Empty() <==> Count() == 0
    {
      producer == consumer
    }

    /** ring_buf_produce, once there is room. */
    method Produce(x: T)
      requires Valid() && !Full()
      modifies this`producer, buf
      ensures Valid() && Contents() == old(Contents()) + [x] && producer == Slot(consumer, |old(Contents())| + 1)
    {
      ghost var s := Contents();
      buf[producer] := x;
      producer := (producer + 1) % BUFLEN;
      assert Count() == |s| + 1;
      forall i | 0 <= i < |s| ensures Contents()[i] == s[i] {
        SlotsDiffer(consumer, i, |s|);
      }
    }

    /** ring_buf_consume, once there is something. */
    method Consume() returns (x: T)
      requires Valid() && !Empty()
      modifies this`consumer
      ensures Valid() && old(Contents()) == [x] + Contents()
    {
      ghost var s := Contents();
      x := buf[consumer];
      consumer := (consumer + 1) % BUFLEN;
      assert |s| == Count() + 1;
    }

    /** Exchange the elements at positions j - 1 and j. */
    method Swap(idx: nat, cmp: nat, ghost j: nat)
      requires Valid() && 0 < j < Count() && idx == Slot(consumer, j) && cmp == Slot(consumer, j - 1)
      modifies buf
      ensures Contents() == old(Contents())[j := old(Contents())[j - 1]][j - 1 := old(Contents())[j]]
    {
      var tmp := buf[idx];
      buf[idx] := buf[cmp];
      buf[cmp] := tmp;
      forall i | 0 <= i < Count() && i != j && i != j - 1
        ensures buf[Slot(consumer, i)] == old(buf[Slot(consumer, i)]) {
        SlotsDiffer(consumer, i, j);
        SlotsDiffer(consumer, i, j - 1);
      }
    }

    /** Swap the newest element x backwards, past every larger key; it ends at position j. */
    method Sift(x: T, start: nat, ghost s: seq<T>) returns (idx: nat, ghost j: nat)
      requires Valid() && Count() == |s| + 1 && start == Slot(consumer, |s|) && Contents() == s + [x]
      modifies buf
      ensures Valid() && j <= |s| && idx == Slot(consumer, j) && Contents() == s[..j] + [x] + s[j..]
      ensures forall i {:trigger s[i]} :: j <= i < |s| ==> key(s[i]) > key(x)
      ensures j > 0 ==> key(s[j - 1]) <= key(x)
    {
      idx, j := start, |s|;
      Before(consumer, j, idx);
      while idx != consumer && key(x) < key(buf[(idx + BUFLEN - 1) % BUFLEN])
        invariant j <= |s| && Count() == |s| + 1 && idx == Slot(consumer, j)
        invariant Contents() == s[..j] + [x] + s[j..]
        invariant forall i {:trigger s[i]} :: j <= i < |s| ==> key(s[i]) > key(x)
        decreases j
      {
        Before(consumer, j, idx);
        var cmp := (idx + BUFLEN - 1) % BUFLEN;
        assert Contents()[j - 1] == s[j - 1];
        SwapBack(s, x, j);
        Swap(idx, cmp, j);
        if idx == 0 {
          idx := idx + BUFLEN;
        }
        idx := idx - 1;
        j := j - 1;
      }
      Before(consumer, j, idx);
      assert j > 0 ==> Contents()[j - 1] == s[j - 1];
    }

    /** The queueing part of add_task and add_timer; front tells whether the new element came out first. */
    method Insert(x: T) returns (front: bool)
      requires Valid() && !Full()
      modifies this`producer, buf
      ensures Valid() && Contents() == Inserted(key, old(Contents()), x)
      ensures front <==> forall i {:trigger old(Contents())[i]} :: 0 <= i < |old(Contents())| ==>
                           key(old(Contents())[i]) > key(x)
      ensures front ==> Contents()[0] == x
      ensures !front ==> old(Contents()) != [] && Contents()[0] == old(Contents())[0]
    {
      ghost var s := Contents();
      var idx := producer;
      Produce(x);
      ghost var j;
      idx, j := Sift(x, idx, s);
      Before(consumer, j, idx);
      front := idx == consumer;
      InsertedAt(key, s, x, j);
    }
  }
}
