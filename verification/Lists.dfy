/**
 The kernel's doubly linked list. Nodes live in a store under the addresses that the memory
 allocator gave them; a list spells out a sequence, forwards and backwards.
 */
module Lists {
  import opened Common

  datatype Node = Node(ptr: nat, prev: Link, next: Link)

  ghost predicate Linked(l: seq<nat>, ns: map<nat, Node>, i: nat)
    requires i < |l|
  {
    l[i] in ns && ns[l[i]].prev == LinkTo(l, i - 1) && ns[l[i]].next == LinkTo(l, i + 1)
  }

  /** Head, tail and node links spell out the node addresses l, which are all the nodes there are. */
  ghost predicate Spells(l: seq<nat>, head: Link, tail: Link, ns: map<nat, Node>) {
    && head == LinkTo(l, 0) && tail == LinkTo(l, |l| - 1)
    && (forall i {:trigger l[i]} :: 0 <= i < |l| ==> l[i] in ns)
    && (forall i {:trigger Linked(l, ns, i)} :: 0 <= i < |l| ==> Linked(l, ns, i))
    && Distinct(l)
    && (forall a {:trigger a in ns} :: a in ns ==> a in l)
  }

  ghost function Values(l: seq<nat>, ns: map<nat, Node>): (s: seq<nat>)
    requires forall i {:trigger l[i]} :: 0 <= i < |l| ==> l[i] in ns
    ensures |s| == |l| && forall i {:trigger s[i]} :: 0 <= i < |l| ==> s[i] == ns[l[i]].ptr
  {
    seq(|l|, i requires 0 <= i < |l| => ns[l[i]].ptr)
  }

  function Unlinked(ns: map<nat, Node>, a: nat): (r: map<nat, Node>)
    requires a in ns && (ns[a].prev.At? ==> ns[a].prev.idx in ns) && (ns[a].next.At? ==> ns[a].next.idx in ns)
  {
    var nd := ns[a];
    var b := if nd.prev.At? then ns[nd.prev.idx := ns[nd.prev.idx].(next := nd.next)] else ns;
    var c := if nd.next.At? then b[nd.next.idx := b[nd.next.idx].(prev := nd.prev)] else b;
    c - {a}
  }

  lemma Neighbours(l: seq<nat>, head: Link, tail: Link, ns: map<nat, Node>, i: nat)
    requires Spells(l, head, tail, ns) && i < |l|
    ensures l[i] in ns && ns[l[i]].prev == LinkTo(l, i - 1) && ns[l[i]].next == LinkTo(l, i + 1)
    ensures ns[l[i]].prev.At? ==> i > 0 && ns[l[i]].prev.idx == l[i - 1] && l[i - 1] in ns
    ensures ns[l[i]].next.At? ==> i + 1 < |l| && ns[l[i]].next.idx == l[i + 1] && l[i + 1] in ns
  {
    assert Linked(l, ns, i);
    assert i > 0 ==> Linked(l, ns, i - 1);
    assert i + 1 < |l| ==> Linked(l, ns, i + 1);
  }

  lemma UnlinkedAt(l: seq<nat>, head: Link, tail: Link, ns: map<nat, Node>, i: nat, k: nat)
    requires Spells(l, head, tail, ns) && i < |l| && k < |l| && k != i
    requires l[i] in ns && (ns[l[i]].prev.At? ==> ns[l[i]].prev.idx in ns)
             && (ns[l[i]].next.At? ==> ns[l[i]].next.idx in ns)
    ensures l[k] in Unlinked(ns, l[i])
    ensures Unlinked(ns, l[i])[l[k]] == Node(ns[l[k]].ptr, if k == i + 1 then LinkTo(l, i - 1) else LinkTo(l, k - 1),
                                             if k == i - 1 then LinkTo(l, i + 1) else LinkTo(l, k + 1))
  {
    Neighbours(l, head, tail, ns, i);
    Neighbours(l, head, tail, ns, k);
    assert l[k] != l[i];
    assert i > 0 && k != i - 1 ==> l[k] != l[i - 1];
    assert i + 1 < |l| && k != i + 1 ==> l[k] != l[i + 1];
  }

  lemma UnlinkedMember(l: seq<nat>, head: Link, tail: Link, ns: map<nat, Node>, i: nat, j: nat)
    requires Spells(l, head, tail, ns) && i < |l| && j < |l| - 1
    requires l[i] in ns && (ns[l[i]].prev.At? ==> ns[l[i]].prev.idx in ns)
             && (ns[l[i]].next.At? ==> ns[l[i]].next.idx in ns)
    ensures Linked(Remove(l, i), Unlinked(ns, l[i]), j)
    ensures Unlinked(ns, l[i])[Remove(l, i)[j]].ptr == ns[l[Was(i, j)]].ptr
  {
    UnlinkedAt(l, head, tail, ns, i, Was(i, j));
    RemoveLinks(l, i, j);
  }

  /** Removing a node by joining its neighbours removes its place from the sequence. */
  lemma UnlinkSpells(l: seq<nat>, head: Link, tail: Link, ns: map<nat, Node>, i: nat)
    requires Spells(l, head, tail, ns) && i < |l|
    ensures l[i] in ns && (ns[l[i]].prev.At? ==> ns[l[i]].prev.idx in ns)
            && (ns[l[i]].next.At? ==> ns[l[i]].next.idx in ns)
    ensures var nd := ns[l[i]];
            Spells(Remove(l, i), if nd.prev.At? then head else nd.next, if nd.next.At? then tail else nd.prev,
              Unlinked(ns, l[i]))
  {
    var r := Remove(l, i);
    Neighbours(l, head, tail, ns, i);
    var ns' := Unlinked(ns, l[i]);
    forall j | 0 <= j < |r| ensures Linked(r, ns', j) {
      UnlinkedMember(l, head, tail, ns, i, j);
    }
    forall j | 0 <= j < |r| ensures r[j] in ns' {
      assert Linked(r, ns', j);
    }
    RemoveDistinct(l, i);
  }

  lemma UnlinkValues(l: seq<nat>, head: Link, tail: Link, ns: map<nat, Node>, i: nat)
    requires Spells(l, head, tail, ns) && i < |l|
    requires l[i] in ns && (ns[l[i]].prev.At? ==> ns[l[i]].prev.idx in ns)
             && (ns[l[i]].next.At? ==> ns[l[i]].next.idx in ns)
    requires forall j {:trigger Remove(l, i)[j]} :: 0 <= j < |Remove(l, i)| ==> Remove(l, i)[j] in Unlinked(ns, l[i])
    ensures Values(Remove(l, i), Unlinked(ns, l[i])) == Remove(Values(l, ns), i)
  {
    var r, v := Values(Remove(l, i), Unlinked(ns, l[i])), Values(l, ns);
    forall j | 0 <= j < |r| ensures r[j] == Remove(v, i)[j] {
      UnlinkedMember(l, head, tail, ns, i, j);
      RemoveLinks(v, i, j);
    }
  }

  function Appended(ns: map<nat, Node>, tail: Link, a: nat, x: nat): (r: map<nat, Node>)
    requires tail.At? ==> tail.idx in ns
  {
    var b := if tail.At? then ns[tail.idx := ns[tail.idx].(next := At(a))] else ns;
    b[a := Node(x, tail, Null)]
  }

  lemma AppendedAt(l: seq<nat>, head: Link, tail: Link, ns: map<nat, Node>, a: nat, x: nat, j: nat)
    requires Spells(l, head, tail, ns) && a !in ns && (tail.At? ==> tail.idx in ns) && j < |l| + 1
    ensures Linked(l + [a], Appended(ns, tail, a, x), j)
    ensures j < |l| ==> Appended(ns, tail, a, x)[l[j]].ptr == ns[l[j]].ptr
  {
    assert j < |l| ==> Linked(l, ns, j);
    if j < |l| - 1 {
      assert l[j] != l[|l| - 1];
    }
  }

  lemma AppendSpells(l: seq<nat>, head: Link, tail: Link, ns: map<nat, Node>, a: nat, x: nat)
    requires Spells(l, head, tail, ns) && a !in ns
    ensures tail.At? ==> tail.idx in ns
    ensures Spells(l + [a], if tail.At? then head else At(a), At(a), Appended(ns, tail, a, x))
  {
    var r, ns' := l + [a], Appended(ns, tail, a, x);
    forall j | 0 <= j < |r| ensures Linked(r, ns', j) {
      AppendedAt(l, head, tail, ns, a, x, j);
    }
    forall j | 0 <= j < |r| ensures r[j] in ns' {
      assert Linked(r, ns', j);
    }
    forall b | b in ns' ensures b in r {
      assert b == a || b in l;
    }
  }

  lemma AppendValues(l: seq<nat>, head: Link, tail: Link, ns: map<nat, Node>, a: nat, x: nat)
    requires Spells(l, head, tail, ns) && a !in ns && (tail.At? ==> tail.idx in ns)
    requires forall j {:trigger (l + [a])[j]} :: 0 <= j < |l| + 1 ==> (l + [a])[j] in Appended(ns, tail, a, x)
    ensures Values(l + [a], Appended(ns, tail, a, x)) == Values(l, ns) + [x]
  {
    var r, v := Values(l + [a], Appended(ns, tail, a, x)), Values(l, ns);
    forall j | 0 <= j < |l| ensures r[j] == v[j] {
      AppendedAt(l, head, tail, ns, a, x, j);
    }
  }

  /** The scan of list_rm_and_process: of s, the first k elements are done; c is the list now, with i of them kept. */
  ghost predicate Scanned(s: seq<nat>, m: nat -> bool, c: seq<nat>, processed: seq<nat>, i: nat, k: nat) {
    && k <= |s| && processed == Select(s[..k], m, true)
    && c == Select(s[..k], m, false) + s[k..] && |Select(s[..k], m, false)| == i
  }

  lemma ScanStep(s: seq<nat>, m: nat -> bool, c: seq<nat>, processed: seq<nat>, i: nat, k: nat)
    requires Scanned(s, m, c, processed, i, k) && i < |c|
    ensures k < |s| && c[i] == s[k]
    ensures if m(s[k]) then Scanned(s, m, Remove(c, i), processed + [s[k]], i, k + 1)
            else Scanned(s, m, c, processed, i + 1, k + 1)
  {
    SelectNext(s, m, k);
    RemoveAt(Select(s[..k], m, false), s[k..]);
  }

  lemma ScanStart(s: seq<nat>, m: nat -> bool)
    ensures Scanned(s, m, s, [], 0, 0)
  {
    assert s[..0] == [] && s[0..] == s;
  }

  lemma ScanDone(s: seq<nat>, m: nat -> bool, c: seq<nat>, processed: seq<nat>, i: nat, k: nat)
    requires Scanned(s, m, c, processed, i, k) && i == |c|
    ensures processed == Select(s, m, true) && c == Select(s, m, false)
  {
    assert s[..k] == s && s[k..] == [];
  }

  lemma NextStays(l: seq<nat>, i: nat)
    requires i < |l|
    ensures LinkTo(Remove(l, i), i) == LinkTo(l, i + 1)
  {
  }

  lemma FreshNode(ns: map<nat, Node>)
    ensures exists a: nat :: a !in ns
  {
    var a := Above(ns.Keys);
    assert a !in ns;
  }

  class List {
    var head: Link
    var tail: Link
    var nodes: map<nat, Node>
    ghost var order: seq<nat>       // the addresses of the nodes
    ghost var contents: seq<nat>    // the list as a sequence

    ghost predicate Valid()
      reads this
    {
      Spells(order, head, tail, nodes) && contents == Values(order, nodes)
    }

    constructor ()
      ensures Valid() && contents == []
    {
      head, tail, nodes, order, contents := Null, Null, map[], [], [];
    }

    /** list_push, onto a node at an address that the allocator has not given out before. */
    method Push(x: nat)
      requires Valid()
      modifies this
      ensures Valid() && contents == old(contents) + [x]
    {
      FreshNode(nodes);
      var a: nat :| a !in nodes;
      AppendSpells(order, head, tail, nodes, a, x);
      AppendValues(order, head, tail, nodes, a, x);
      nodes := nodes[a := Node(x, Null, Null)];
      if tail != Null {
        nodes := nodes[tail.idx := nodes[tail.idx].(next := At(a))];
        nodes := nodes[a := nodes[a].(prev := tail)];
      } else {
        head := At(a);
      }
      assert nodes == Appended(old(nodes), tail, a, x);
      tail := At(a);
      order, contents := order + [a], contents + [x];
    }

    /** Join the neighbours of node a and free it. */
    method Unlink(a: nat, ghost i: nat)
      requires Valid() && i < |order| && order[i] == a
      modifies this
      ensures Valid() && order == Remove(old(order), i) && contents == Remove(old(contents), i)
    {
      UnlinkSpells(order, head, tail, nodes, i);
      Neighbours(order, head, tail, nodes, i);
      UnlinkValues(order, head, tail, nodes, i);
      var nd := nodes[a];
      if nd.prev != Null {
        nodes := nodes[nd.prev.idx := nodes[nd.prev.idx].(next := nd.next)];
      } else {
        head := nd.next;
      }
      if nd.next != Null {
        nodes := nodes[nd.next.idx := nodes[nd.next.idx].(prev := nd.prev)];
      } else {
        tail := nd.prev;
      }
      nodes := nodes - {a};
      order, contents := Remove(order, i), Remove(contents, i);
    }

    /** list_empty */
    predicate Empty()
      requires Valid()
      reads this
      ensures Empty() <==> contents == []
    {
      head == Null
    }

    /** list_pop: the first element, if there is one. */
    method Pop() returns (x: Option<nat>)
      requires Valid()
      modifies this
      ensures Valid()
      ensures old(contents) == [] ==> x == None && contents == []
      ensures old(contents) != [] ==> x == Some(old(contents)[0]) && contents == old(contents)[1..]
    {
      if head == Null {
        return None;
      }
      Neighbours(order, head, tail, nodes, 0);
      x := Some(nodes[head.idx].ptr);
      Unlink(head.idx, 0);
    }

    /** list_delete: the first occurrence of x leaves; a missing x changes nothing. */
    method Delete(x: nat) returns (found: bool)
      requires Valid()
      modifies this
      ensures Valid() && found == (x in old(contents))
      ensures !found ==> contents == old(contents)
      ensures found ==> exists i :: 0 <= i < |old(contents)| && old(contents)[i] == x && x !in old(contents)[..i]
                               && contents == Remove(old(contents), i)
    {
      var tmp := head;
      ghost var i: nat := 0;
      while tmp != Null
        invariant Valid() && order == old(order) && contents == old(contents) && nodes == old(nodes)
                  && head == old(head) && tail == old(tail)
        invariant i <= |order| && tmp == LinkTo(order, i) && x !in contents[..i]
        decreases |order| - i
      {
        Neighbours(order, head, tail, nodes, i);
        if nodes[tmp.idx].ptr == x {
          assert contents[i] == x;
          Unlink(tmp.idx, i);
          return true;
        }
        assert contents[..i + 1] == contents[..i] + [contents[i]];
        tmp := nodes[tmp.idx].next;
        i := i + 1;
      }
      assert contents[..i] == contents;
      return false;
    }

    /** list_find: the first match. */
    method Find(match_: nat -> bool) returns (x: Option<nat>)
      requires Valid()
      ensures x == None <==> forall i :: 0 <= i < |contents| ==> !match_(contents[i])
      ensures x.Some? ==> exists i :: 0 <= i < |contents| && contents[i] == x.value && match_(x.value)
                                 && forall j :: 0 <= j < i ==> !match_(contents[j])
    {
      var tmp := head;
      ghost var i: nat := 0;
      while tmp != Null
        invariant i <= |order| && tmp == LinkTo(order, i)
        invariant forall j :: 0 <= j < i ==> !match_(contents[j])
        decreases |order| - i
      {
        Neighbours(order, head, tail, nodes, i);
        assert contents[i] == nodes[tmp.idx].ptr;
        if match_(nodes[tmp.idx].ptr) {
          return Some(nodes[tmp.idx].ptr);
        }
        tmp := nodes[tmp.idx].next;
        i := i + 1;
      }
      return None;
    }

    /** list_rm_and_process: the matches leave, and the operation is applied to them in this order. */
    method RmAndProcess(match_: nat -> bool) returns (processed: seq<nat>)
      requires Valid()
      modifies this
      ensures Valid()
      ensures processed == Select(old(contents), match_, true) && contents == Select(old(contents), match_, false)
    {
      var tmp := head;
      processed := [];
      ghost var s := contents;
      ghost var i: nat, k: nat := 0, 0;        // place in the list as it is now, and in the list as it was
      ScanStart(s, match_);
      while tmp != Null
        invariant Valid() && i <= |order| && tmp == LinkTo(order, i)
        invariant Scanned(s, match_, contents, processed, i, k)
        decreases |order| - i
      {
        tmp, processed, i := ScanNode(match_, tmp.idx, processed, s, i, k);
        k := k + 1;
      }
      ScanDone(s, match_, contents, processed, i, k);
    }

    /** One node of the scan: a match leaves the list and is processed, any other is passed over. */
    method ScanNode(match_: nat -> bool, a: nat, done: seq<nat>, ghost s: seq<nat>, ghost i: nat, ghost k: nat)
      returns (next: Link, processed: seq<nat>, ghost i': nat)
      requires Valid() && i < |order| && order[i] == a && Scanned(s, match_, contents, done, i, k)
      modifies this
      ensures Valid() && i' <= |order| && next == LinkTo(order, i') && |order| - i' == |old(order)| - i - 1
      ensures Scanned(s, match_, contents, processed, i', k + 1)
    {
      Neighbours(order, head, tail, nodes, i);
      ScanStep(s, match_, contents, done, i, k);
      next, processed, i' := nodes[a].next, done, i;
      if match_(nodes[a].ptr) {
        processed := done + [nodes[a].ptr];
        NextStays(order, i);
        Unlink(a, i);
      } else {
        i' := i + 1;
      }
    }
  }

  lemma SelectNext(s: seq<nat>, match_: nat -> bool, k: nat)
    requires k < |s|
    ensures Select(s[..k + 1], match_, true) == Select(s[..k], match_, true) + if match_(s[k]) then [s[k]] else []
    ensures Select(s[..k + 1], match_, false) == Select(s[..k], match_, false) + if match_(s[k]) then [] else [s[k]]
    ensures s[k..] == [s[k]] + s[k + 1..]
  {
    assert s[..k + 1][..k] == s[..k];
  }

  lemma RemoveAt(a: seq<nat>, b: seq<nat>)
    requires b != []
    ensures Remove(a + b, |a|) == a + b[1..]
  {
  }
}
