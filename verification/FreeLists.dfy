/**
 The per-order doubly linked free lists of the page allocator, as values: node i of the
 node array stands for &buddy_node_arr[i], and a Link is a pointer that may be NULL.
 */
module FreeLists {
  import opened Common

  datatype Node = Node(prev: Link, next: Link)

  const UNLINKED := Node(Null, Null)

  ghost predicate NodeOk(l: seq<nat>, ns: seq<Node>, i: nat)
    requires i < |l|
  {
    l[i] < |ns| && ns[l[i]] == Node(LinkTo(l, i - 1), LinkTo(l, i + 1))
  }

  /** Head and node links spell out exactly the list l, forwards and backwards, without repetition. */
  ghost predicate Chain(l: seq<nat>, head: Link, ns: seq<Node>) {
    && head == LinkTo(l, 0)
    && (forall i {:trigger l[i]} :: 0 <= i < |l| ==> l[i] < |ns|)
    && (forall i {:trigger NodeOk(l, ns, i)} :: 0 <= i < |l| ==> NodeOk(l, ns, i))
    && Distinct(l)
  }

  /** List k holds exactly the pages tagged k. */
  ghost predicate Members(n: nat, a: seq<int>, ls: seq<seq<nat>>)
    requires |ls| == n + 1
  {
    forall k: int, p: nat {:trigger p in ls[k]} :: 0 <= k <= n ==> (p in ls[k] <==> p < |a| && a[p] == k)
  }

  /** The free lists of a tag array: well linked, exact, and pages in no list have no links. */
  ghost predicate Lists(n: nat, a: seq<int>, ns: seq<Node>, hs: seq<Link>, ls: seq<seq<nat>>) {
    && |a| == |ns| && |hs| == |ls| == n + 1
    && (forall k :: 0 <= k <= n ==> Chain(ls[k], hs[k], ns))
    && Members(n, a, ls)
    && (forall p :: 0 <= p < |a| && !(0 <= a[p] <= n) ==> ns[p] == UNLINKED)
  }

  // ----- insertion at the head

  function Pushed(ns: seq<Node>, head: Link, p: nat): (r: seq<Node>)
    requires p < |ns| && (head.At? ==> head.idx < |ns|)
    ensures |r| == |ns|
  {
    var b := if head.At? then ns[head.idx := ns[head.idx].(prev := At(p))] else ns;
    b[p := b[p].(next := head)]
  }

  lemma PushedNode(l: seq<nat>, head: Link, ns: seq<Node>, p: nat, i: nat)
    requires Chain(l, head, ns) && p !in l && p < |ns| && ns[p] == UNLINKED && i < |l| + 1
    requires head.At? ==> head.idx < |ns|
    ensures NodeOk([p] + l, Pushed(ns, head, p), i)
  {
    var m := [p] + l;
    if i > 0 {
      assert NodeOk(l, ns, i - 1) && m[i] == l[i - 1] && l[i - 1] in l;
      assert i > 1 ==> l[i - 1] != l[0];
    }
  }

  lemma PushChain(l: seq<nat>, head: Link, ns: seq<Node>, p: nat)
    requires Chain(l, head, ns) && p !in l && p < |ns| && ns[p] == UNLINKED
    ensures head.At? ==> head.idx < |ns|
    ensures Chain([p] + l, At(p), Pushed(ns, head, p))
  {
    forall i | 0 <= i < |l| + 1 ensures NodeOk([p] + l, Pushed(ns, head, p), i) {
      PushedNode(l, head, ns, p, i);
    }
  }

  lemma ChainFrame(l: seq<nat>, head: Link, ns: seq<Node>, ns': seq<Node>)
    requires Chain(l, head, ns) && |ns'| == |ns| && forall i {:trigger l[i]} :: 0 <= i < |l| ==> ns'[l[i]] == ns[l[i]]
    ensures Chain(l, head, ns')
  {
    forall i | 0 <= i < |l| ensures NodeOk(l, ns', i) {
      assert NodeOk(l, ns, i) && ns'[l[i]] == ns[l[i]];
    }
  }

  lemma PushLists(n: nat, a: seq<int>, ns: seq<Node>, hs: seq<Link>, ls: seq<seq<nat>>, p: nat, k: nat)
    requires Lists(n, a, ns, hs, ls) && k <= n && p < |a| && !(0 <= a[p] <= n)
    ensures hs[k].At? ==> hs[k].idx < |ns|
    ensures Lists(n, a[p := k], Pushed(ns, hs[k], p), hs[k := At(p)], ls[k := [p] + ls[k]])
  {
    var ns', ls', a' := Pushed(ns, hs[k], p), ls[k := [p] + ls[k]], a[p := k];
    PushChain(ls[k], hs[k], ns, p);
    forall j | 0 <= j <= n ensures Chain(ls'[j], hs[k := At(p)][j], ns') {
      if j != k {
        assert hs[k].At? ==> hs[k].idx in ls[k];
        OtherListKept(n, a, ls, k, j);
        forall x | 0 <= x < |ls[j]| ensures ls[j][x] != p {
          assert ls[j][x] in ls[j];
        }
        ChainFrame(ls[j], hs[j], ns, ns');
      }
    }
    forall j: int, q: nat | 0 <= j <= n ensures q in ls'[j] <==> q < |a'| && a'[q] == j {
      assert q in ls[j] <==> q < |a| && a[q] == j;
    }
    forall q | 0 <= q < |a'| && !(0 <= a'[q] <= n) ensures ns'[q] == UNLINKED {
      assert hs[k].At? ==> hs[k].idx in ls[k];
    }
  }

  // ----- removal from anywhere

  function Unlinked(ns: seq<Node>, p: nat): (r: seq<Node>)
    requires p < |ns|
    requires ns[p].prev.At? ==> ns[p].prev.idx < |ns|
    requires ns[p].next.At? ==> ns[p].next.idx < |ns|
    ensures |r| == |ns|
  {
    var nd := ns[p];
    var b := if nd.prev.At? then ns[nd.prev.idx := ns[nd.prev.idx].(next := nd.next)] else ns;
    var c := if nd.next.At? then b[nd.next.idx := b[nd.next.idx].(prev := nd.prev)] else b;
    c[p := UNLINKED]
  }

  lemma Neighbours(l: seq<nat>, head: Link, ns: seq<Node>, i: nat)
    requires Chain(l, head, ns) && i < |l|
    ensures l[i] < |ns| && ns[l[i]] == Node(LinkTo(l, i - 1), LinkTo(l, i + 1))
    ensures LinkTo(l, i - 1).At? ==> i > 0 && l[i - 1] < |ns| && l[i - 1] != l[i]
    ensures LinkTo(l, i + 1).At? ==> i + 1 < |l| && l[i + 1] < |ns| && l[i + 1] != l[i]
    ensures LinkTo(l, i - 1).At? && LinkTo(l, i + 1).At? ==> l[i - 1] != l[i + 1]
  {
    assert NodeOk(l, ns, i);
  }

  /** Unlinking changes the removed node and its two neighbours only. */
  lemma UnlinkNode(l: seq<nat>, head: Link, ns: seq<Node>, i: nat, q: nat)
    requires Chain(l, head, ns) && i < |l| && q < |ns|
    ensures LinkTo(l, i - 1).At? ==> l[i - 1] < |ns|
    ensures LinkTo(l, i + 1).At? ==> l[i + 1] < |ns|
    ensures l[i] < |ns| && ns[l[i]] == Node(LinkTo(l, i - 1), LinkTo(l, i + 1))
    ensures Unlinked(ns, l[i])[q] ==
            if q == l[i] then UNLINKED
            else Node(if At(q) == LinkTo(l, i + 1) then LinkTo(l, i - 1) else ns[q].prev,
                      if At(q) == LinkTo(l, i - 1) then LinkTo(l, i + 1) else ns[q].next)
  {
    Neighbours(l, head, ns, i);
  }

  lemma UnlinkMember(l: seq<nat>, head: Link, ns: seq<Node>, i: nat, j: nat)
    requires Chain(l, head, ns) && i < |l| && j < |l| - 1
    requires LinkTo(l, i - 1).At? ==> l[i - 1] < |ns|
    requires LinkTo(l, i + 1).At? ==> l[i + 1] < |ns|
    requires l[i] < |ns| && ns[l[i]] == Node(LinkTo(l, i - 1), LinkTo(l, i + 1))
    ensures NodeOk(Remove(l, i), Unlinked(ns, l[i]), j)
  {
    var k := Was(i, j);
    RemoveLinks(l, i, j);
    Neighbours(l, head, ns, k);
    UnlinkNode(l, head, ns, i, l[k]);
    assert l[k] != l[i];
    assert At(l[k]) == LinkTo(l, i + 1) <==> k == i + 1;
    assert At(l[k]) == LinkTo(l, i - 1) <==> k == i - 1;
  }

  lemma UnlinkChain(l: seq<nat>, head: Link, ns: seq<Node>, i: nat)
    requires Chain(l, head, ns) && i < |l|
    ensures LinkTo(l, i - 1).At? ==> l[i - 1] < |ns|
    ensures LinkTo(l, i + 1).At? ==> l[i + 1] < |ns|
    ensures l[i] < |ns| && ns[l[i]] == Node(LinkTo(l, i - 1), LinkTo(l, i + 1))
    ensures Chain(Remove(l, i), if i == 0 then LinkTo(l, 1) else head, Unlinked(ns, l[i]))
    ensures head == At(l[i]) <==> i == 0
  {
    Neighbours(l, head, ns, i);
    forall j | 0 <= j < |l| - 1 ensures NodeOk(Remove(l, i), Unlinked(ns, l[i]), j) {
      UnlinkMember(l, head, ns, i, j);
    }
    forall j | 0 <= j < |l| - 1 ensures Remove(l, i)[j] < |ns| {
      assert NodeOk(Remove(l, i), Unlinked(ns, l[i]), j);
    }
    RemoveDistinct(l, i);
  }

  lemma UnlinkLists(n: nat, a: seq<int>, ns: seq<Node>, hs: seq<Link>, ls: seq<seq<nat>>, k: nat, i: nat, t: int)
    requires Lists(n, a, ns, hs, ls) && k <= n && i < |ls[k]| && !(0 <= t <= n)
    ensures ls[k][i] < |a| && a[ls[k][i]] == k && ns[ls[k][i]] == Node(LinkTo(ls[k], i - 1), LinkTo(ls[k], i + 1))
    ensures LinkTo(ls[k], i - 1).At? ==> ls[k][i - 1] < |ns|
    ensures LinkTo(ls[k], i + 1).At? ==> ls[k][i + 1] < |ns|
    ensures hs[k] == At(ls[k][i]) <==> i == 0
    ensures Lists(n, a[ls[k][i] := t], Unlinked(ns, ls[k][i]), if i == 0 then hs[k := LinkTo(ls[k], 1)] else hs,
                  ls[k := Remove(ls[k], i)])
  {
    var l, p := ls[k], ls[k][i];
    assert p in l;
    UnlinkChain(l, hs[k], ns, i);
    UnlinkKeepsMembers(n, a, ls, k, i, t);
    UnlinkOthers(n, a, ns, hs, ls, k, i);
    UnlinkNode(l, hs[k], ns, i, p);
    ListsFromParts(n, a[p := t], Unlinked(ns, p), if i == 0 then hs[k := LinkTo(l, 1)] else hs,
                   ls[k := Remove(l, i)], k);
  }

  lemma ListsFromParts(n: nat, a: seq<int>, ns: seq<Node>, hs: seq<Link>, ls: seq<seq<nat>>, k: nat)
    requires |a| == |ns| && |hs| == |ls| == n + 1 && k <= n && Chain(ls[k], hs[k], ns)
    requires forall j :: 0 <= j <= n && j != k ==> Chain(ls[j], hs[j], ns)
    requires Members(n, a, ls)
    requires forall p :: 0 <= p < |a| && !(0 <= a[p] <= n) ==> ns[p] == UNLINKED
    ensures Lists(n, a, ns, hs, ls)
  {
  }

  /** Nodes outside the list keep their links, so the other lists stay as they are. */
  lemma UnlinkOthers(n: nat, a: seq<int>, ns: seq<Node>, hs: seq<Link>, ls: seq<seq<nat>>, k: nat, i: nat)
    requires Lists(n, a, ns, hs, ls) && k <= n && i < |ls[k]|
    requires LinkTo(ls[k], i - 1).At? ==> ls[k][i - 1] < |ns|
    requires LinkTo(ls[k], i + 1).At? ==> ls[k][i + 1] < |ns|
    requires ls[k][i] < |ns| && ns[ls[k][i]] == Node(LinkTo(ls[k], i - 1), LinkTo(ls[k], i + 1))
    ensures forall q :: 0 <= q < |a| && q !in ls[k] ==> Unlinked(ns, ls[k][i])[q] == ns[q]
    ensures forall j :: 0 <= j <= n && j != k ==> Chain(ls[j], hs[j], Unlinked(ns, ls[k][i]))
  {
    var l := ls[k];
    forall q | 0 <= q < |a| && q !in l ensures Unlinked(ns, l[i])[q] == ns[q] {
      UnlinkNode(l, hs[k], ns, i, q);
    }
    forall j | 0 <= j <= n && j != k ensures Chain(ls[j], hs[j], Unlinked(ns, l[i])) {
      OtherListKept(n, a, ls, k, j);
      ChainFrame(ls[j], hs[j], ns, Unlinked(ns, l[i]));
    }
  }

  lemma OtherListKept(n: nat, a: seq<int>, ls: seq<seq<nat>>, k: nat, j: nat)
    requires |ls| == n + 1 && Members(n, a, ls) && k <= n && j <= n && j != k
    ensures forall x :: 0 <= x < |ls[j]| ==> ls[j][x] < |a| && ls[j][x] !in ls[k]
  {
    forall x | 0 <= x < |ls[j]| ensures ls[j][x] < |a| && ls[j][x] !in ls[k] {
      assert ls[j][x] in ls[j];
    }
  }

  lemma UnlinkKeepsMembers(n: nat, a: seq<int>, ls: seq<seq<nat>>, k: nat, i: nat, t: int)
    requires |ls| == n + 1 && Members(n, a, ls) && k <= n && i < |ls[k]| && !(0 <= t <= n) && Distinct(ls[k])
    ensures ls[k][i] < |a| && Members(n, a[ls[k][i] := t], ls[k := Remove(ls[k], i)])
  {
    assert ls[k][i] in ls[k];
    var a', ls' := a[ls[k][i] := t], ls[k := Remove(ls[k], i)];
    RemoveDistinct(ls[k], i);
    forall j: int, q: nat {:trigger q in ls'[j]} | 0 <= j <= n ensures q in ls'[j] <==> q < |a| && a'[q] == j {
      assert q in ls[j] <==> q < |a| && a[q] == j;
      if j != k {
        assert ls'[j] == ls[j];
      }
    }
  }

  /** Changing a tag that names no list, to another that names none, leaves the lists exact. */
  lemma RetagLists(n: nat, a: seq<int>, ns: seq<Node>, hs: seq<Link>, ls: seq<seq<nat>>, p: nat, t: int)
    requires Lists(n, a, ns, hs, ls) && p < |a| && !(0 <= a[p] <= n) && !(0 <= t <= n)
    ensures Lists(n, a[p := t], ns, hs, ls)
  {
    var a' := a[p := t];
    forall j: int, q: nat | 0 <= j <= n ensures q in ls[j] <==> q < |a'| && a'[q] == j {
      assert q in ls[j] <==> q < |a| && a[q] == j;
    }
  }
}
