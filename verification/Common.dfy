/**
 What several parts of the kernel share: optional values, nullable links, and the sizes that
 appear in more than one place.
 */
module Common {
  const PAGE_SIZE: nat := 4096
  const MAX_PROC: nat := 1024

  const TWO63: nat := 0x8000_0000_0000_0000
  const TWO64: nat := 0x1_0000_0000_0000_0000

  datatype Option<+T> = None | Some(value: T)

  function Min(a: nat, b: nat): (m: nat) {
    if a < b then a else b
  }

  function Max(a: nat, b: nat): (m: nat) {
    if a < b then b else a
  }

  /** A pointer to a numbered node, which may be NULL. */
  datatype Link = Null | At(idx: nat)

  /** The link to the i-th node of a list, NULL beyond its ends. */
  ghost function LinkTo(l: seq<nat>, i: int): (r: Link) {
    if 0 <= i < |l| then At(l[i]) else Null
  }

  /** A sequence without its i-th element. */
  function Remove<T>(s: seq<T>, i: nat): (r: seq<T>)
    requires i < |s|
  {
    s[..i] + s[i + 1..]
  }

  /** Which place the j-th element had before the i-th was removed. */
  function Was(i: nat, j: nat): (k: nat) {
    if j < i then j else j + 1
  }

  /** In the shorter list the neighbours of the removed node are linked to each other, and no other link changes. */
  lemma RemoveLinks(l: seq<nat>, i: nat, j: nat)
    requires i < |l| && j < |l| - 1
    ensures Remove(l, i)[j] == l[Was(i, j)]
    ensures LinkTo(Remove(l, i), j - 1) == if Was(i, j) == i + 1 then LinkTo(l, i - 1) else LinkTo(l, Was(i, j) - 1)
    ensures LinkTo(Remove(l, i), j + 1) == if Was(i, j) == i - 1 then LinkTo(l, i + 1) else LinkTo(l, Was(i, j) + 1)
  {
  }

  ghost predicate Distinct(q: seq<nat>) {
    forall i, j {:trigger q[i], q[j]} :: 0 <= i < j < |q| ==> q[i] != q[j]
  }

  lemma RemoveDistinct(q: seq<nat>, i: nat)
    requires i < |q| && Distinct(q)
    ensures Distinct(Remove(q, i)) && forall x {:trigger x in Remove(q, i)} :: x in Remove(q, i) <==>
            x in q && x != q[i]
  {
    var r := Remove(q, i);
    forall x | x in q && x != q[i] ensures x in r {
      var j :| 0 <= j < |q| && q[j] == x;
      assert r[if j < i then j else j - 1] == x;
    }
    forall x | x in r ensures x in q && x != q[i] {
      var j :| 0 <= j < |r| && r[j] == x;
      RemoveLinks(q, i, j);
    }
    forall j, k | 0 <= j < k < |r| ensures r[j] != r[k] {
      RemoveLinks(q, i, j);
      RemoveLinks(q, i, k);
    }
  }

  /** The elements for which m gives want, in order. */
  function Select(s: seq<nat>, m: nat -> bool, want: bool): (r: seq<nat>) {
    if s == [] then [] else Select(s[..|s| - 1], m, want) + if m(s[|s| - 1]) == want then [s[|s| - 1]] else []
  }

  /** Selecting can as well start at the front. */
  lemma {:induction false} SelectFirst(s: seq<nat>, m: nat -> bool, want: bool)
    requires s != []
    ensures Select(s, m, want) == (if m(s[0]) == want then [s[0]] else []) + Select(s[1..], m, want)
  {
    var n := |s| - 1;
    if n > 0 {
      SelectFirst(s[..n], m, want);
      assert s[..n][1..] == s[1..][..n - 1];
    } else {
      assert s[..0] == [] && s[1..] == [];
    }
  }

  lemma {:induction false} SelectSame(s: seq<nat>, m: nat -> bool, m': nat -> bool, want: bool)
    requires forall i {:trigger s[i]} :: 0 <= i < |s| ==> m(s[i]) == m'(s[i])
    ensures Select(s, m, want) == Select(s, m', want)
  {
    if s != [] {
      SelectSame(s[..|s| - 1], m, m', want);
    }
  }

  lemma {:induction false} SelectMember(s: seq<nat>, m: nat -> bool, want: bool, x: nat)
    ensures x in Select(s, m, want) <==> x in s && m(x) == want
  {
    if s != [] {
      SelectMember(s[..|s| - 1], m, want, x);
      assert s == s[..|s| - 1] + [s[|s| - 1]];
    }
  }

  /** A number greater than all of a set, which is therefore not used. */
  lemma {:induction false} Above(keys: set<nat>) returns (t: nat)
    ensures forall k :: k in keys ==> k < t
  {
    if keys == {} {
      t := 0;
    } else {
      var k :| k in keys;
      var u := Above(keys - {k});
      t := if u <= k then k + 1 else u;
      forall x | x in keys ensures x < t {
        assert x == k || x in keys - {k};
      }
    }
  }
}
