/**
 strtok_r and the components of path names: repeated calls give exactly the fields between
 delimiters, empty ones included.
 */
module Paths {
  import opened Common

  const NUL: char := '\0'

  predicate Free(s: string, d: char) {
    d !in s
  }

  /** The position of the first d in s, or the length of s. */
  function Upto(s: string, d: char): (i: nat)
    ensures i <= |s| && Free(s[..i], d) && (i < |s| ==> s[i] == d)
  {
    if s == [] || s[0] == d then 0
    else
      var i := 1 + Upto(s[1..], d);
      assert s[..i] == [s[0]] + s[1..][..i - 1];
      i
  }

  /** The fields of s between delimiters. */
  function Fields(s: string, d: char): (fs: seq<string>)
    ensures fs != []
  {
    var i := Upto(s, d);
    if i == |s| then [s] else [s[..i]] + Fields(s[i + 1..], d)
  }

  function Join(fs: seq<string>, d: char): (s: string)
    requires fs != []
  {
    if |fs| == 1 then fs[0] else fs[0] + [d] + Join(fs[1..], d)
  }

  lemma {:induction false} UptoFirst(a: string, s: string, d: char)
    requires Free(a, d)
    ensures Upto(a + [d] + s, d) == |a| && Upto(a, d) == |a|
  {
    if a != [] {
      assert (a + [d] + s)[1..] == a[1..] + [d] + s;
      UptoFirst(a[1..], s, d);
    }
  }

  lemma FieldsCons(a: string, s: string, d: char)
    requires Free(a, d)
    ensures Fields(a + [d] + s, d) == [a] + Fields(s, d) && Fields(a, d) == [a]
  {
    UptoFirst(a, s, d);
    var t := a + [d] + s;
    assert t[..|a|] == a && t[|a| + 1..] == s;
  }

  /** Splitting undoes joining: the fields of a joined list are the list. */
  lemma {:induction false} FieldsOfJoin(fs: seq<string>, d: char)
    requires fs != [] && forall i {:trigger fs[i]} :: 0 <= i < |fs| ==> Free(fs[i], d)
    ensures Fields(Join(fs, d), d) == fs
  {
    assert fs == [fs[0]] + fs[1..];
    if |fs| == 1 {
      FieldsCons(fs[0], [], d);
    } else {
      FieldsCons(fs[0], Join(fs[1..], d), d);
      FieldsOfJoin(fs[1..], d);
    }
  }

  /** Joining undoes splitting, and no field has a delimiter in it. */
  lemma {:induction false} JoinOfFields(s: string, d: char)
    ensures Join(Fields(s, d), d) == s && forall i :: 0 <= i < |Fields(s, d)| ==> Free(Fields(s, d)[i], d)
    decreases |s|
  {
    var i := Upto(s, d);
    if i < |s| {
      JoinOfFields(s[i + 1..], d);
      var fs := Fields(s, d);
      assert fs[1..] == Fields(s[i + 1..], d);
      assert s == s[..i] + [d] + s[i + 1..];
    } else {
      assert s[..i] == s;
    }
  }

  /** The context of strtok_r: a copy of the string with its terminator, and how far it has been cut up. */
  class Tokens {
    const str: array<char>
    const len: nat
    var idx: nat
    ghost const text: string

    ghost predicate Valid()
      reads this, str
    {
      && len == |text| + 1 == str.Length && idx <= len && Free(text, NUL)
      && (forall j {:trigger str[j]} :: idx <= j < len ==> str[j] == if j < |text| then text[j] else NUL)
    }

    /** The fields still to come. */
    ghost function Left(d: char): (fs: seq<string>)
      requires Valid()
      reads this, str
    {
      if idx > |text| then [] else Fields(text[idx..], d)
    }

    constructor (s: string)
      requires Free(s, NUL)
      ensures Valid() && text == s && idx == 0 && fresh(str)
    {
      str := new char[|s| + 1](i requires 0 <= i <= |s| => if i < |s| then s[i] else NUL);
      len, idx := |s| + 1, 0;
      text := s;
    }

    /** strtok_r with one delimiter: the next field, and nothing after the last one. */
    method Next(d: char) returns (tok: Option<string>)
      requires Valid() && d != NUL
      modifies this, str
      ensures Valid()
      ensures tok == if old(Left(d)) == [] then None else Some(old(Left(d))[0])
      ensures Left(d) == if old(Left(d)) == [] then [] else old(Left(d))[1..]
    {
      var i := idx;
      while i < len
        invariant idx <= i <= len && idx == old(idx) && str[..] == old(str[..])
        invariant idx <= |text| ==> i <= |text|
        invariant forall j {:trigger text[j]} :: idx <= j < i ==> text[j] != d
      {
        if str[i] == d || str[i] == NUL {
          CutAt(text, idx, i, d);
          assert text[idx..i] == str[idx..i];
          tok := Some(str[idx..i]);
          str[i] := NUL;
          idx := i + 1;
          return;
        }
        i := i + 1;
      }
      tok := None;
    }
  }

  /** The field from idx up to the delimiter or the end at i, and the fields behind it. */
  lemma CutAt(text: string, idx: nat, i: nat, d: char)
    requires idx <= i <= |text| && (forall j {:trigger text[j]} :: idx <= j < i ==> text[j] != d)
             && (i < |text| ==> text[i] == d)
    ensures Fields(text[idx..], d) == [text[idx..i]] + if i < |text| then Fields(text[i + 1..], d) else []
  {
    var rest := text[idx..];
    FirstField(rest, i - idx, d);
    assert rest[..i - idx] == text[idx..i];
    if i < |text| {
      assert rest[i - idx + 1..] == text[i + 1..];
    } else {
      assert rest == text[idx..i];
    }
  }

  lemma FirstField(s: string, i: nat, d: char)
    requires i <= |s| && (forall j :: 0 <= j < i ==> s[j] != d) && (i < |s| ==> s[i] == d)
    ensures Upto(s, d) == i
  {
    if i < |s| {
      UptoFirst(s[..i], s[i + 1..], d);
      assert s == s[..i] + [d] + s[i + 1..];
    } else {
      UptoFirst(s, [], d);
    }
  }
}
