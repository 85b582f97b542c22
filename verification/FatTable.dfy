/**
 The file allocation table: every file is a chain of clusters, and creating or growing files
 keeps the chains apart.

 An entry has 32 bits, of which the low 28 are the value (section "FAT Data Structure" of the
 Microsoft FAT32 File System Specification); the end mark is whatever entry 1 holds.
 */
module FatTable {
  const VALUES: nat := 0x1000_0000

  /** entry & FAT_VAL_MASK */
  function Val(e: nat): (v: nat) {
    e % VALUES
  }

  /** set_fat_entry for a value of 28 bits: the upper four bits stay. */
  function Set(e: nat, v: nat): (r: nat)
    ensures v < VALUES ==> Val(r) == v && r / VALUES == e / VALUES
  {
    e - e % VALUES + v
  }

  ghost predicate LinkAt(fat: seq<nat>, eof: nat, ch: seq<nat>, i: nat)
    requires i < |ch|
  {
    2 <= ch[i] < |fat| && Val(fat[ch[i]]) == if i + 1 < |ch| then ch[i + 1] else eof
  }

  /** The links spell out the clusters ch and end there. */
  ghost predicate IsChain(fat: seq<nat>, eof: nat, ch: seq<nat>) {
    ch != [] && forall i {:trigger LinkAt(fat, eof, ch, i)} :: 0 <= i < |ch| ==> LinkAt(fat, eof, ch, i)
  }

  /** No cluster occurs twice, in one chain or in two. */
  ghost predicate Apart(chs: seq<seq<nat>>) {
    forall a, i, b, j {:trigger chs[a][i], chs[b][j]} ::
      0 <= a < |chs| && 0 <= i < |chs[a]| && 0 <= b < |chs| && 0 <= j < |chs[b]| && chs[a][i] == chs[b][j] ==>
        a == b && i == j
  }

  /** Disjoint, acyclic, terminated chains, in a table whose first two entries are reserved. */
  ghost predicate Chains(fat: seq<nat>, eof: nat, chs: seq<seq<nat>>) {
    && 2 <= |fat| <= eof < VALUES && fat[0] != 0 && fat[1] != 0
    && (forall a {:trigger IsChain(fat, eof, chs[a])} :: 0 <= a < |chs| ==> IsChain(fat, eof, chs[a]))
    && Apart(chs)
  }

  lemma Member(fat: seq<nat>, eof: nat, chs: seq<seq<nat>>, a: nat, i: nat)
    requires Chains(fat, eof, chs) && a < |chs| && i < |chs[a]|
    ensures 2 <= chs[a][i] < |fat| && fat[chs[a][i]] != 0 && LinkAt(fat, eof, chs[a], i)
  {
    assert IsChain(fat, eof, chs[a]);
    assert LinkAt(fat, eof, chs[a], i);
    if i + 1 < |chs[a]| {
      assert LinkAt(fat, eof, chs[a], i + 1);
    }
  }

  /** A free cluster belongs to no chain and is not reserved. */
  lemma FreeIsUnused(fat: seq<nat>, eof: nat, chs: seq<seq<nat>>, c: nat)
    requires Chains(fat, eof, chs) && c < |fat| && fat[c] == 0
    ensures 2 <= c && forall a, i {:trigger chs[a][i]} :: 0 <= a < |chs| && 0 <= i < |chs[a]| ==> chs[a][i] != c
  {
    forall a, i | 0 <= a < |chs| && 0 <= i < |chs[a]| ensures chs[a][i] != c {
      Member(fat, eof, chs, a, i);
    }
  }

  lemma ChainFrame(fat: seq<nat>, fat': seq<nat>, eof: nat, ch: seq<nat>)
    requires IsChain(fat, eof, ch) && |fat'| == |fat|
    requires forall i {:trigger ch[i]} :: 0 <= i < |ch| ==> ch[i] < |fat| && fat'[ch[i]] == fat[ch[i]]
    ensures IsChain(fat', eof, ch)
  {
    forall i | 0 <= i < |ch| ensures LinkAt(fat', eof, ch, i) {
      assert LinkAt(fat, eof, ch, i);
      assert fat'[ch[i]] == fat[ch[i]];
    }
  }

  // ----- a new file

  lemma NewChain(fat: seq<nat>, eof: nat, chs: seq<seq<nat>>, c: nat)
    requires Chains(fat, eof, chs) && c < |fat| && fat[c] == 0
    ensures Chains(fat[c := eof], eof, chs + [[c]])
  {
    FreeIsUnused(fat, eof, chs, c);
    var fat', chs' := fat[c := eof], chs + [[c]];
    forall a | 0 <= a < |chs'| ensures IsChain(fat', eof, chs'[a]) {
      if a < |chs| {
        assert chs'[a] == chs[a];
        assert IsChain(fat, eof, chs[a]);
        forall i | 0 <= i < |chs[a]| ensures chs[a][i] < |fat| && fat'[chs[a][i]] == fat[chs[a][i]] {
          Member(fat, eof, chs, a, i);
        }
        ChainFrame(fat, fat', eof, chs[a]);
      } else {
        assert LinkAt(fat', eof, [c], 0);
      }
    }
    NewApart(chs, c);
  }

  lemma NewApart(chs: seq<seq<nat>>, c: nat)
    requires Apart(chs) && forall a, i {:trigger chs[a][i]} :: 0 <= a < |chs| && 0 <= i < |chs[a]| ==> chs[a][i] != c
    ensures Apart(chs + [[c]])
  {
    var chs' := chs + [[c]];
    forall a, i, b, j | 0 <= a < |chs'| && 0 <= i < |chs'[a]| && 0 <= b < |chs'| && 0 <= j < |chs'[b]|
      && chs'[a][i] == chs'[b][j]
      ensures a == b && i == j
    {
      assert a < |chs| ==> chs'[a] == chs[a];
      assert b < |chs| ==> chs'[b] == chs[b];
      assert a < |chs| ==> chs[a][i] != c;
      assert b < |chs| ==> chs[b][j] != c;
      assert a < |chs| && b < |chs| ==> chs[a][i] == chs[b][j];
    }
  }

  // ----- a file grows by a cluster

  /** The table after linking the free cluster c behind the last cluster l of a chain. */
  function Linked(fat: seq<nat>, eof: nat, l: nat, c: nat): (r: seq<nat>)
    requires l < |fat| && c < |fat|
    ensures |r| == |fat|
  {
    var fat1 := fat[l := Set(fat[l], c)];
    fat1[c := Set(fat1[c], eof)]
  }

  lemma GrownChain(fat: seq<nat>, eof: nat, ch: seq<nat>, c: nat)
    requires IsChain(fat, eof, ch) && 2 <= c < |fat| <= eof < VALUES && fat[c] == 0 && c !in ch
    requires forall i, j {:trigger ch[i], ch[j]} :: 0 <= i < j < |ch| ==> ch[i] != ch[j]
    requires ch[|ch| - 1] < |fat|
    ensures IsChain(Linked(fat, eof, ch[|ch| - 1], c), eof, ch + [c])
  {
    var l, ch' := ch[|ch| - 1], ch + [c];
    var fat' := Linked(fat, eof, l, c);
    forall i | 0 <= i < |ch'| ensures LinkAt(fat', eof, ch', i) {
      if i < |ch| {
        assert LinkAt(fat, eof, ch, i);
        assert ch[i] in ch && ch'[i] == ch[i];
        assert i < |ch| - 1 ==> ch[i] != l;
      }
    }
  }

  lemma GrowApart(chs: seq<seq<nat>>, f: nat, c: nat)
    requires Apart(chs) && f < |chs|
    requires forall a, i {:trigger chs[a][i]} :: 0 <= a < |chs| && 0 <= i < |chs[a]| ==> chs[a][i] != c
    ensures Apart(chs[f := chs[f] + [c]])
  {
    var chs' := chs[f := chs[f] + [c]];
    forall a, i, b, j | 0 <= a < |chs'| && 0 <= i < |chs'[a]| && 0 <= b < |chs'| && 0 <= j < |chs'[b]|
      && chs'[a][i] == chs'[b][j]
      ensures a == b && i == j
    {
      assert chs'[a][i] == if i < |chs[a]| then chs[a][i] else c;
      assert chs'[b][j] == if j < |chs[b]| then chs[b][j] else c;
      assert i < |chs[a]| ==> chs[a][i] != c;
      assert j < |chs[b]| ==> chs[b][j] != c;
    }
  }

  /** Growing a chain at its end leaves all chains disjoint and terminated, and no other chain changes. */
  lemma Grown(fat: seq<nat>, eof: nat, chs: seq<seq<nat>>, f: nat, c: nat)
    requires Chains(fat, eof, chs) && f < |chs| && c < |fat| && fat[c] == 0
    ensures chs[f] != [] && chs[f][|chs[f]| - 1] < |fat|
    ensures Chains(Linked(fat, eof, chs[f][|chs[f]| - 1], c), eof, chs[f := chs[f] + [c]])
  {
    FreeIsUnused(fat, eof, chs, c);
    assert IsChain(fat, eof, chs[f]);
    Member(fat, eof, chs, f, |chs[f]| - 1);
    var l, chs' := chs[f][|chs[f]| - 1], chs[f := chs[f] + [c]];
    var fat' := Linked(fat, eof, l, c);
    forall i, j | 0 <= i < j < |chs[f]| ensures chs[f][i] != chs[f][j] {
    }
    GrownChain(fat, eof, chs[f], c);
    forall a | 0 <= a < |chs'| ensures IsChain(fat', eof, chs'[a]) {
      if a != f {
        assert IsChain(fat, eof, chs[a]);
        forall i | 0 <= i < |chs[a]| ensures chs[a][i] < |fat| && fat'[chs[a][i]] == fat[chs[a][i]] {
          Member(fat, eof, chs, a, i);
          assert chs[a][i] != chs[f][|chs[f]| - 1];
        }
        ChainFrame(fat, fat', eof, chs[a]);
      }
    }
    GrowApart(chs, f, c);
  }

  // ----- how many clusters are free

  ghost function Free(fat: seq<nat>): (s: set<nat>) {
    set c: nat | c < |fat| && fat[c] == 0
  }

  lemma FreeAfterLink(fat: seq<nat>, eof: nat, l: nat, c: nat)
    requires l < |fat| && c < |fat| && fat[c] == 0 && fat[l] != 0 && 0 < c < VALUES && 0 < eof < VALUES
    ensures |Free(Linked(fat, eof, l, c))| == |Free(fat)| - 1
  {
    assert Free(Linked(fat, eof, l, c)) == Free(fat) - {c};
  }

  /** The entries of all chains but f are as before. */
  ghost predicate Untouched(fat: seq<nat>, fat': seq<nat>, chs: seq<seq<nat>>, f: nat) {
    && |fat'| == |fat|
    && forall a, i {:trigger chs[a][i]} :: 0 <= a < |chs| && a != f && 0 <= i < |chs[a]| && chs[a][i] < |fat| ==>
         fat'[chs[a][i]] == fat[chs[a][i]]
  }

  lemma UntouchedTwice(fat: seq<nat>, fat': seq<nat>, fat'': seq<nat>, chs: seq<seq<nat>>, chs': seq<seq<nat>>, f: nat)
    requires Untouched(fat, fat', chs, f) && Untouched(fat', fat'', chs', f) && f < |chs| == |chs'|
             && chs' == chs[f := chs'[f]]
    ensures Untouched(fat, fat'', chs, f)
  {
    forall a, i | 0 <= a < |chs| && a != f && 0 <= i < |chs[a]| && chs[a][i] < |fat|
      ensures fat''[chs[a][i]] == fat[chs[a][i]] {
      assert chs'[a][i] == chs[a][i];
    }
  }

  class Fat {
    const fat: array<nat>                 // fat_cache
    const eof: nat                        // end_of_file
    ghost var chains: seq<seq<nat>>

    ghost predicate Valid()
      reads this, fat
    {
      Chains(fat[..], eof, chains)
    }

    /** The last entry of the chain is the end mark in all its bits. */
    ghost predicate Ended(f: nat)
      reads this, fat
    {
      f < |chains| && chains[f] != [] && chains[f][|chains[f]| - 1] < fat.Length && fat[chains[f][|chains[f]| - 1]]
        == eof
    }

    /** fat32_init with an empty volume whose reserved entries are in place. */
    constructor (n: nat, eof: nat)
      requires 2 <= n <= eof < VALUES
      ensures Valid() && chains == [] && fresh(fat) && fat.Length == n && this.eof == eof
    {
      fat := new nat[n](i => if i < 2 then eof else 0);
      this.eof := eof;
      chains := [];
    }

    /** get_free_clus_idx: the first free cluster, if any. */
    method FreeCluster() returns (found: bool, c: nat)
      ensures found <==> Free(fat[..]) != {}
      ensures found ==> c < fat.Length && fat[c] == 0 && forall j :: 0 <= j < c ==> fat[j] != 0
    {
      c := 0;
      while c < fat.Length
        invariant c <= fat.Length && forall j :: 0 <= j < c ==> fat[j] != 0
      {
        if fat[c] == 0 {
          assert c in Free(fat[..]);
          return true, c;
        }
        c := c + 1;
      }
      found := false;
    }

    method SetEntry(c: nat, v: nat)
      requires c < fat.Length
      modifies fat
      ensures fat[..] == old(fat[..])[c := Set(old(fat[c]), v)]
    {
      fat[c] := Set(fat[c], v);
    }

    /** The cluster part of fat32_create and fat32_mkdir: a new chain of one cluster. */
    method Create() returns (c: nat)
      requires Valid() && Free(fat[..]) != {}
      modifies this, fat
      ensures Valid() && chains == old(chains) + [[c]]
      ensures forall f {:trigger chains[f]} :: 0 <= f < |old(chains)| ==> c !in chains[f]
      ensures Untouched(old(fat[..]), fat[..], old(chains), |old(chains)|)
    {
      var found;
      found, c := FreeCluster();
      NewChain(fat[..], eof, chains, c);
      FreeIsUnused(fat[..], eof, chains, c);
      SetEntry(c, eof);
      chains := chains + [[c]];
    }

    /** One cluster further in fat32_write: follow the link, or grow the chain at its end. */
    method Advance(c: nat, ghost f: nat, ghost k: nat) returns (next: nat)
      requires Valid() && f < |chains| && k < |chains[f]| && chains[f][k] == c
      requires k + 1 == |chains[f]| ==> Free(fat[..]) != {}
      modifies this, fat
      ensures Valid() && f < |chains| && chains == old(chains)[f := chains[f]] && old(chains)[f] <= chains[f]
      ensures k + 1 < |chains[f]| && chains[f][k + 1] == next
      ensures |chains[f]| == if k + 1 == |old(chains)[f]| then k + 2 else |old(chains)[f]|
      ensures |Free(fat[..])| == old(|Free(fat[..])|) - (if k + 1 == |old(chains)[f]| then 1 else 0)
      ensures Untouched(old(fat[..]), fat[..], old(chains), f)
    {
      Member(fat[..], eof, chains, f, k);
      ghost var t := fat[..];
      next := Val(fat[c]);
      if k + 1 < |chains[f]| {
        Member(fat[..], eof, chains, f, k + 1);
      }
      if next == eof {
        var found;
        found, next := FreeCluster();
        Grown(t, eof, chains, f, next);
        FreeIsUnused(t, eof, chains, next);
        FreeAfterLink(t, eof, c, next);
        SetEntry(c, next);
        SetEntry(next, eof);
        assert fat[..] == Linked(t, eof, c, next);
        chains := chains[f := chains[f] + [next]];
      }
    }
  }
}
