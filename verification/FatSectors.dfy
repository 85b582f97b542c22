/**
 A file held as a list of sectors, seen as one sequence of bytes.
 */
module FatSectors {
  import opened Common

  const SEC: nat := 512

  type Byte = b: int | 0 <= b < 256

  type Sector = s: seq<Byte> | |s| == SEC witness seq(SEC, _ => 0)

  function Blank(): (s: Sector) {
    seq(SEC, _ => 0)
  }

  function ByteAt(cache: seq<Sector>, i: nat): (b: Byte)
    requires i < SEC * |cache|
  {
    cache[i / SEC][i % SEC]
  }

  /** The first size bytes of the sectors. */
  ghost function Content(cache: seq<Sector>, size: nat): (s: seq<Byte>)
    requires size <= SEC * |cache|
    ensures |s| == size && forall i {:trigger s[i]} :: 0 <= i < size ==> s[i] == ByteAt(cache, i)
  {
    seq(size, i requires 0 <= i < size => ByteAt(cache, i))
  }

  /** Writing b at position pos of s: overwrite, and extend if b reaches beyond the end. */
  function Overwritten(s: seq<Byte>, pos: nat, b: seq<Byte>): (r: seq<Byte>)
    requires pos <= |s|
  {
    s[..pos] + b + if pos + |b| < |s| then s[pos + |b|..] else []
  }

  /** The number of sectors that hold size bytes. */
  function NumSecs(size: nat): (n: nat)
    ensures size <= SEC * n < size + SEC
  {
    (size + SEC - 1) / SEC
  }

  /** The first w bytes of b have been written at pos0; all other bytes are as they were, and new sectors are zero. */
  ghost predicate Partly(cache0: seq<Sector>, cache: seq<Sector>, pos0: nat, b: seq<Byte>, w: nat) {
    && |cache0| <= |cache| && w <= |b|
    && forall i {:trigger ByteAt(cache, i)} :: 0 <= i < SEC * |cache| ==>
         ByteAt(cache, i) == if pos0 <= i < pos0 + w then b[i - pos0]
                             else if i < SEC * |cache0| then ByteAt(cache0, i) else 0
  }

  lemma Start(cache: seq<Sector>, pos: nat, b: seq<Byte>)
    ensures Partly(cache, cache, pos, b, 0)
  {
  }

  lemma GrowPartly(cache0: seq<Sector>, cache: seq<Sector>, pos0: nat, b: seq<Byte>, w: nat)
    requires Partly(cache0, cache, pos0, b, w) && pos0 + w <= SEC * |cache|
    ensures Partly(cache0, cache + [Blank()], pos0, b, w)
  {
    var cache' := cache + [Blank()];
    forall i | 0 <= i < SEC * |cache'|
      ensures ByteAt(cache', i) == if pos0 <= i < pos0 + w then b[i - pos0]
                                   else if i < SEC * |cache0| then ByteAt(cache0, i) else 0
    {
      if i < SEC * |cache| {
        assert ByteAt(cache', i) == ByteAt(cache, i);
      }
    }
  }

  /** The sector after copying piece to offset off. */
  function Patched(sec: Sector, off: nat, piece: seq<Byte>): (r: Sector)
    requires off + |piece| <= SEC
  {
    sec[..off] + piece + sec[off + |piece|..]
  }

  lemma PatchByte(cache: seq<Sector>, pos: nat, piece: seq<Byte>, i: nat)
    requires pos < SEC * |cache| && pos % SEC + |piece| <= SEC && i < SEC * |cache|
    ensures ByteAt(cache[pos / SEC := Patched(cache[pos / SEC], pos % SEC, piece)], i) ==
            if pos <= i < pos + |piece| then piece[i - pos] else ByteAt(cache, i)
  {
    var k, off := pos / SEC, pos % SEC;
    assert pos <= i < pos + |piece| <==> i / SEC == k && off <= i % SEC < off + |piece|;
  }

  lemma StepPartly(cache0: seq<Sector>, cache: seq<Sector>, pos0: nat, b: seq<Byte>, w: nat, sz: nat)
    requires Partly(cache0, cache, pos0, b, w) && w + sz <= |b| && pos0 + w < SEC * |cache|
             && (pos0 + w) % SEC + sz <= SEC
    ensures var pos := pos0 + w;
            Partly(cache0, cache[pos / SEC := Patched(cache[pos / SEC], pos % SEC, b[w..w + sz])], pos0, b, w + sz)
  {
    var pos := pos0 + w;
    var cache' := cache[pos / SEC := Patched(cache[pos / SEC], pos % SEC, b[w..w + sz])];
    forall i | 0 <= i < SEC * |cache'|
      ensures ByteAt(cache', i) == if pos0 <= i < pos0 + (w + sz) then b[i - pos0]
                                   else if i < SEC * |cache0| then ByteAt(cache0, i) else 0
    {
      PatchByte(cache, pos, b[w..w + sz], i);
    }
  }

  /** A finished write is one overwrite of the byte sequence. */
  lemma WriteDone(cache0: seq<Sector>, cache: seq<Sector>, size: nat, pos: nat, b: seq<Byte>)
    requires Partly(cache0, cache, pos, b, |b|) && pos <= size <= SEC * |cache0| && pos + |b| <= SEC * |cache|
    ensures Max(size, pos + |b|) <= SEC * |cache|
    ensures Content(cache, Max(size, pos + |b|)) == Overwritten(Content(cache0, size), pos, b)
  {
    var n := Max(size, pos + |b|);
    var s, r := Content(cache0, size), Content(cache, n);
    var o := Overwritten(s, pos, b);
    forall i | 0 <= i < n ensures r[i] == o[i] {
      assert r[i] == ByteAt(cache, i);
    }
  }

  // ----- sectors on disk

  /** The disk, the block of the first data sector, and the sectors per cluster. */
  datatype Volume = Volume(disk: seq<Sector>, base: nat, spc: nat)

  /** FirstSectorofCluster, as a block number: the clusters from number 2 on follow one another. */
  function FirstSector(v: Volume, c: nat): (k: nat)
    requires c >= 2
  {
    if c == 2 then v.base else FirstSector(v, c - 1) + v.spc
  }

  lemma {:induction false} FirstSectorIs(v: Volume, c: nat)
    requires c >= 2
    ensures FirstSector(v, c) == v.base + (c - 2) * v.spc
  {
    if c > 2 {
      FirstSectorIs(v, c - 1);
      assert (c - 2) * v.spc == (c - 3) * v.spc + v.spc;
    }
  }

  lemma {:induction false} FirstSectorGrows(v: Volume, c: nat, d: nat)
    requires 2 <= c <= d
    ensures FirstSector(v, c) <= FirstSector(v, d)
    decreases d
  {
    if c < d {
      FirstSectorGrows(v, c, d - 1);
    }
  }

  /** The disk has room for a table of n entries: the last of its clusters ends on the disk. */
  predicate HasRoom(v: Volume, n: nat) {
    n >= 2 && v.base + (n - 2) * v.spc <= |v.disk|
  }

  lemma ClusterOnDisk(v: Volume, n: nat, c: nat)
    requires HasRoom(v, n) && 2 <= c < n
    ensures FirstSector(v, c) + v.spc <= |v.disk|
  {
    FirstSectorGrows(v, c + 1, n);
    FirstSectorIs(v, n);
  }

  ghost predicate OnDisk(v: Volume, ch: seq<nat>) {
    forall i {:trigger ch[i]} :: 0 <= i < |ch| ==> ch[i] >= 2 && FirstSector(v, ch[i]) + v.spc <= |v.disk|
  }

  /** The sectors of cluster c; none if it is not on the disk. */
  function ClusterAt(v: Volume, c: nat): (s: seq<Sector>)
    requires c >= 2
  {
    var at := FirstSector(v, c);
    if at + v.spc <= |v.disk| then v.disk[at..at + v.spc] else []
  }

  /** The first n of some sequences of sectors, one after the other. */
  ghost function Concat(ss: seq<seq<Sector>>, n: nat): (s: seq<Sector>)
    requires n <= |ss|
  {
    if n == 0 then [] else Concat(ss, n - 1) + ss[n - 1]
  }

  lemma {:induction false} ConcatPrefix(ss: seq<seq<Sector>>, j: nat, n: nat)
    requires j <= n <= |ss|
    ensures Concat(ss, j) <= Concat(ss, n)
    decreases n
  {
    if j < n {
      ConcatPrefix(ss, j, n - 1);
    }
  }

  ghost function Clusters(v: Volume, ch: seq<nat>): (ss: seq<seq<Sector>>)
    requires OnDisk(v, ch)
    ensures |ss| == |ch| && forall i {:trigger ss[i]} :: 0 <= i < |ch| ==> ss[i] == ClusterAt(v, ch[i])
  {
    seq(|ch|, i requires 0 <= i < |ch| => ClusterAt(v, ch[i]))
  }

  /** The sectors of the first n clusters of a chain, in order. */
  ghost function SectorsUpto(v: Volume, ch: seq<nat>, n: nat): (s: seq<Sector>)
    requires OnDisk(v, ch) && n <= |ch|
  {
    Concat(Clusters(v, ch), n)
  }

  ghost function ChainSectors(v: Volume, ch: seq<nat>): (s: seq<Sector>)
    requires OnDisk(v, ch)
  {
    SectorsUpto(v, ch, |ch|)
  }

  lemma ChainNext(v: Volume, ch: seq<nat>, j: nat)
    requires OnDisk(v, ch) && j < |ch|
    ensures ch[j] >= 2 && FirstSector(v, ch[j]) + v.spc <= |v.disk|
    ensures SectorsUpto(v, ch, j + 1) == SectorsUpto(v, ch, j) + ClusterAt(v, ch[j]) <= ChainSectors(v, ch)
  {
    var ss, n := Clusters(v, ch), j + 1;
    assert ss[j] == ClusterAt(v, ch[j]);
    ConcatPrefix(ss, n, |ss|);
    assert Concat(ss, n) == Concat(ss, j) + ss[j];
  }

  /** How many sectors so many clusters hold. */
  function Capacity(clusters: nat, spc: nat): (n: nat) {
    if clusters == 0 then 0 else Capacity(clusters - 1, spc) + spc
  }

  lemma {:induction false} SectorCount(ss: seq<seq<Sector>>, spc: nat, n: nat)
    requires n <= |ss| && forall i {:trigger ss[i]} :: 0 <= i < |ss| ==> |ss[i]| == spc
    ensures |Concat(ss, n)| == Capacity(n, spc)
  {
    if n > 0 {
      SectorCount(ss, spc, n - 1);
    }
  }

  /** A chain has as many sectors as its clusters hold. */
  lemma ChainLength(v: Volume, ch: seq<nat>)
    requires OnDisk(v, ch)
    ensures |ChainSectors(v, ch)| == Capacity(|ch|, v.spc)
  {
    var ss := Clusters(v, ch);
    forall i | 0 <= i < |ss| ensures |ss[i]| == v.spc {
      assert ch[i] >= 2 && FirstSector(v, ch[i]) + v.spc <= |v.disk|;
    }
    SectorCount(ss, v.spc, |ss|);
  }

  /** The sectors of a chain hold a file of this size. */
  ghost predicate ChainCovers(v: Volume, ch: seq<nat>, size: nat) {
    OnDisk(v, ch) && NumSecs(size) <= |ChainSectors(v, ch)|
  }
}
