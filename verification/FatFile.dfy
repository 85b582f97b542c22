/**
 Open files on a FAT32 volume: contents are cached as a list of sectors, loaded from the chain
 of clusters on first use, and reads and writes act on them as on one byte sequence.
 */
module FatFile {
  import opened Common
  import opened FatTable
  import opened FatSectors
  import Dyadic

  /** Sector number which starts a cluster. */
  function Boundary(which: nat, spc: nat): (n: nat)
    requires spc > 0
  {
    if which % spc == 0 then 1 else 0
  }

  /** How many cluster boundaries a write of len bytes at pos runs into. */
  function Crossings(pos: nat, len: nat, spc: nat): (n: nat)
    requires spc > 0
    decreases len
  {
    if len == 0 then 0
    else
      var sz := Min(len, SEC - pos % SEC);
      Boundary(pos / SEC + 1, spc) + Crossings(pos + sz, len - sz, spc)
  }

  /** Where load_content stops without looking at the end mark: the file has all its sectors. */
  predicate Enough(cache: seq<Sector>, size: nat) {
    |cache| * SEC >= size
  }

  /** No more sectors have been loaded than the size needs. */
  predicate NotTooMany(cache: seq<Sector>, size: nat) {
    cache == [] || (|cache| - 1) * SEC < size
  }

  lemma ExactlyEnough(cache: seq<Sector>, size: nat)
    requires NotTooMany(cache, size)
    ensures |cache| <= NumSecs(size) && (Enough(cache, size) <==> |cache| == NumSecs(size))
  {
  }

  /** A file that has all its sectors has those of its chain that it needs. */
  lemma LoadEnds(v: Volume, ch: seq<nat>, size: nat, j: nat, cache: seq<Sector>)
    requires OnDisk(v, ch) && j <= |ch| && NotTooMany(cache, size) && Enough(cache, size)
    requires j < |ch| ==> ch[j] >= 2
    requires cache <= if j < |ch| then SectorsUpto(v, ch, j) + ClusterAt(v, ch[j]) else SectorsUpto(v, ch, j)
    ensures cache <= ChainSectors(v, ch) && |cache| == Min(NumSecs(size), |ChainSectors(v, ch)|)
  {
    ExactlyEnough(cache, size);
    if j < |ch| {
      ChainNext(v, ch, j);
    }
  }

  /** After a whole cluster: at the end of the chain everything is loaded. */
  lemma LoadGoesOn(v: Volume, ch: seq<nat>, size: nat, isFile: bool, j: nat, cache: seq<Sector>)
    requires OnDisk(v, ch) && j < |ch| && (isFile ==> NotTooMany(cache, size)) && ch[j] >= 2
    requires cache == SectorsUpto(v, ch, j) + ClusterAt(v, ch[j])
    ensures cache == SectorsUpto(v, ch, j + 1)
    ensures j + 1 == |ch| ==> cache == ChainSectors(v, ch)
    ensures isFile ==> |cache| <= NumSecs(size) && (Enough(cache, size) <==> |cache| == NumSecs(size))
  {
    ChainNext(v, ch, j);
    if isFile {
      ExactlyEnough(cache, size);
    }
  }

  lemma SectorByte(cache: seq<Sector>, size: nat, n: nat, o: nat)
    requires n * SEC + o < size && o < SEC && NumSecs(size) <= |cache|
    ensures n < |cache| && Content(cache[..NumSecs(size)], size)[n * SEC + o] == cache[n][o]
  {
    assert n < NumSecs(size);
    assert (n * SEC + o) / SEC == n && (n * SEC + o) % SEC == o;
    assert ByteAt(cache[..NumSecs(size)], n * SEC + o) == cache[n][o];
  }

  class File {
    const table: Fat
    const v: Volume
    const first: nat                // the first cluster
    ghost const f: nat              // the file's chain
    var cache: seq<Sector>          // content_cache
    var size: nat                   // file_size
    var pos: nat                    // f_pos

    constructor (table: Fat, v: Volume, ghost f: nat, first: nat, size: nat)
      ensures this.table == table && this.v == v && this.f == f && this.first == first
      ensures cache == [] && this.size == size && pos == 0
    {
      this.table, this.v, this.f, this.first, this.size := table, v, f, first, size;
      cache, pos := [], 0;
    }

    ghost predicate Linked()
      reads table, table.fat
    {
      table.Valid() && f < |table.chains| && table.chains[f] != [] && table.chains[f][0] == first && v.spc > 0
    }

    /** The contents are in the cache, or can be loaded from the chain. */
    ghost predicate Valid()
      reads this, table, table.fat
    {
      && Linked()
      && (if Cached() then size <= SEC * |cache|
          else ChainCovers(v, table.chains[f], size))
    }

    predicate Cached()
      reads this
    {
      cache != [] || size == 0
    }

    /** The bytes of the file. */
    ghost function Bytes(): (s: seq<Byte>)
      requires Valid()
      reads this, table, table.fat
      ensures |s| == size
    {
      Content(if Cached() then cache else ChainSectors(v, table.chains[f])[..NumSecs(size)], size)
    }

    /** The inner loop of load_content: the sectors of one cluster; done tells whether the file ended there. */
    method LoadCluster(c: nat, ghost s: seq<Sector>, isFile: bool) returns (done: bool)
      requires c >= 2 && cache == s && v.spc > 0 && (isFile ==> NotTooMany(s, size))
      requires FirstSector(v, c) + v.spc <= |v.disk| || (isFile && Enough(s, size))
      modifies this`cache
      ensures cache <= s + ClusterAt(v, c) && (isFile ==> NotTooMany(cache, size))
      ensures if done then isFile && Enough(cache, size) else cache == s + ClusterAt(v, c)
      ensures isFile && Enough(s, size) ==> done && cache == s
    {
      var at, i := FirstSector(v, c), 0;
      while i < v.spc
        invariant 0 <= i <= v.spc && (isFile ==> NotTooMany(cache, size))
        invariant if at + v.spc <= |v.disk| then cache == s + ClusterAt(v, c)[..i] else i == 0 && cache == s
        invariant isFile && Enough(s, size) ==> i == 0
      {
        if isFile && |cache| * SEC >= size {
          return true;
        }
        assert ClusterAt(v, c)[..i] + [v.disk[at + i]] == ClusterAt(v, c)[..i + 1];
        cache := cache + [v.disk[at + i]];
        i := i + 1;
      }
      assert ClusterAt(v, c)[..v.spc] == ClusterAt(v, c);
      done := false;
    }

    /** load_content has loaded the first j clusters and is at cluster c; behind the chain it is only if the file has
        all its sectors. */
    ghost predicate Loading(isFile: bool, j: nat, c: nat)
      reads this, table, table.fat
    {
      && Linked() && OnDisk(v, table.chains[f]) && j <= |table.chains[f]| && cache == SectorsUpto(v, table.chains[f], j)
      && (isFile ==> NotTooMany(cache, size))
      && (if j < |table.chains[f]| then c == table.chains[f][j] else isFile && Enough(cache, size) && c >= 2)
    }

    /** What load_content needs of the chain: enough sectors for the file, or an end mark to stop at. */
    ghost predicate Stops(isFile: bool)
      requires Linked() && OnDisk(v, table.chains[f])
      reads this, table, table.fat
    {
      (isFile && NumSecs(size) <= |ChainSectors(v, table.chains[f])|) || table.Ended(f)
    }

    /** The whole chain, or as many of its sectors as the file needs. */
    ghost predicate LoadedAll(isFile: bool)
      requires Linked() && OnDisk(v, table.chains[f])
      reads this, table, table.fat
    {
      && cache <= ChainSectors(v, table.chains[f])
      && var n := |ChainSectors(v, table.chains[f])|; |cache| == if isFile then Min(NumSecs(size), n) else n
    }

    /** One cluster of load_content: it ends, or the next cluster is known. */
    method LoadNext(isFile: bool, ghost j: nat, c: nat) returns (done: bool, next: nat)
      requires Loading(isFile, j, c) && Stops(isFile)
      modifies this`cache
      ensures if done then LoadedAll(isFile) else j < |table.chains[f]| && Loading(isFile, j + 1, next)
    {
      ghost var ch := table.chains[f];
      if j < |ch| {
        ChainNext(v, ch, j);
      }
      done := LoadCluster(c, cache, isFile);
      if done {
        LoadEnds(v, ch, size, j, cache);
        return true, c;
      }
      ChainEnd(table.fat[..], table.eof, table.chains, f, j);
      LoadGoesOn(v, ch, size, isFile, j, cache);
      return table.fat[c] == table.eof, Val(table.fat[c]);
    }

    /** load_content: the sectors of the chain in order; for a file only as many as it needs, for a directory all. The
        end mark is looked for only if the file needs more than the chain has; then all its bits must be right. */
    method LoadContent(isFile: bool)
      requires Linked() && OnDisk(v, table.chains[f]) && cache == [] && Stops(isFile)
      modifies this`cache
      ensures LoadedAll(isFile)
    {
      ghost var j: nat := 0;
      var c, done := first, false;
      while !done
        invariant if done then LoadedAll(isFile) else Loading(isFile, j, c)
        decreases if done then 0 else |table.chains[f]| + 1 - j
      {
        done, c := LoadNext(isFile, j, c);
        j := j + 1;
      }
    }

    /** Load on first use: the bytes do not change. */
    method EnsureLoaded()
      requires Valid()
      modifies this`cache
      ensures Valid() && Cached() && Bytes() == old(Bytes()) && (old(cache) != [] ==> cache == old(cache))
    {
      if cache == [] && size > 0 {
        LoadContent(true);
        assert cache == ChainSectors(v, table.chains[f])[..NumSecs(size)];
      }
    }

    /** Where the bytes of a file that is not loaded are on the disk: byte o of sector r of the q-th cluster. */
    lemma ByteOnDisk(q: nat, r: nat, o: nat)
      requires Valid() && !Cached() && q < |table.chains[f]| && r < v.spc && o < SEC
      requires SectorNo(q, r, v.spc) * SEC + o < size
      ensures table.chains[f][q] >= 2 && BlockNo(v, table.chains[f][q], r) < |v.disk|
      ensures Bytes()[SectorNo(q, r, v.spc) * SEC + o] == v.disk[BlockNo(v, table.chains[f][q], r)][o]
    {
      var n := SectorNo(q, r, v.spc);
      SectorOnDisk(v, table.chains[f], q, r);
      SectorByte(ChainSectors(v, table.chains[f]), size, n, o);
    }

    /** The copying loop of fat32_read. */
    method ReadSectors(len: nat) returns (buf: seq<Byte>)
      requires pos <= size <= SEC * |cache| && (len > 0 ==> pos / SEC < |cache|)
      modifies this`pos
      ensures pos == Min(old(pos) + len, size) && buf == Content(cache, size)[old(pos)..pos]
    {
      ghost var pos0 := pos;
      var k := pos / SEC;
      buf := [];
      while |buf| < len
        invariant pos0 <= pos <= size && |buf| <= len && pos == pos0 + |buf| && buf == Content(cache, size)[pos0..pos]
        invariant |buf| < len ==> k == pos / SEC < |cache|
        decreases len - |buf|, if |buf| == 0 then 1 else 0
      {
        var off := pos % SEC;
        var sz := Min(Min(len - |buf|, SEC - off), size - pos);
        ReadStep(cache, size, pos0, pos, sz);
        buf := buf + cache[k][off..off + sz];
        pos := pos + sz;
        if pos >= size {
          break;
        }
        k := k + 1;
      }
    }

    /** fat32_read from a position in the file or at its end: the slice of the byte sequence, as far as it goes. At the
        end there must be a sector to look at. */
    method Read(len: nat) returns (buf: seq<Byte>)
      requires Valid() && pos <= size && (len > 0 && pos == size ==> pos % SEC != 0 || pos / SEC < |cache|)
      modifies this`cache, this`pos
      ensures Valid() && Bytes() == old(Bytes())
      ensures pos == Min(old(pos) + len, size) && buf == Bytes()[old(pos)..pos]
    {
      EnsureLoaded();
      buf := ReadSectors(len);
    }

    /** The walk along the chain has come to its k-th cluster c, growing the chain where it ended. */
    ghost predicate Walked(chains0: seq<seq<nat>>, fat0: seq<nat>, k: nat, c: nat)
      reads table, table.fat
    {
      && table.Valid() && f < |chains0| && |table.chains| == |chains0| && table.chains == chains0[f := table.chains[f]]
      && chains0[f] <= table.chains[f] && |table.chains[f]| == Max(|chains0[f]|, k + 1) && table.chains[f][k] == c
      && |table.chains[f]| + |Free(table.fat[..])| == |chains0[f]| + |Free(fat0)|
        && Untouched(fat0, table.fat[..], chains0, f)
    }

    /** The walk of a write that has rest bytes left from position p on. */
    ghost predicate Walking(chains0: seq<seq<nat>>, fat0: seq<nat>, k: nat, c: nat, p: nat, rest: nat, total: nat)
      reads table, table.fat
    {
      v.spc > 0 && Walked(chains0, fat0, k, c) && k + Crossings(p, rest, v.spc) == total < |chains0[f]| + |Free(fat0)|
    }

    /** After a piece of sz bytes, at a cluster boundary, the walk goes one cluster further. */
    method NextCluster(which: nat, c: nat, ghost k: nat, ghost chains0: seq<seq<nat>>, ghost fat0: seq<nat>,
                       ghost p: nat, ghost rest: nat, ghost sz: nat, ghost total: nat)
      returns (next: nat, ghost k': nat)
      requires Walking(chains0, fat0, k, c, p, rest, total) && rest > 0 && sz == Min(rest, SEC - p % SEC)
               && which == p / SEC + 1
      modifies table, table.fat
      ensures Walking(chains0, fat0, k', next, p + sz, rest - sz, total)
    {
      PieceCrossings(p, rest, v.spc, sz);
      next, k' := c, k;
      if which % v.spc == 0 {
        if k + 1 == |table.chains[f]| {
          assert |Free(table.fat[..])| > 0;
        }
        ghost var chains, fat := table.chains, table.fat[..];
        next := table.Advance(c, f, k);
        UntouchedTwice(fat0, fat, table.fat[..], chains0, chains, f);
        k' := k + 1;
      }
    }

    /** The copying part of one round of fat32_write. */
    method WritePiece(k: nat, buf: seq<Byte>, w: nat, sz: nat, ghost cache0: seq<Sector>, ghost pos0: nat,
                      ghost size0: nat)
      requires Partly(cache0, cache, pos0, buf, w) && pos == pos0 + w && k == pos / SEC < |cache|
      requires 0 < sz && w + sz <= |buf| && pos % SEC + sz <= SEC && size == Max(size0, pos0 + w)
      modifies this`cache, this`pos, this`size
      ensures Partly(cache0, cache, pos0, buf, w + sz) && pos == pos0 + w + sz && size == Max(size0, pos0 + w + sz)
      ensures |cache| == if w + sz < |buf| && k + 1 == |old(cache)| then |old(cache)| + 1 else |old(cache)|
    {
      StepPartly(cache0, cache, pos0, buf, w, sz);
      var off := pos % SEC;
      cache := cache[k := cache[k][..off] + buf[w..w + sz] + cache[k][off + sz..]];
      pos := pos + sz;
      if pos > size {
        size := pos;
      }
      if w + sz < |buf| && k == |cache| - 1 {
        GrowPartly(cache0, cache, pos0, buf, w + sz);
        cache := cache + [Blank()];
      }
    }

    /** After w of the bytes: the sectors, the position and the size, and the sector that is next. */
    ghost predicate Written(buf: seq<Byte>, w: nat, k: nat, cache0: seq<Sector>, pos0: nat, size0: nat)
      reads this
    {
      && w <= |buf| && pos == pos0 + w <= SEC * |cache| && Partly(cache0, cache, pos0, buf, w)
        && size == Max(size0, pos0 + w)
      && (w < |buf| ==> k == pos / SEC < |cache|)
    }

    /** One round of copying: as much as fits in the current sector. */
    method WriteRound(buf: seq<Byte>, w: nat, k: nat, ghost cache0: seq<Sector>, ghost pos0: nat, ghost size0: nat)
                      returns (sz: nat)
      requires Written(buf, w, k, cache0, pos0, size0) && w < |buf|
      modifies this`cache, this`pos, this`size
      ensures sz == Min(|buf| - w, SEC - old(pos) % SEC) && 0 < sz <= |buf| - w
              && Written(buf, w + sz, k + 1, cache0, pos0, size0)
    {
      sz := Min(|buf| - w, SEC - pos % SEC);
      PieceSize(pos, |buf| - w, sz);
      WritePiece(k, buf, w, sz, cache0, pos0, size0);
    }

    /** The main loop of fat32_write. */
    method WriteSectors(buf: seq<Byte>)
      requires Linked() && pos <= size <= SEC * |cache| && pos < SEC * |cache|
      requires |table.chains[f]| + |Free(table.fat[..])| > Crossings(pos, |buf|, v.spc)
      modifies this`cache, this`pos, this`size, table, table.fat
      ensures Partly(old(cache), cache, old(pos), buf, |buf|) && pos == old(pos) + |buf| <= SEC * |cache|
      ensures size == Max(old(size), old(pos) + |buf|)
      ensures exists c :: Walked(old(table.chains), old(table.fat[..]), Crossings(old(pos), |buf|, v.spc), c)
    {
      ghost var cache0, pos0, size0, chains0, fat0 := cache, pos, size, table.chains, table.fat[..];
      var which, clus, w := pos / SEC, first, 0;
      ghost var k, total, p, rest := 0, Crossings(pos, |buf|, v.spc), pos, |buf|;
      Start(cache, pos, buf);
      while w < |buf|
        invariant 0 <= w <= |buf| && 0 <= which && p == pos0 + w && rest == |buf| - w
        invariant Written(buf, w, which, cache0, pos0, size0)
        invariant Walking(chains0, fat0, k, clus, p, rest, total)
      {
        var sz;
        sz, clus, k := WriteTurn(buf, w, which, clus, k, p, rest, cache0, pos0, size0, chains0, fat0, total);
        w, which, p, rest := w + sz, which + 1, p + sz, rest - sz;
      }
    }

    /** One turn of the loop of fat32_write: copy, and go on to the next cluster at a boundary. */
    method WriteTurn(buf: seq<Byte>, w: nat, which: nat, c: nat, ghost k: nat, ghost p: nat, ghost rest: nat,
                     ghost cache0: seq<Sector>, ghost pos0: nat, ghost size0: nat, ghost chains0: seq<seq<nat>>,
                     ghost fat0: seq<nat>, ghost total: nat)
      returns (sz: nat, next: nat, ghost k': nat)
      requires w < |buf| && p == pos0 + w && rest == |buf| - w && Written(buf, w, which, cache0, pos0, size0)
      requires Walking(chains0, fat0, k, c, p, rest, total)
      modifies this`cache, this`pos, this`size, table, table.fat
      ensures 0 < sz <= rest && Written(buf, w + sz, which + 1, cache0, pos0, size0)
      ensures Walking(chains0, fat0, k', next, p + sz, rest - sz, total)
    {
      sz := WriteRound(buf, w, which, cache0, pos0, size0);
      next, k' := NextCluster(which + 1, c, k, chains0, fat0, p, rest, sz, total);
    }

    /** Add sectors until there is one for the current position; this happens when the file ends at a sector
        boundary. */
    method AddSector()
      requires Valid() && Cached() && pos <= size
      modifies this`cache
      ensures Valid() && Cached() && Bytes() == old(Bytes()) && pos < SEC * |cache|
      ensures size <= SEC * |cache|
    {
      while |cache| <= pos / SEC
        invariant size <= SEC * |cache| && Content(cache, size) == old(Content(cache, size))
        decreases pos / SEC + 1 - |cache|
      {
        SameContent(cache, size);
        cache := cache + [Blank()];
      }
    }

    /** A write of len bytes has extended this file's chain at its end by what the walk needed, and touched no other. */
    twostate predicate ChainGrew(len: nat)
      requires v.spc > 0
      reads this, table, table.fat
    {
      && f < |table.chains| == |old(table.chains)| && table.chains == old(table.chains)[f := table.chains[f]]
      && old(table.chains)[f] <= table.chains[f]
      && |table.chains[f]| == ClustersAfter(|old(table.chains)[f]|, old(pos), len, v.spc)
      && Untouched(old(table.fat[..]), table.fat[..], old(table.chains), f)
    }

    /** What fat32_write does to its own file. */
    method WriteBytes(buf: seq<Byte>)
      requires Valid() && pos <= size
      requires |table.chains[f]| + |Free(table.fat[..])| > Crossings(pos, |buf|, v.spc)
      modifies this`cache, this`pos, this`size, table, table.fat
      ensures Valid() && pos == old(pos) + |buf| && size == Max(old(size), old(pos) + |buf|) && ChainGrew(|buf|)
      ensures Bytes() == Overwritten(old(Bytes()), old(pos), buf)
    {
      EnsureLoaded();
      AddSector();
      ghost var cache0, size0, pos0 := cache, size, pos;
      WriteSectors(buf);
      WriteDone(cache0, cache, size0, pos0, buf);
    }

    /** fat32_write: overwrite and extend the byte sequence at the current position; the chain grows only at its end,
        and no other file changes. Sectors of the chain that held the file still do exactly if it was long enough. */
    method Write(buf: seq<Byte>) returns (n: nat)
      requires Valid() && pos <= size
      requires |table.chains[f]| + |Free(table.fat[..])| > Crossings(pos, |buf|, v.spc)
      modifies this`cache, this`pos, this`size, table, table.fat
      ensures Valid() && n == |buf| && pos == old(pos) + n && Bytes() == Overwritten(old(Bytes()), old(pos), buf)
      ensures ChainGrew(n)
      ensures HasRoom(v, table.fat.Length) && n > 0 && old(ChainCovers(v, table.chains[f], size)) ==>
                (ChainCovers(v, table.chains[f], size) <==> LongEnough(|old(table.chains)[f]|, old(pos), n, v.spc))
      ensures forall b: File {:trigger b.Valid()} ::
                old(allocated(b)) && b.table == table && b.f != f && old(b.Valid()) ==>
                b.Valid() && b.Bytes() == old(b.Bytes())
    {
      n := |buf|;
      WriteBytes(buf);
      if HasRoom(v, table.fat.Length) && n > 0 && old(ChainCovers(v, table.chains[f], size)) {
        ChainCoversIff(v, table.fat[..], table.eof, table.chains, f, old(table.chains)[f], old(size), old(pos), n);
      }
      forall b: File | old(allocated(b)) && b.table == table && b.f != f && old(b.Valid())
        ensures b.Valid() && b.Bytes() == old(b.Bytes())
      {
        FileKept(b);
      }
    }

    /** tmpfs_lseek64, which FAT32 files share. A position before the start of the file is refused from the start and
        from the current position, but not from the end, where it wraps around. */
    method Seek(offset: int, whence: Whence) returns (ok: bool)
      requires pos <= size < TWO63 && 0 <= offset + TWO63 && offset < TWO63
      modifies this`pos
      ensures ok <==> match whence
                      case FromStart => 0 <= offset <= size
                      case FromHere => 0 <= old(pos) + offset <= size
                      case FromEnd => offset <= 0
      ensures !ok ==> pos == old(pos)
      ensures ok && whence == FromStart ==> pos == offset
      ensures ok && whence == FromHere ==> pos == old(pos) + offset
      ensures ok && whence == FromEnd ==> pos == if -offset <= size then size + offset else TWO64 + size + offset
      ensures pos <= size <==> !(whence == FromEnd && offset + size < 0)
    {
      match whence {
        case FromStart =>
          if offset < 0 || offset > size {
            return false;
          }
          pos := offset;
        case FromHere =>
          var target := (pos + offset) % TWO64;
          if target > size {
            return false;
          }
          pos := target;
        case FromEnd =>
          if offset > 0 {
            return false;
          }
          pos := (size + offset) % TWO64;
      }
      return true;
    }

    /** Write, seek back, read: what was written is read, and the rest of the file is as before. */
    method WriteSeekRead(buf: seq<Byte>) returns (got: seq<Byte>)
      requires Valid() && pos <= size && pos + |buf| < TWO63 && size < TWO63 && buf != []
      requires |table.chains[f]| + |Free(table.fat[..])| > Crossings(pos, |buf|, v.spc)
      modifies this`cache, this`pos, this`size, table, table.fat
      ensures Valid() && got == buf && size == Max(old(size), old(pos) + |buf|)
      ensures Bytes()[..old(pos)] == old(Bytes())[..old(pos)]
      ensures forall i {:trigger Bytes()[i]} :: old(pos) + |buf| <= i < old(size) ==> Bytes()[i] == old(Bytes())[i]
    {
      var start := pos;
      ghost var s := Bytes();
      var n := Write(buf);
      ReadsBack(s, start, buf);
      var ok := Seek(start, FromStart);
      got := Read(n);
    }
  }

  datatype Whence = FromStart | FromHere | FromEnd

  /** In an empty file, a seek to one byte before the end is accepted and leads to the largest 64-bit position. */
  method SeekBeforeStart(file: File) returns (ok: bool)
    requires file.size == 0 && file.pos == 0
    modifies file`pos
    ensures ok && file.pos == TWO64 - 1 > file.size
  {
    ok := file.Seek(-1, FromEnd);
  }

  lemma ReadsBack(s: seq<Byte>, pos: nat, b: seq<Byte>)
    requires pos <= |s|
    ensures var r := Overwritten(s, pos, b);
            && |r| == Max(|s|, pos + |b|) && r[pos..pos + |b|] == b && r[..pos] == s[..pos]
            && forall i {:trigger r[i]} :: pos + |b| <= i < |s| ==> r[i] == s[i]
  {
    var r := Overwritten(s, pos, b);
    assert r[..pos] == s[..pos];
    assert r[pos..pos + |b|] == b;
  }

  /** A file that is not changed itself keeps its bytes when its chain is as before. */
  twostate lemma FileKept(b: File)
    requires old(b.Valid()) && unchanged(b) && b.table.Valid() && b.f < |b.table.chains|
    requires b.table.chains[b.f] == old(b.table.chains[b.f])
    ensures b.Valid() && b.Bytes() == old(b.Bytes())
  {
  }

  /** fat32_create: an empty file with a chain of its own; no other file changes. */
  method CreateFile(table: Fat, v: Volume) returns (file: File)
    requires table.Valid() && Free(table.fat[..]) != {} && v.spc > 0
    modifies table, table.fat
    ensures fresh(file) && file.table == table && file.v == v && file.Valid()
    ensures file.Bytes() == [] && file.pos == 0 && file.f == |old(table.chains)|
    ensures table.chains == old(table.chains) + [[file.first]]
    ensures forall b: File {:trigger b.Valid()} :: old(allocated(b)) && b.table == table && old(b.Valid()) ==>
              b.Valid() && b.Bytes() == old(b.Bytes())
  {
    ghost var f := |table.chains|;
    var c := table.Create();
    file := new File(table, v, f, c, 0);
    forall b: File | old(allocated(b)) && b.table == table && old(b.Valid())
      ensures b.Valid() && b.Bytes() == old(b.Bytes())
    {
      FileKept(b);
    }
  }

  // ----- where the bytes are on the disk

  /** The number in its file of sector r of the q-th cluster. */
  function SectorNo(q: nat, r: nat, spc: nat): (n: nat) {
    Capacity(q, spc) + r
  }

  /** The block of sector r of cluster c: the clusters follow one another from number 2 on. */
  function BlockNo(v: Volume, c: nat, r: nat): (k: nat)
    requires c >= 2
  {
    v.base + SectorNo(c - 2, r, v.spc)
  }

  lemma {:induction false} ConcatAt(ss: seq<seq<Sector>>, spc: nat, k: nat, q: nat, r: nat)
    requires q < k <= |ss| && r < spc && forall i {:trigger ss[i]} :: 0 <= i < |ss| ==> |ss[i]| == spc
    ensures SectorNo(q, r, spc) < |Concat(ss, k)| && Concat(ss, k)[SectorNo(q, r, spc)] == ss[q][r]
  {
    if q < k - 1 {
      ConcatAt(ss, spc, k - 1, q, r);
    } else {
      SectorCount(ss, spc, q);
    }
  }

  lemma {:induction false} BlockIs(v: Volume, c: nat, r: nat)
    requires c >= 2
    ensures BlockNo(v, c, r) == FirstSector(v, c) + r
  {
    if c > 2 {
      BlockIs(v, c - 1, r);
    }
  }

  /** The sectors of a chain, on the disk. */
  lemma SectorOnDisk(v: Volume, ch: seq<nat>, q: nat, r: nat)
    requires OnDisk(v, ch) && q < |ch| && r < v.spc
    ensures ch[q] >= 2 && SectorNo(q, r, v.spc) < |ChainSectors(v, ch)| && BlockNo(v, ch[q], r) < |v.disk|
    ensures ChainSectors(v, ch)[SectorNo(q, r, v.spc)] == v.disk[BlockNo(v, ch[q], r)]
  {
    var ss := Clusters(v, ch);
    forall i | 0 <= i < |ss| ensures |ss[i]| == v.spc {
      assert ch[i] >= 2 && FirstSector(v, ch[i]) + v.spc <= |v.disk|;
    }
    ConcatAt(ss, v.spc, |ch|, q, r);
    assert ch[q] >= 2 && FirstSector(v, ch[q]) + v.spc <= |v.disk|;
    BlockIs(v, ch[q], r);
  }

  // ----- how far a write walks along the chain

  /** The cluster of the file that sector i is in: the boundaries up to it. */
  function ClusterOf(i: nat, spc: nat): (q: nat)
    requires spc > 0
  {
    if i == 0 then 0 else ClusterOf(i - 1, spc) + Boundary(i, spc)
  }

  lemma {:induction false} ClusterOfIs(i: nat, spc: nat)
    requires spc > 0
    ensures ClusterOf(i, spc) == i / spc
  {
    if i == 0 {
      Dyadic.DivModUnique(0, spc, 0, 0);
    } else {
      ClusterOfIs(i - 1, spc);
      Dyadic.NextQuotient(i - 1, spc);
    }
  }

  /** The boundaries that a write runs into are those between its first sector and the end of its last. */
  lemma {:induction false} CrossingsAre(pos: nat, len: nat, spc: nat)
    requires len > 0 && spc > 0
    ensures Crossings(pos, len, spc) + ClusterOf(pos / SEC, spc) == ClusterOf(NumSecs(pos + len), spc)
    decreases len
  {
    var sz := Min(len, SEC - pos % SEC);
    PieceSize(pos, len, sz);
    PieceCrossings(pos, len, spc, sz);
    if sz < len {
      CrossingsAre(pos + sz, len - sz, spc);
    } else {
      assert NumSecs(pos + len) == pos / SEC + 1;
    }
  }

  /** The number of clusters after a write to a file that had some. */
  function ClustersAfter(clusters: nat, pos: nat, len: nat, spc: nat): (n: nat)
    requires spc > 0
  {
    Max(clusters, Crossings(pos, len, spc) + 1)
  }

  lemma {:induction false} CapacityIs(clusters: nat, spc: nat)
    ensures Capacity(clusters, spc) == clusters * spc
  {
    if clusters > 0 {
      CapacityIs(clusters - 1, spc);
      assert clusters * spc == (clusters - 1) * spc + spc;
    }
  }

  lemma {:induction false} MoreCapacity(a: nat, b: nat, spc: nat)
    requires a <= b
    ensures Capacity(a, spc) <= Capacity(b, spc)
    decreases b
  {
    if a < b {
      MoreCapacity(a, b - 1, spc);
    }
  }

  /** A sector number is what the clusters before it hold, and its place in its cluster. */
  lemma SectorSplit(i: nat, spc: nat)
    requires spc > 0
    ensures Capacity(ClusterOf(i, spc), spc) + i % spc == i && i % spc < spc
  {
    ClusterOfIs(i, spc);
    CapacityIs(i / spc, spc);
    Dyadic.RemainderBelow(i, spc);
    assert i == i / spc * spc + i % spc;
  }

  /** A write that starts in cluster number q of the file and ends before sector number last: it starts in the first
      cluster, or in the second and ends with a cluster. */
  predicate Near(q: nat, last: nat, spc: nat)
    requires spc > 0
  {
    q == 0 || (q == 1 && last % spc == 0)
  }

  lemma WalkedFar(last: nat, spc: nat, q: nat, walked: nat)
    requires spc > 0 && walked + q == ClusterOf(last, spc) + 1
    ensures last <= Capacity(walked, spc) <==> Near(q, last, spc)
  {
    var d := ClusterOf(last, spc);
    SectorSplit(last, spc);
    if q == 0 {
      assert Capacity(walked, spc) == Capacity(d, spc) + spc;
    } else if q >= 2 {
      MoreCapacity(walked, d - 1, spc);
      assert Capacity(d, spc) == Capacity(d - 1, spc) + spc;
    }
  }

  /** So many clusters are enough for the write already, or it starts in the first cluster, or it starts in the second
      and ends with a cluster. */
  predicate LongEnough(clusters: nat, pos: nat, len: nat, spc: nat)
    requires spc > 0
  {
    NumSecs(pos + len) <= Capacity(clusters, spc) || Near(ClusterOf(pos / SEC, spc), NumSecs(pos + len), spc)
  }

  /** So many clusters that hold the file still do after a write, with those the walk added, exactly in that case. */
  lemma CoversIff(clusters: nat, size: nat, pos: nat, len: nat, spc: nat)
    requires len > 0 && spc > 0 && pos <= size && NumSecs(size) <= Capacity(clusters, spc)
    ensures NumSecs(Max(size, pos + len)) <= Capacity(ClustersAfter(clusters, pos, len, spc), spc) <==>
              LongEnough(clusters, pos, len, spc)
  {
    var walked := Crossings(pos, len, spc) + 1;
    CrossingsAre(pos, len, spc);
    WalkedFar(NumSecs(pos + len), spc, ClusterOf(pos / SEC, spc), walked);
    MaxSecs(size, pos + len);
    if clusters < walked {
      MoreCapacity(clusters, walked, spc);
    } else {
      MoreCapacity(walked, clusters, spc);
    }
  }

  /** Every chain of a table for which the disk has room is on the disk. */
  lemma ChainOnDisk(v: Volume, fat: seq<nat>, eof: nat, chs: seq<seq<nat>>, f: nat)
    requires Chains(fat, eof, chs) && f < |chs| && HasRoom(v, |fat|)
    ensures OnDisk(v, chs[f])
  {
    forall i | 0 <= i < |chs[f]| ensures chs[f][i] >= 2 && FirstSector(v, chs[f][i]) + v.spc <= |v.disk| {
      Member(fat, eof, chs, f, i);
      ClusterOnDisk(v, |fat|, chs[f][i]);
    }
  }

  /** A chain of the table whose sectors held the file: after a write they do so, from the disk, exactly if the chain
      was long enough. */
  lemma ChainCoversIff(v: Volume, fat: seq<nat>, eof: nat, chs: seq<seq<nat>>, f: nat, before: seq<nat>,
                       size: nat, pos: nat, len: nat)
    requires Chains(fat, eof, chs) && f < |chs| && HasRoom(v, |fat|) && v.spc > 0 && len > 0 && pos <= size
    requires ChainCovers(v, before, size) && |chs[f]| == ClustersAfter(|before|, pos, len, v.spc)
    ensures ChainCovers(v, chs[f], Max(size, pos + len)) <==> LongEnough(|before|, pos, len, v.spc)
  {
    ChainOnDisk(v, fat, eof, chs, f);
    ChainLength(v, before);
    ChainLength(v, chs[f]);
    CoversIff(|before|, size, pos, len, v.spc);
  }

  lemma MaxSecs(a: nat, b: nat)
    ensures NumSecs(Max(a, b)) == Max(NumSecs(a), NumSecs(b))
  {
  }

  /** With one sector per cluster, the third append of a sector leaves a chain of two clusters for three sectors. */
  lemma ThirdAppendIsNotCovered()
    ensures ClustersAfter(ClustersAfter(ClustersAfter(1, 0, SEC, 1), SEC, SEC, 1), 2 * SEC, SEC, 1)
            == 2 < NumSecs(3 * SEC)
  {
    CrossingsAre(0, SEC, 1);
    CrossingsAre(SEC, SEC, 1);
    CrossingsAre(2 * SEC, SEC, 1);
    assert ClusterOf(1, 1) == 1 && ClusterOf(2, 1) == 2 && ClusterOf(3, 1) == 3;
  }

  lemma SameContent(cache: seq<Sector>, size: nat)
    requires size <= SEC * |cache|
    ensures Content(cache + [Blank()], size) == Content(cache, size)
  {
    forall i | 0 <= i < size ensures ByteAt(cache + [Blank()], i) == ByteAt(cache, i) {
    }
  }

  /** A whole sector, or the rest of the write, is next. */
  lemma PieceSize(pos: nat, len: nat, sz: nat)
    requires len > 0 && sz == Min(len, SEC - pos % SEC)
    ensures 0 < sz <= len && pos % SEC + sz <= SEC && pos / SEC * SEC + SEC >= pos + sz
    ensures sz < len ==> (pos + sz) / SEC == pos / SEC + 1
  {
  }

  lemma PieceCrossings(pos: nat, len: nat, spc: nat, sz: nat)
    requires len > 0 && spc > 0 && sz == Min(len, SEC - pos % SEC)
    ensures Crossings(pos, len, spc) == Boundary(pos / SEC + 1, spc) + Crossings(pos + sz, len - sz, spc)
  {
  }

  lemma ReadStep(cache: seq<Sector>, size: nat, pos0: nat, pos: nat, sz: nat)
    requires size <= SEC * |cache| && pos0 <= pos && pos + sz <= size && pos % SEC + sz <= SEC && pos / SEC < |cache|
    ensures var s := Content(cache, size);
            s[pos0..pos] + cache[pos / SEC][pos % SEC..pos % SEC + sz] == s[pos0..pos + sz]
    ensures sz == SEC - pos % SEC ==> (pos + sz) / SEC == pos / SEC + 1
  {
    ReadPiece(cache, size, pos, sz);
    var s := Content(cache, size);
    assert s[pos0..pos] + s[pos..pos + sz] == s[pos0..pos + sz];
  }

  lemma ReadPiece(cache: seq<Sector>, size: nat, pos: nat, sz: nat)
    requires size <= SEC * |cache| && pos + sz <= size && pos % SEC + sz <= SEC && pos / SEC < |cache|
    ensures cache[pos / SEC][pos % SEC..pos % SEC + sz] == Content(cache, size)[pos..pos + sz]
  {
    var k, off := pos / SEC, pos % SEC;
    var a, b := cache[k][off..off + sz], Content(cache, size)[pos..pos + sz];
    forall i | 0 <= i < sz ensures a[i] == b[i] {
      assert (pos + i) / SEC == k && (pos + i) % SEC == off + i;
      assert b[i] == ByteAt(cache, pos + i);
    }
  }

  /** The entry of the j-th cluster links to the next one, and only the last one can carry the end mark. */
  lemma ChainEnd(fat: seq<nat>, eof: nat, chs: seq<seq<nat>>, f: nat, j: nat)
    requires Chains(fat, eof, chs) && f < |chs| && j < |chs[f]|
    ensures 2 <= chs[f][j] < |fat| && Val(fat[chs[f][j]]) == (if j + 1 < |chs[f]| then chs[f][j + 1] else eof)
            && eof >= 2
    ensures fat[chs[f][j]] == eof ==> j == |chs[f]| - 1
  {
    Member(fat, eof, chs, f, j);
    if j + 1 < |chs[f]| {
      Member(fat, eof, chs, f, j + 1);
    }
  }
}
