/**
 Copying an address space: which walks a change to one subtree can affect, and what
 one step of page_table_fork does to the source and to the copy.
 */
module PageFork {
  import opened Common
  import opened PageWalk

  /** The leaf that fork leaves in both tables: RAM pages become read-only. */
  function Protected(ram: nat, e: Entry): (r: Entry) {
    if e.frame < ram then e.(rdonly := true) else e
  }

  function Forked(ram: nat, o: Option<Entry>): (r: Option<Entry>)
    ensures o == None ==> r == None
    ensures o.Some? ==> r == Some(o.value.(rdonly := o.value.rdonly || o.value.frame < ram))
  {
    match o
    case None => None
    case Some(e) => Some(Protected(ram, e))
  }

  /** The entry is a RAM page that could be written before the fork. */
  predicate WasWritable(ram: nat, o: Option<Entry>) {
    o.Some? && o.value.frame < ram && !o.value.rdonly
  }

  /** Place p lies in the subtree of the level-l table with leading digits q in address space r. */
  ghost predicate Below(p: Place, r: nat, l: nat, q: nat) {
    p.root == r && p.level <= l && Shift(p.prefix, l - p.level) == q
  }

  lemma {:induction false} ShiftShift(v: nat, a: nat, b: nat)
    ensures Shift(Shift(v, a), b) == Shift(v, a + b)
  {
    if b > 0 {
      ShiftShift(v, a, b - 1);
    }
  }

  /** The subtree of a child lies in the subtree of its parent. */
  lemma ChildBelow(p: Place, r: nat, l: nat, q: nat, i: nat)
    requires l > 0 && i < NUM_PT_ENTRIES && Below(p, r, l - 1, q * 512 + i)
    ensures Below(p, r, l, q)
  {
    assert Shift(p.prefix, l - p.level) == Shift(p.prefix, l - 1 - p.level) / 512;
  }

  /** Every table outside the subtree, other than dst, is as before. */
  ghost predicate Kept(m: Store, m': Store, pl: Places, r: nat, l: nat, q: nat, dst: nat) {
    forall t {:trigger pl[t]} :: t in pl && t != dst && !Below(pl[t], r, l, q) ==> t in m && t in m' && m'[t] == m[t]
  }

  /** A walk that does not enter the subtree is as before. */
  lemma KeptWalk(m: Store, m': Store, pl: Places, raw: set<nat>, r: nat, l: nat, q: nat, dst: nat, t: nat, x: nat,
                 k: nat, v: nat)
    requires Wf(m, pl, raw) && Kept(m, m', pl, r, l, q, dst) && dst in raw && t !in raw && OnWalk(pl, t, x, k, v)
    requires x != r || Prefix(v, l) != q
    ensures Walk(m', t, k, v) == Walk(m, t, k, v)
  {
    forall y | y in pl && y !in raw && pl[y].root == x && pl[y].level <= k && pl[y].prefix == Prefix(v, pl[y].level)
      ensures y in m' && m'[y][Idx(v, pl[y].level)] == m[y][Idx(v, pl[y].level)]
    {
      if pl[y].level <= l {
        ShiftShift(v, pl[y].level + 1, l - pl[y].level);
      }
    }
    WalkFrame(m, m', pl, raw, t, x, k, v);
  }

  /** A table not yet filled in may hold anything. */
  lemma AddRaw(m: Store, pl: Places, raw: set<nat>, n: nat, p: Place, junk: Table)
    requires Wf(m, pl, raw) && n !in m && p.level <= PGD
    ensures Wf(m[n := junk], pl[n := p], raw + {n})
  {
    var m', pl', raw' := m[n := junk], pl[n := p], raw + {n};
    forall x, j | x in m' && x !in raw' && 0 <= j < NUM_PT_ENTRIES ensures EntryOk(pl', raw', pl'[x], j, m'[x][j]) {
      assert EntryOk(pl, raw, pl[x], j, m[x][j]);
    }
  }

  lemma WriteRaw(m: Store, pl: Places, raw: set<nat>, t: nat, i: nat, e: Entry)
    requires Wf(m, pl, raw) && t in raw && i < NUM_PT_ENTRIES
    ensures Wf(m[t := m[t][i := e]], pl, raw)
  {
    var m' := m[t := m[t][i := e]];
    forall x, j | x in m' && x !in raw && 0 <= j < NUM_PT_ENTRIES ensures EntryOk(pl, raw, pl[x], j, m'[x][j]) {
      assert EntryOk(pl, raw, pl[x], j, m[x][j]);
    }
  }

  /** Once all its entries are in order, the table is filled in. */
  lemma FinishRaw(m: Store, pl: Places, raw: set<nat>, t: nat)
    requires Wf(m, pl, raw) && t in raw
    requires forall i :: 0 <= i < NUM_PT_ENTRIES ==> EntryOk(pl, raw, pl[t], i, m[t][i])
    ensures Wf(m, pl, raw - {t})
  {
    var raw' := raw - {t};
    forall x, j | x in m && x !in raw' && 0 <= j < NUM_PT_ENTRIES ensures EntryOk(pl, raw', pl[x], j, m[x][j]) {
      assert EntryOk(pl, raw, pl[x], j, m[x][j]);
    }
  }

  ghost predicate Extends(pl: Places, pl': Places) {
    forall x {:trigger pl[x]} {:trigger pl'[x]} :: x in pl ==> x in pl' && pl'[x] == pl[x]
  }

  /** The fixed parts of one call of page_table_fork: source and copy of the level-l table with leading digits q. */
  datatype Job = Job(ram: nat, srcRoot: nat, dstRoot: nat, src: nat, dst: nat, level: nat, prefix: nat)

  ghost predicate JobOk(job: Job, pl: Places, raw: set<nat>) {
    && job.srcRoot != job.dstRoot && job.level <= PGD
    && job.src in pl && job.src !in raw && pl[job.src] == Place(job.srcRoot, job.level, job.prefix)
    && job.dst in pl && job.dst in raw && pl[job.dst] == Place(job.dstRoot, job.level, job.prefix)
    && (forall t {:trigger pl[t]} :: t in raw ==> t in pl && pl[t].root == job.dstRoot)
  }

  /** Only tables of the copy are new, and outside the source subtree only dst has changed. */
  ghost predicate Framed(job: Job, m0: Store, m: Store, pl0: Places, pl: Places) {
    && Extends(pl0, pl)
    && (forall t {:trigger pl[t]} :: t in pl && t !in pl0 ==> pl[t].root == job.dstRoot)
    && Kept(m0, m, pl0, job.srcRoot, job.level, job.prefix, job.dst)
  }

  /** The pages that the job covers through entries lo up to hi translate, in t, as the given store says they should. */
  ghost predicate Translates(job: Job, m0: Store, m: Store, t: nat, lo: nat, hi: nat) {
    forall v: nat {:trigger Walk(m, t, job.level, v)} ::
      Prefix(v, job.level) == job.prefix && lo <= Idx(v, job.level) < hi ==>
      Walk(m, t, job.level, v) == Forked(job.ram, Walk(m0, job.src, job.level, v))
  }

  ghost predicate Untouched(job: Job, m0: Store, m: Store, lo: nat) {
    && job.src in m0 && job.src in m
    && (forall j :: lo <= j < NUM_PT_ENTRIES ==> m[job.src][j] == m0[job.src][j])
    && (forall v: nat {:trigger Walk(m, job.src, job.level, v)} ::
          Prefix(v, job.level) == job.prefix && lo <= Idx(v, job.level) ==>
          Walk(m, job.src, job.level, v) == Walk(m0, job.src, job.level, v))
  }

  /** What is fixed during one call: a job in a well-formed store. */
  ghost predicate Given(job: Job, m0: Store, pl0: Places, raw: set<nat>) {
    JobOk(job, pl0, raw) && Wf(m0, pl0, raw)
  }

  /** What changes: the first i entries are copied. */
  ghost predicate Upto(job: Job, m0: Store, m: Store, pl0: Places, pl: Places, raw: set<nat>, i: nat)
    requires Given(job, m0, pl0, raw)
  {
    && Wf(m, pl, raw) && i <= NUM_PT_ENTRIES
    && Framed(job, m0, m, pl0, pl)
    && (forall j :: 0 <= j < i ==> EntryOk(pl, raw, pl0[job.dst], j, m[job.dst][j]))
    && Translates(job, m0, m, job.src, 0, i) && Translates(job, m0, m, job.dst, 0, i)
    && Untouched(job, m0, m, i)
  }

  ghost predicate Copied(job: Job, m0: Store, m: Store, pl0: Places, pl: Places, raw: set<nat>, i: nat) {
    Given(job, m0, pl0, raw) && Upto(job, m0, m, pl0, pl, raw, i)
  }

  /** All entries are copied and the copy is filled in. */
  ghost predicate Done(job: Job, m0: Store, m: Store, pl0: Places, pl: Places, raw: set<nat>) {
    && JobOk(job, pl0, raw) && Wf(m0, pl0, raw) && Wf(m, pl, raw - {job.dst}) && Framed(job, m0, m, pl0, pl)
    && Translates(job, m0, m, job.src, 0, NUM_PT_ENTRIES) && Translates(job, m0, m, job.dst, 0, NUM_PT_ENTRIES)
  }

  lemma StartCopy(job: Job, m0: Store, pl0: Places, raw: set<nat>)
    requires JobOk(job, pl0, raw) && Wf(m0, pl0, raw)
    ensures Copied(job, m0, m0, pl0, pl0, raw, 0)
  {
  }

  lemma FinishCopy(job: Job, m0: Store, m: Store, pl0: Places, pl: Places, raw: set<nat>)
    requires Copied(job, m0, m, pl0, pl, raw, NUM_PT_ENTRIES)
    ensures Done(job, m0, m, pl0, pl, raw)
  {
    FinishRaw(m, pl, raw, job.dst);
  }

  /** Both tables after entry i, which is a leaf or empty, is copied. */
  function LeafCopied(job: Job, m: Store, i: nat): (m': Store)
    requires job.src in m && job.dst in m && i < NUM_PT_ENTRIES
  {
    var e := Protected(job.ram, m[job.src][i]);
    var m1 := m[job.src := m[job.src][i := e]];
    m1[job.dst := m1[job.dst][i := e]]
  }

  lemma LeafStepWf(job: Job, m0: Store, m: Store, pl0: Places, pl: Places, raw: set<nat>, i: nat)
    requires Copied(job, m0, m, pl0, pl, raw, i) && i < NUM_PT_ENTRIES
    requires job.level == 0 || !m[job.src][i].valid
    ensures Wf(LeafCopied(job, m, i), pl, raw)
    ensures EntryOk(pl, raw, pl0[job.dst], i, LeafCopied(job, m, i)[job.dst][i])
  {
    var e := m[job.src][i];
    assert pl[job.src] == pl0[job.src] && pl[job.dst] == pl0[job.dst];
    assert EntryOk(pl, raw, pl[job.src], i, e);
    var e' := Protected(job.ram, e);
    WriteKeepsWf(m, pl, raw, job.src, i, e');
    WriteRaw(m[job.src := m[job.src][i := e']], pl, raw, job.dst, i, e');
  }

  lemma LeafStepFrame(job: Job, m0: Store, m: Store, pl0: Places, pl: Places, raw: set<nat>, i: nat)
    requires Copied(job, m0, m, pl0, pl, raw, i) && i < NUM_PT_ENTRIES
    ensures Framed(job, m0, LeafCopied(job, m, i), pl0, pl)
  {
    var m' := LeafCopied(job, m, i);
    assert Below(pl0[job.src], job.srcRoot, job.level, job.prefix);
    forall t | t in pl0 && t != job.dst && !Below(pl0[t], job.srcRoot, job.level, job.prefix)
      ensures t in m' && m'[t] == m0[t]
    {
    }
  }

  /** Stores that agree on the filled-in tables below level l agree on the walks that start there. */
  lemma LowerWalk(m: Store, m': Store, pl: Places, raw: set<nat>, t: nat, x: nat, k: nat, v: nat)
    requires Wf(m, pl, raw) && OnWalk(pl, t, x, k, v) && t !in raw
    requires forall y {:trigger pl[y]} :: y in pl && y !in raw && pl[y].level <= k ==> y in m' && m'[y] == m[y]
    ensures Walk(m', t, k, v) == Walk(m, t, k, v)
  {
    WalkFrame(m, m', pl, raw, t, x, k, v);
  }

  /** A walk from the job's source or copy that starts with an entry kept in both stores. */
  lemma EntryWalk(m: Store, m': Store, pl: Places, raw: set<nat>, t: nat, l: nat, v: nat)
    requires Wf(m, pl, raw) && t in m && t in m' && t in pl && pl[t].level == l && pl[t].prefix == Prefix(v, l)
    requires m'[t][Idx(v, l)] == m[t][Idx(v, l)] && EntryOk(pl, raw, pl[t], Idx(v, l), m[t][Idx(v, l)])
    requires forall c {:trigger Walk(m, c, l - 1, v)} :: l > 0 && c !in raw && OnWalk(pl, c, pl[t].root, l - 1, v)
                                                         ==> Walk(m', c, l - 1, v) == Walk(m, c, l - 1, v)
    ensures Walk(m', t, l, v) == Walk(m, t, l, v)
  {
    var e := m[t][Idx(v, l)];
    PrefixStep(v, l);
    if l > 0 && e.valid {
      assert OnWalk(pl, e.frame, pl[t].root, l - 1, v);
      assert Walk(m', e.frame, l - 1, v) == Walk(m, e.frame, l - 1, v);
    }
  }

  /** Entries other than i translate as before a leaf entry i is copied. */
  lemma LeafStepOthers(job: Job, m0: Store, m: Store, pl0: Places, pl: Places, raw: set<nat>, i: nat, v: nat)
    requires Copied(job, m0, m, pl0, pl, raw, i) && i < NUM_PT_ENTRIES
    requires Prefix(v, job.level) == job.prefix && Idx(v, job.level) != i
    ensures Walk(LeafCopied(job, m, i), job.src, job.level, v) == Walk(m, job.src, job.level, v)
    ensures Idx(v, job.level) < i ==>
            Walk(LeafCopied(job, m, i), job.dst, job.level, v) == Walk(m, job.dst, job.level, v)
  {
    var m' := LeafCopied(job, m, i);
    var l := job.level;
    assert pl[job.src] == pl0[job.src] && pl[job.dst] == pl0[job.dst];
    if l > 0 {
      var k := l - 1;
      forall c, x | c !in raw && OnWalk(pl, c, x, k, v) ensures Walk(m', c, k, v) == Walk(m, c, k, v) {
        LowerWalk(m, m', pl, raw, c, x, k, v);
      }
    }
    assert EntryOk(pl, raw, pl[job.src], Idx(v, l), m[job.src][Idx(v, l)]);
    EntryWalk(m, m', pl, raw, job.src, l, v);
    if Idx(v, l) < i {
      EntryWalk(m, m', pl, raw, job.dst, l, v);
    }
  }

  lemma LeafStep(job: Job, m0: Store, m: Store, pl0: Places, pl: Places, raw: set<nat>, i: nat)
    requires Copied(job, m0, m, pl0, pl, raw, i) && i < NUM_PT_ENTRIES
    requires job.level == 0 || !m[job.src][i].valid
    ensures Copied(job, m0, LeafCopied(job, m, i), pl0, pl, raw, i + 1)
  {
    var m', l := LeafCopied(job, m, i), job.level;
    LeafStepWf(job, m0, m, pl0, pl, raw, i);
    LeafStepFrame(job, m0, m, pl0, pl, raw, i);
    forall v: nat | Prefix(v, l) == job.prefix
      ensures Idx(v, l) < i + 1 ==>
              Walk(m', job.src, l, v) == Walk(m', job.dst, l, v) == Forked(job.ram, Walk(m0, job.src, l, v))
      ensures Idx(v, l) >= i + 1 ==> Walk(m', job.src, l, v) == Walk(m0, job.src, l, v)
    {
      if Idx(v, l) != i {
        LeafStepOthers(job, m0, m, pl0, pl, raw, i, v);
      } else {
        assert Walk(m, job.src, l, v) == Walk(m0, job.src, l, v);
      }
    }
  }

  // ----- an entry that is a table

  function ChildJob(job: Job, m: Store, i: nat, n: nat): (r: Job)
    requires job.level > 0 && job.src in m && i < NUM_PT_ENTRIES
  {
    Job(job.ram, job.srcRoot, job.dstRoot, m[job.src][i].frame, n, job.level - 1, job.prefix * 512 + i)
  }

  function ChildLinked(job: Job, m: Store, i: nat, n: nat, junk: Table): (m': Store)
    requires job.dst in m && i < NUM_PT_ENTRIES
  {
    var m1 := m[n := junk];
    m1[job.dst := m1[job.dst][i := LinkEntry(n)]]
  }

  /** The recursive call may be made on the child and the fresh table. */
  lemma TableStepStart(job: Job, m0: Store, m: Store, pl0: Places, pl: Places, raw: set<nat>, i: nat, n: nat,
                       junk: Table)
    requires Copied(job, m0, m, pl0, pl, raw, i) && i < NUM_PT_ENTRIES
    requires job.level > 0 && m[job.src][i].valid && n !in m
    ensures var cj, m2 := ChildJob(job, m, i, n), ChildLinked(job, m, i, n, junk);
            var pl2, raw2 := pl[n := Place(job.dstRoot, job.level - 1, job.prefix * 512 + i)], raw + {n};
            JobOk(cj, pl2, raw2) && Wf(m2, pl2, raw2)
  {
    var p := Place(job.dstRoot, job.level - 1, job.prefix * 512 + i);
    AddRaw(m, pl, raw, n, p, junk);
    WriteRaw(m[n := junk], pl[n := p], raw + {n}, job.dst, i, LinkEntry(n));
    assert pl[job.src] == pl0[job.src];
    assert EntryOk(pl, raw, pl[job.src], i, m[job.src][i]);
    forall t | t in raw ensures t in pl && pl[t].root == job.dstRoot {
      assert pl0[t].root == job.dstRoot;
    }
  }

  /** What is known when the recursive call on entry i has returned m3. */
  ghost predicate ChildDone(job: Job, m0: Store, m: Store, m3: Store, pl0: Places, pl: Places, pl3: Places,
                            raw: set<nat>, i: nat, n: nat, junk: Table)
  {
    && Copied(job, m0, m, pl0, pl, raw, i) && i < NUM_PT_ENTRIES
    && job.level > 0 && m[job.src][i].valid && n !in m
    && Done(ChildJob(job, m, i, n), ChildLinked(job, m, i, n, junk), m3,
            pl[n := Place(job.dstRoot, job.level - 1, job.prefix * 512 + i)], pl3, raw + {n})
  }

  /** The recursive call leaves the tables of its caller alone. */
  lemma ChildKeepsParents(job: Job, m0: Store, m: Store, m3: Store, pl0: Places, pl: Places, pl3: Places,
                          raw: set<nat>, i: nat, n: nat, junk: Table)
    requires ChildDone(job, m0, m, m3, pl0, pl, pl3, raw, i, n, junk)
    ensures job.src in m3 && m3[job.src] == m[job.src]
    ensures job.dst in m3 && m3[job.dst] == m[job.dst][i := LinkEntry(n)]
    ensures Wf(m3, pl3, raw) && Extends(pl, pl3) && n in pl3
    ensures pl3[n] == Place(job.dstRoot, job.level - 1, job.prefix * 512 + i)
  {
    var pl2 := pl[n := Place(job.dstRoot, job.level - 1, job.prefix * 512 + i)];
    assert pl[job.src] == pl0[job.src] && pl[job.dst] == pl0[job.dst];
    assert pl2[job.src] == pl[job.src] && pl2[job.dst] == pl[job.dst];
    assert raw + {n} - {n} == raw;
    assert pl2[n].root == job.dstRoot;
    forall x | x in pl ensures x in pl3 && pl3[x] == pl[x] {
      assert pl2[x] == pl[x];
    }
  }

  lemma TableStepFrame(job: Job, m0: Store, m: Store, m3: Store, pl0: Places, pl: Places, pl3: Places,
                       raw: set<nat>, i: nat, n: nat, junk: Table)
    requires ChildDone(job, m0, m, m3, pl0, pl, pl3, raw, i, n, junk)
    ensures Framed(job, m0, m3, pl0, pl3)
  {
    ChildKeepsParents(job, m0, m, m3, pl0, pl, pl3, raw, i, n, junk);
    var pl2 := pl[n := Place(job.dstRoot, job.level - 1, job.prefix * 512 + i)];
    forall t | t in pl3 && t !in pl0 ensures pl3[t].root == job.dstRoot {
      if t in pl {
        assert pl[t].root == job.dstRoot && pl3[t] == pl[t];
      } else if t in pl2 {
        assert t == n;
      }
    }
    forall t | t in pl0 ensures t in pl3 && pl3[t] == pl0[t] {
      assert pl[t] == pl0[t];
    }
    forall t | t in pl0 && t != job.dst && !Below(pl0[t], job.srcRoot, job.level, job.prefix)
      ensures t in m0 && t in m3 && m3[t] == m0[t]
    {
      assert pl[t] == pl0[t] && pl2[t] == pl0[t];
      if Below(pl2[t], job.srcRoot, job.level - 1, job.prefix * 512 + i) {
        ChildBelow(pl2[t], job.srcRoot, job.level, job.prefix, i);
      }
    }
  }

  lemma TableStepEntries(job: Job, m0: Store, m: Store, m3: Store, pl0: Places, pl: Places, pl3: Places,
                         raw: set<nat>, i: nat, n: nat, junk: Table)
    requires ChildDone(job, m0, m, m3, pl0, pl, pl3, raw, i, n, junk)
    ensures job.dst in m3 && forall j :: 0 <= j < i + 1 ==> EntryOk(pl3, raw, pl0[job.dst], j, m3[job.dst][j])
  {
    ChildKeepsParents(job, m0, m, m3, pl0, pl, pl3, raw, i, n, junk);
    forall j | 0 <= j < i + 1 ensures EntryOk(pl3, raw, pl0[job.dst], j, m3[job.dst][j]) {
      if j < i {
        var e := m[job.dst][j];
        assert EntryOk(pl, raw, pl0[job.dst], j, e);
        assert e.frame in pl ==> pl3[e.frame] == pl[e.frame];
      }
    }
  }

  lemma DoneKeeps(job: Job, m0: Store, m: Store, pl0: Places, pl: Places, raw: set<nat>, c: nat, x: nat, k: nat, v: nat)
    requires Done(job, m0, m, pl0, pl, raw) && c !in raw && OnWalk(pl0, c, x, k, v)
    requires x != job.srcRoot || Prefix(v, job.level) != job.prefix
    ensures Walk(m, c, k, v) == Walk(m0, c, k, v)
  {
    KeptWalk(m0, m, pl0, raw, job.srcRoot, job.level, job.prefix, job.dst, c, x, k, v);
  }

  /** A walk outside the child's subtree is untouched by the recursive call. */
  lemma TableStepOtherWalk(job: Job, m0: Store, m: Store, m3: Store, pl0: Places, pl: Places, pl3: Places,
                           raw: set<nat>, i: nat, n: nat, junk: Table, c: nat, x: nat, v: nat)
    requires ChildDone(job, m0, m, m3, pl0, pl, pl3, raw, i, n, junk)
    requires c !in raw && OnWalk(pl, c, x, job.level - 1, v)
    requires x != job.srcRoot || Prefix(v, job.level - 1) != job.prefix * 512 + i
    ensures Walk(m3, c, job.level - 1, v) == Walk(m, c, job.level - 1, v)
  {
    var m2 := ChildLinked(job, m, i, n, junk);
    var pl2 := pl[n := Place(job.dstRoot, job.level - 1, job.prefix * 512 + i)];
    WalkFrame(m, m2, pl, raw, c, x, job.level - 1, v);
    DoneKeeps(ChildJob(job, m, i, n), m2, m3, pl2, pl3, raw + {n}, c, x, job.level - 1, v);
  }

  lemma TableStepOthers(job: Job, m0: Store, m: Store, m3: Store, pl0: Places, pl: Places, pl3: Places,
                        raw: set<nat>, i: nat, n: nat, junk: Table, v: nat)
    requires ChildDone(job, m0, m, m3, pl0, pl, pl3, raw, i, n, junk)
    requires Prefix(v, job.level) == job.prefix && Idx(v, job.level) != i
    ensures Walk(m3, job.src, job.level, v) == Walk(m, job.src, job.level, v)
    ensures Idx(v, job.level) < i ==> Walk(m3, job.dst, job.level, v) == Walk(m, job.dst, job.level, v)
  {
    var l := job.level;
    var k := l - 1;
    ChildKeepsParents(job, m0, m, m3, pl0, pl, pl3, raw, i, n, junk);
    PrefixStep(v, l);
    assert pl[job.src] == pl0[job.src] && pl[job.dst] == pl0[job.dst];
    forall c, x | c !in raw && OnWalk(pl, c, x, k, v) ensures Walk(m3, c, k, v) == Walk(m, c, k, v) {
      TableStepOtherWalk(job, m0, m, m3, pl0, pl, pl3, raw, i, n, junk, c, x, v);
    }
    assert EntryOk(pl, raw, pl[job.src], Idx(v, l), m[job.src][Idx(v, l)]);
    EntryWalk(m, m3, pl, raw, job.src, l, v);
    if Idx(v, l) < i {
      EntryWalk(m, m3, pl, raw, job.dst, l, v);
    }
  }

  /** The pages of entry i, seen from the child when its copy starts, are those of the source before the fork. */
  lemma ChildSees(job: Job, m0: Store, m: Store, pl0: Places, pl: Places, raw: set<nat>, i: nat, n: nat, junk: Table,
                  v: nat)
    requires Copied(job, m0, m, pl0, pl, raw, i) && i < NUM_PT_ENTRIES
    requires job.level > 0 && m[job.src][i].valid && n !in m
    requires Prefix(v, job.level) == job.prefix && Idx(v, job.level) == i
    ensures Walk(ChildLinked(job, m, i, n, junk), m[job.src][i].frame, job.level - 1, v)
            == Walk(m0, job.src, job.level, v)
    ensures Prefix(v, job.level - 1) == job.prefix * 512 + i
  {
    var l := job.level;
    PrefixStep(v, l);
    assert pl[job.src] == pl0[job.src];
    NextOnWalk(m, pl, raw, job.src, job.srcRoot, l, v);
    WalkFrame(m, ChildLinked(job, m, i, n, junk), pl, raw, m[job.src][i].frame, job.srcRoot, l - 1, v);
    assert Walk(m, job.src, l, v) == Walk(m0, job.src, l, v);
  }

  lemma TableStepChild(job: Job, m0: Store, m: Store, m3: Store, pl0: Places, pl: Places, pl3: Places,
                       raw: set<nat>, i: nat, n: nat, junk: Table, v: nat)
    requires ChildDone(job, m0, m, m3, pl0, pl, pl3, raw, i, n, junk)
    requires Prefix(v, job.level) == job.prefix && Idx(v, job.level) == i
    ensures Walk(m3, job.src, job.level, v) == Walk(m3, job.dst, job.level, v)
            == Forked(job.ram, Walk(m0, job.src, job.level, v))
  {
    ChildKeepsParents(job, m0, m, m3, pl0, pl, pl3, raw, i, n, junk);
    PrefixStep(v, job.level);
    ChildSees(job, m0, m, pl0, pl, raw, i, n, junk, v);
    DoneWalks(ChildJob(job, m, i, n), ChildLinked(job, m, i, n, junk), m3,
              pl[n := Place(job.dstRoot, job.level - 1, job.prefix * 512 + i)], pl3, raw + {n}, v);
    assert EntryOk(pl3, raw, pl3[job.src], i, m3[job.src][i]);
    LinkWalk(m3, job.src, job.level, v);
    LinkWalk(m3, job.dst, job.level, v);
  }

  lemma DoneWalks(job: Job, m0: Store, m: Store, pl0: Places, pl: Places, raw: set<nat>, v: nat)
    requires Done(job, m0, m, pl0, pl, raw) && Prefix(v, job.level) == job.prefix
    ensures Walk(m, job.src, job.level, v) == Walk(m, job.dst, job.level, v)
            == Forked(job.ram, Walk(m0, job.src, job.level, v))
  {
  }

  lemma LinkWalk(m: Store, t: nat, l: nat, v: nat)
    requires t in m && l > 0 && m[t][Idx(v, l)].valid && m[t][Idx(v, l)].table
    ensures Walk(m, t, l, v) == Walk(m, m[t][Idx(v, l)].frame, l - 1, v)
  {
  }

  lemma TableStep(job: Job, m0: Store, m: Store, m3: Store, pl0: Places, pl: Places, pl3: Places,
                  raw: set<nat>, i: nat, n: nat, junk: Table)
    requires ChildDone(job, m0, m, m3, pl0, pl, pl3, raw, i, n, junk)
    ensures Copied(job, m0, m3, pl0, pl3, raw, i + 1)
  {
    var l := job.level;
    ChildKeepsParents(job, m0, m, m3, pl0, pl, pl3, raw, i, n, junk);
    TableStepFrame(job, m0, m, m3, pl0, pl, pl3, raw, i, n, junk);
    TableStepEntries(job, m0, m, m3, pl0, pl, pl3, raw, i, n, junk);
    forall v: nat | Prefix(v, l) == job.prefix
      ensures Idx(v, l) < i + 1 ==>
              Walk(m3, job.src, l, v) == Walk(m3, job.dst, l, v) == Forked(job.ram, Walk(m0, job.src, l, v))
      ensures Idx(v, l) >= i + 1 ==> Walk(m3, job.src, l, v) == Walk(m0, job.src, l, v)
    {
      if Idx(v, l) != i {
        TableStepOthers(job, m0, m, m3, pl0, pl, pl3, raw, i, n, junk, v);
      } else {
        TableStepChild(job, m0, m, m3, pl0, pl, pl3, raw, i, n, junk, v);
      }
    }
  }

  // ----- which pages are recorded as writable

  ghost predicate Witness(job: Job, m0: Store, v: nat, hi: nat, f: nat) {
    var o := Walk(m0, job.src, job.level, v);
    Prefix(v, job.level) == job.prefix && Idx(v, job.level) < hi && WasWritable(job.ram, o) && o.value.frame == f
  }

  /**
   The pages that the first hi entries could write are recorded, and nothing else is,
   except page 0: an empty entry names it.
   */
  ghost predicate Recorded(job: Job, m0: Store, w0: set<nat>, w: set<nat>, hi: nat) {
    && w0 <= w
    && (forall v: nat, f: nat {:trigger Witness(job, m0, v, hi, f)} :: Witness(job, m0, v, hi, f) ==> f in w)
    && (forall f {:trigger f in w} :: f in w ==> f in w0 || f == 0 || exists v: nat :: Witness(job, m0, v, hi, f))
  }

  lemma RecordStart(job: Job, m0: Store, w: set<nat>)
    ensures Recorded(job, m0, w, w, 0)
  {
  }

  lemma WitnessGrows(job: Job, m0: Store, v: nat, i: nat, f: nat)
    ensures Witness(job, m0, v, i, f) ==> Witness(job, m0, v, i + 1, f)
    ensures Witness(job, m0, v, i + 1, f) ==> Witness(job, m0, v, i, f) || Idx(v, job.level) == i
  {
  }

  lemma RecordLeaf(job: Job, m0: Store, m: Store, pl0: Places, pl: Places, raw: set<nat>, i: nat, w0: set<nat>,
                   w: set<nat>, w': set<nat>)
    requires Copied(job, m0, m, pl0, pl, raw, i) && i < NUM_PT_ENTRIES && Recorded(job, m0, w0, w, i)
    requires job.level == 0 || !m[job.src][i].valid
    requires var e := m[job.src][i]; w' == if e.frame < job.ram && !e.rdonly then w + {e.frame} else w
    ensures Recorded(job, m0, w0, w', i + 1)
  {
    var e := m[job.src][i];
    assert pl[job.src] == pl0[job.src];
    assert EntryOk(pl, raw, pl[job.src], i, e);
    var hi := i + 1;
    forall v: nat, f: nat | Witness(job, m0, v, hi, f) ensures f in w' {
      WitnessGrows(job, m0, v, i, f);
      if Idx(v, job.level) == i {
        assert Walk(m, job.src, job.level, v) == Walk(m0, job.src, job.level, v);
      }
    }
    forall f | f in w' ensures f in w0 || f == 0 || exists v: nat :: Witness(job, m0, v, hi, f) {
      if f in w && f !in w0 && f != 0 {
        var v: nat :| Witness(job, m0, v, i, f);
        WitnessGrows(job, m0, v, i, f);
      } else if f !in w && e.valid {
        var v := job.prefix * 512 + i;
        assert Shift(v, 0) == v && Shift(v, 1) == v / 512;
        assert Walk(m, job.src, job.level, v) == Walk(m0, job.src, job.level, v);
        assert Witness(job, m0, v, hi, f);
      }
    }
  }

  lemma RecordTable(job: Job, m0: Store, m: Store, pl0: Places, pl: Places, raw: set<nat>, i: nat, n: nat, junk: Table,
                    w0: set<nat>, w: set<nat>, w': set<nat>)
    requires Copied(job, m0, m, pl0, pl, raw, i) && i < NUM_PT_ENTRIES && Recorded(job, m0, w0, w, i)
    requires job.level > 0 && m[job.src][i].valid && n !in m
    requires Recorded(ChildJob(job, m, i, n), ChildLinked(job, m, i, n, junk), w, w', NUM_PT_ENTRIES)
    ensures Recorded(job, m0, w0, w', i + 1)
  {
    var cj, m2 := ChildJob(job, m, i, n), ChildLinked(job, m, i, n, junk);
    var hi := i + 1;
    forall v: nat, f: nat | Witness(job, m0, v, hi, f) ensures f in w' {
      WitnessGrows(job, m0, v, i, f);
      if Idx(v, job.level) == i {
        ChildSees(job, m0, m, pl0, pl, raw, i, n, junk, v);
        assert Witness(cj, m2, v, NUM_PT_ENTRIES, f);
      }
    }
    forall f | f in w' ensures f in w0 || f == 0 || exists v: nat :: Witness(job, m0, v, hi, f) {
      if f in w && f !in w0 && f != 0 {
        var v: nat :| Witness(job, m0, v, i, f);
        WitnessGrows(job, m0, v, i, f);
      } else if f !in w && f != 0 {
        var v: nat :| Witness(cj, m2, v, NUM_PT_ENTRIES, f);
        PrefixStep(v, job.level);
        ChildSees(job, m0, m, pl0, pl, raw, i, n, junk, v);
        assert Witness(job, m0, v, hi, f);
      }
    }
  }
}
