/**
 Path names and the operations of the virtual file system that change the tree of vnodes.
 */
module Vfs {
  import opened Common
  import opened Paths
  import opened VfsTree

  /** What find_parent_vnode reports: a node, a missing last component of an existing directory, or failure. */
  datatype Result = Found(node: nat, dir: Option<nat>, comp: string) | Missing(at: nat, comp: string) | NoDir

  /** The loop over the components after the first; an empty component ends it. */
  function Descend(t: Tree, cur: nat, dir: Option<nat>, comp: string, fs: seq<string>): (r: Result)
    decreases |fs|
  {
    if fs == [] || fs[0] == "" then Found(cur, dir, comp)
    else match Lookup(t, cur, fs[0])
      case None => if |fs| > 1 then NoDir else Missing(cur, fs[0])
      case Some(c) => Descend(t, c, Some(cur), fs[0], fs[1..])
  }

  /** The working directory has a parent if the path goes up. */
  predicate Startable(t: Tree, cwd: nat, path: string) {
    cwd in t && (Fields(path, '/')[0] == ".." ==> t[cwd].parent.Some? && t[cwd].parent.value in t)
  }

  /** find_parent_vnode */
  function Find(t: Tree, root: nat, cwd: nat, path: string): (r: Result)
    requires root in t && Startable(t, cwd, path)
  {
    var fs := Fields(path, '/');
    if fs[0] == "" then Descend(t, root, t[root].parent, "", fs[1..])
    else if fs[0] == ".." then Descend(t, t[cwd].parent.value, t[t[cwd].parent.value].parent, "..", fs[1..])
    else if fs[0] == "." then Descend(t, cwd, t[cwd].parent, ".", fs[1..])
    else Descend(t, cwd, t[cwd].parent, fs[0], fs)
  }

  // ----- absolute paths

  predicate Plain(comps: seq<string>) {
    forall i {:trigger comps[i]} :: 0 <= i < |comps| ==> comps[i] != "" && Free(comps[i], '/')
  }

  function AbsPath(comps: seq<string>): (path: string)
    requires comps != []
  {
    "/" + Join(comps, '/')
  }

  lemma FieldsOfPath(comps: seq<string>)
    requires comps != [] && Plain(comps)
    ensures Fields(AbsPath(comps), '/') == [""] + comps
  {
    FieldsCons("", Join(comps, '/'), '/');
    FieldsOfJoin(comps, '/');
    assert "" + ['/'] + Join(comps, '/') == AbsPath(comps);
  }

  lemma {:induction false} WalkFails(t: Tree, d: nat, a: seq<string>, b: seq<string>)
    requires Walk(t, d, a) == None
    ensures Walk(t, d, a + b) == None
    decreases |b|
  {
    if b == [] {
      assert a + b == a;
    } else {
      assert (a + b)[..|a + b| - 1] == a + b[..|b| - 1];
      WalkFails(t, d, a, b[..|b| - 1]);
    }
  }

  lemma WalkOne(t: Tree, d: nat, c: string, rest: seq<string>)
    ensures Walk(t, d, [c] + rest) == match Lookup(t, d, c) { case None => None case Some(x) => Walk(t, x, rest) }
  {
    assert [c][..0] == [];
    assert Walk(t, d, [c]) == Lookup(t, d, c);
    if Walk(t, d, [c]).Some? {
      WalkAppend(t, d, [c], rest);
    } else {
      WalkFails(t, d, [c], rest);
    }
  }

  lemma {:induction false} DescendWalks(t: Tree, d: nat, dir: Option<nat>, comp: string, comps: seq<string>)
    requires Plain(comps)
    ensures Walk(t, d, comps).Some? <==> Descend(t, d, dir, comp, comps).Found?
    ensures Walk(t, d, comps).Some? ==> Descend(t, d, dir, comp, comps).node == Walk(t, d, comps).value
    decreases |comps|
  {
    if comps != [] {
      assert comps[0] != "" && comps == [comps[0]] + comps[1..];
      WalkOne(t, d, comps[0], comps[1..]);
      if Lookup(t, d, comps[0]).Some? {
        DescendWalks(t, Lookup(t, d, comps[0]).value, Some(d), comps[0], comps[1..]);
      }
    }
  }

  /** An absolute path name resolves to x. */
  ghost predicate Resolves(t: Tree, root: nat, cwd: nat, path: string, x: nat) {
    root in t && Startable(t, cwd, path) && Find(t, root, cwd, path).Found? && Find(t, root, cwd, path).node == x
  }

  /** Absolute paths of plain components resolve by following the components from the root. */
  lemma ResolvesWalk(t: Tree, root: nat, cwd: nat, comps: seq<string>, x: nat)
    requires root in t && cwd in t && comps != [] && Plain(comps)
    ensures Resolves(t, root, cwd, AbsPath(comps), x) <==> Walk(t, root, comps) == Some(x)
  {
    FieldsOfPath(comps);
    assert ([""] + comps)[1..] == comps;
    DescendWalks(t, root, t[root].parent, "", comps);
  }

  /** Mount shadowing, for path names: below the mount point everything resolves from the new root,
      and every other absolute path resolves as before. */
  lemma MountByPath(t: Tree, root: nat, cwd: nat, p: nat, k: nat, x: nat, sub: Tree, r: nat, target: seq<string>,
                    q: seq<string>, y: nat)
    requires Mountable(t, root, p, k, x, sub, r) && cwd in t && target != [] && Plain(target) && q != [] && Plain(q)
    requires Resolves(t, root, cwd, AbsPath(target), x)
    ensures target <= q ==>
            (Resolves(Mounted(t, p, x, sub, r), root, cwd, AbsPath(q), y) <==> Walk(sub, r, q[|target|..]) == Some(y))
    ensures !(target <= q) ==>
            (Resolves(Mounted(t, p, x, sub, r), root, cwd, AbsPath(q), y) <==> Resolves(t, root, cwd, AbsPath(q), y))
  {
    var t' := Mounted(t, p, x, sub, r);
    MountedNode(t, root, p, x, sub, r, root);
    MountedNode(t, root, p, x, sub, r, cwd);
    ResolvesWalk(t, root, cwd, target, x);
    ResolvesWalk(t, root, cwd, q, y);
    ResolvesWalk(t', root, cwd, q, y);
    if target <= q {
      assert q == target + q[|target|..];
      MountShadows(t, root, p, k, x, sub, r, target, q[|target|..]);
    } else {
      MountElsewhere(t, root, p, k, x, sub, r, target, q);
    }
  }

  /** The node was reached by looking up a component, not as the root or the working directory. */
  ghost predicate ByName(t: Tree, r: Result) {
    r.Found? ==> r.dir.Some? && Lookup(t, r.dir.value, r.comp) == Some(r.node) && r.dir.value != r.node
  }

  lemma {:induction false} DescendLast(t: Tree, d: nat, dir: Option<nat>, comp: string, comps: seq<string>)
    requires Plain(comps) && comps != [] && Descend(t, d, dir, comp, comps).Found?
    ensures var r := Descend(t, d, dir, comp, comps);
            r.dir == Walk(t, d, comps[..|comps| - 1]) && r.comp == comps[|comps| - 1]
    decreases |comps|
  {
    assert comps[0] != "";
    var c := Lookup(t, d, comps[0]).value;
    var front := comps[..|comps| - 1];
    if |comps| > 1 {
      DescendLast(t, c, Some(d), comps[0], comps[1..]);
      WalkOne(t, d, comps[0], front[1..]);
      assert front == [comps[0]] + front[1..] && front[1..] == comps[1..][..|comps| - 2];
    } else {
      assert front == [] && comps[1..] == [];
    }
  }

  /** Absolute paths of plain components reach their node by name. */
  lemma PlainByName(t: Tree, root: nat, cwd: nat, comps: seq<string>)
    requires IsTree(t, root) && cwd in t && comps != [] && Plain(comps)
    ensures Startable(t, cwd, AbsPath(comps)) && ByName(t, Find(t, root, cwd, AbsPath(comps)))
  {
    FieldsOfPath(comps);
    assert ([""] + comps)[1..] == comps;
    var r := Find(t, root, cwd, AbsPath(comps));
    if r.Found? {
      ResolvesWalk(t, root, cwd, comps, r.node);
      DescendLast(t, root, t[root].parent, "", comps);
      if r.dir == Some(r.node) {
        PathUnique(t, root, comps[..|comps| - 1], comps);
      }
    }
  }

  // ----- every path

  /** What following comps from start must report; comp and the parent are those of the last component, or of start. */
  ghost predicate Outcome(t: Tree, start: nat, head: string, comps: seq<string>, r: Result)
    requires start in t
  {
    match r
    case Found(x, dir, comp) =>
      && Walk(t, start, comps) == Some(x)
      && (if comps == [] then dir == t[start].parent && comp == head
          else dir == Walk(t, start, comps[..|comps| - 1]) && comp == comps[|comps| - 1])
    case Missing(p, name) =>
      && comps != [] && Walk(t, start, comps[..|comps| - 1]) == Some(p) && name == comps[|comps| - 1]
      && Lookup(t, p, name) == None
    case NoDir => comps != [] && Walk(t, start, comps[..|comps| - 1]) == None
  }

  /** The loop fails in the middle of the path or at its end. */
  lemma {:induction false} DescendFails(t: Tree, d: nat, dir: Option<nat>, comp: string, comps: seq<string>)
    requires Plain(comps) && Walk(t, d, comps) == None
    ensures comps != [] && Descend(t, d, dir, comp, comps) ==
                           match Walk(t, d, comps[..|comps| - 1])
                           case None => NoDir
                           case Some(p) => Missing(p, comps[|comps| - 1])
    decreases |comps|
  {
    var front := comps[..|comps| - 1];
    assert comps[0] != "" && comps == [comps[0]] + comps[1..];
    WalkOne(t, d, comps[0], comps[1..]);
    if |comps| == 1 {
      assert front == [] && comps[1..] == [];
    } else {
      assert front == [comps[0]] + front[1..] && front[1..] == comps[1..][..|comps| - 2];
      WalkOne(t, d, comps[0], front[1..]);
      if Lookup(t, d, comps[0]).Some? {
        DescendFails(t, Lookup(t, d, comps[0]).value, Some(d), comps[0], comps[1..]);
      }
    }
  }

  lemma DescendOutcome(t: Tree, start: nat, head: string, comps: seq<string>)
    requires start in t && Plain(comps)
    ensures Outcome(t, start, head, comps, Descend(t, start, t[start].parent, head, comps))
  {
    DescendWalks(t, start, t[start].parent, head, comps);
    if Walk(t, start, comps) == None {
      DescendFails(t, start, t[start].parent, head, comps);
    } else if comps != [] {
      DescendLast(t, start, t[start].parent, head, comps);
    }
  }

  /** Where each kind of path starts: at the root, in the working directory or in its parent. The outcome is that of
      following the components from there. */
  lemma FindOutcome(t: Tree, root: nat, cwd: nat, head: string, comps: seq<string>)
    requires root in t && Free(head, '/') && Plain(comps) && Startable(t, cwd, Join([head] + comps, '/'))
    ensures head == ".." ==> t[cwd].parent.Some? && t[cwd].parent.value in t
    ensures var r := Find(t, root, cwd, Join([head] + comps, '/'));
            match head
            case "" => Outcome(t, root, head, comps, r)
            case "." => Outcome(t, cwd, head, comps, r)
            case ".." => Outcome(t, t[cwd].parent.value, head, comps, r)
            case _ => Outcome(t, cwd, head, [head] + comps, r)
  {
    FieldsOfJoin([head] + comps, '/');
    assert ([head] + comps)[1..] == comps;
    if head == "" {
      DescendOutcome(t, root, head, comps);
    } else if head == ".." {
      DescendOutcome(t, t[cwd].parent.value, head, comps);
    } else if head == "." {
      DescendOutcome(t, cwd, head, comps);
    } else {
      DescendOutcome(t, cwd, head, [head] + comps);
    }
  }

  lemma {:induction false} DescendStops(t: Tree, d: nat, dir: Option<nat>, comp: string, comps: seq<string>,
                                        more: seq<string>)
    requires Plain(comps)
    ensures var r := Descend(t, d, dir, comp, comps + [""] + more);
            if Descend(t, d, dir, comp, comps).Found? then r == Descend(t, d, dir, comp, comps) else r == NoDir
    decreases |comps|
  {
    var all := comps + [""] + more;
    if comps == [] {
      assert all[0] == "";
    } else {
      assert comps[0] != "" && all[0] == comps[0] && all[1..] == comps[1..] + [""] + more;
      if Lookup(t, d, comps[0]).Some? {
        DescendStops(t, Lookup(t, d, comps[0]).value, Some(d), comps[0], comps[1..], more);
      }
    }
  }

  lemma FieldsEnd(t: Tree, root: nat, cwd: nat, path: string, longer: string, head: string, comps: seq<string>,
                  more: seq<string>)
    requires root in t && Startable(t, cwd, path) && Free(head, '/') && Plain(comps)
    requires Fields(path, '/') == [head] + comps && Fields(longer, '/') == [head] + (comps + [""] + more)
    ensures Startable(t, cwd, longer)
    ensures var r, r' := Find(t, root, cwd, path), Find(t, root, cwd, longer);
            if r.Found? then r' == r else r' == NoDir
  {
    var tail := comps + [""] + more;
    assert ([head] + comps)[1..] == comps && ([head] + tail)[1..] == tail;
    if head == "" {
      DescendStops(t, root, t[root].parent, "", comps, more);
    } else if head == ".." {
      DescendStops(t, t[cwd].parent.value, t[t[cwd].parent.value].parent, "..", comps, more);
    } else if head == "." {
      DescendStops(t, cwd, t[cwd].parent, ".", comps, more);
    } else {
      DescendStops(t, cwd, t[cwd].parent, head, [head] + comps, more);
      assert [head] + tail == [head] + comps + [""] + more;
    }
  }

  /** An empty component ends the path: what follows is ignored, and what is before it must exist. */
  lemma SlashEnds(t: Tree, root: nat, cwd: nat, head: string, comps: seq<string>, more: seq<string>)
    requires root in t && Free(head, '/') && Plain(comps) && Startable(t, cwd, Join([head] + comps, '/'))
    requires forall i {:trigger more[i]} :: 0 <= i < |more| ==> Free(more[i], '/')
    ensures Startable(t, cwd, Join([head] + (comps + [""] + more), '/'))
    ensures var r, r' := Find(t, root, cwd, Join([head] + comps, '/')),
                         Find(t, root, cwd, Join([head] + (comps + [""] + more), '/'));
            if r.Found? then r' == r else r' == NoDir
  {
    var tail := comps + [""] + more;
    FieldsOfJoin([head] + comps, '/');
    FieldsOfJoin([head] + tail, '/');
    FieldsEnd(t, root, cwd, Join([head] + comps, '/'), Join([head] + tail, '/'), head, comps, more);
  }

  /** What a result refers to is in the tree. */
  ghost predicate InTree(t: Tree, r: Result) {
    match r
    case Found(x, dir, _) => x in t && (dir.Some? ==> dir.value in t)
    case Missing(p, name) => p in t && Lookup(t, p, name) == None
    case NoDir => true
  }

  lemma {:induction false} DescendInTree(t: Tree, root: nat, cur: nat, dir: Option<nat>, comp: string, fs: seq<string>)
    requires IsTree(t, root) && cur in t && (dir.Some? ==> dir.value in t)
    ensures InTree(t, Descend(t, cur, dir, comp, fs))
    decreases |fs|
  {
    if fs != [] && fs[0] != "" && Lookup(t, cur, fs[0]).Some? {
      var i := LookupChild(t, cur, fs[0]);
      DescendInTree(t, root, Lookup(t, cur, fs[0]).value, Some(cur), fs[0], fs[1..]);
    }
  }

  lemma FindInTree(t: Tree, root: nat, cwd: nat, path: string)
    requires IsTree(t, root) && ParentsIn(t) && Startable(t, cwd, path)
    ensures InTree(t, Find(t, root, cwd, path))
  {
    var fs := Fields(path, '/');
    DescendInTree(t, root, root, t[root].parent, "", fs[1..]);
    DescendInTree(t, root, cwd, t[cwd].parent, ".", fs[1..]);
    DescendInTree(t, root, cwd, t[cwd].parent, fs[0], fs);
    if fs[0] == ".." {
      DescendInTree(t, root, t[cwd].parent.value, t[t[cwd].parent.value].parent, "..", fs[1..]);
    }
  }

  // ----- what is created is found

  lemma LookupAdded(t: Tree, root: nat, p: nat, c: nat, v: Vnode, d: nat, name: string)
    requires IsTree(t, root) && p in t && c !in t && !v.hidden && d in t
    ensures Lookup(t, d, name).Some? ==> Lookup(Added(t, p, c, v), d, name) == Lookup(t, d, name)
    ensures d == p && name == v.name && Lookup(t, d, name) == None ==> Lookup(Added(t, p, c, v), d, name) == Some(c)
  {
    var t', cs := Added(t, p, c, v), t[d].children;
    forall i | 0 <= i < |cs| ensures Matches(t', cs[i], name) <==> Matches(t, cs[i], name) {
      assert ChildOf(t, d, i, cs[i]);
    }
    FirstMatchFrame(t, t', cs, name);
    FirstMatchAppend(t', cs, c, name);
  }

  lemma {:induction false} DescendAdded(t: Tree, root: nat, p: nat, c: nat, v: Vnode, cur: nat, dir: Option<nat>,
                                        comp: string, fs: seq<string>)
    requires IsTree(t, root) && p in t && c !in t && !v.hidden && cur in t
    ensures var r, r' := Descend(t, cur, dir, comp, fs), Descend(Added(t, p, c, v), cur, dir, comp, fs);
            && (r.Found? ==> r' == r)
            && (r == Missing(p, v.name) ==> r' == Found(c, Some(p), v.name))
    decreases |fs|
  {
    if fs != [] && fs[0] != "" {
      LookupAdded(t, root, p, c, v, cur, fs[0]);
      if Lookup(t, cur, fs[0]).Some? {
        var i := LookupChild(t, cur, fs[0]);
        DescendAdded(t, root, p, c, v, Lookup(t, cur, fs[0]).value, Some(cur), fs[0], fs[1..]);
      } else if |fs| == 1 {
        assert fs[1..] == [];
      }
    }
  }

  /** After a node is created, the path that was missing leads to it, and every path that led somewhere leads there. */
  lemma FindAdded(t: Tree, root: nat, cwd: nat, p: nat, c: nat, v: Vnode, path: string)
    requires IsTree(t, root) && p in t && c !in t && !v.hidden && Startable(t, cwd, path)
    ensures Startable(Added(t, p, c, v), cwd, path)
    ensures var r, r' := Find(t, root, cwd, path), Find(Added(t, p, c, v), root, cwd, path);
            && (r.Found? ==> r' == r)
            && (r == Missing(p, v.name) ==> r' == Found(c, Some(p), v.name))
  {
    var fs := Fields(path, '/');
    if fs[0] == "" {
      DescendAdded(t, root, p, c, v, root, t[root].parent, "", fs[1..]);
    } else if fs[0] == ".." {
      var up := t[cwd].parent.value;
      DescendAdded(t, root, p, c, v, up, t[up].parent, "..", fs[1..]);
    } else if fs[0] == "." {
      DescendAdded(t, root, p, c, v, cwd, t[cwd].parent, ".", fs[1..]);
    } else {
      DescendAdded(t, root, p, c, v, cwd, t[cwd].parent, fs[0], fs);
    }
  }

  /** setup_mount gives the new root its name and parent. */
  function Named(sub: Tree, r: nat, name: string, dir: Option<nat>): (s: Tree)
    requires r in sub
  {
    sub[r := sub[r].(name := name, hidden := false, parent := dir)]
  }

  lemma NamedTree(sub: Tree, r: nat, name: string, dir: Option<nat>)
    requires IsTree(sub, r) && UniqueNames(sub)
    ensures IsTree(Named(sub, r, name, dir), r) && UniqueNames(Named(sub, r, name, dir))
  {
    var s := Named(sub, r, name, dir);
    forall d: nat, i: nat, c: nat ensures ChildOf(s, d, i, c) <==> ChildOf(sub, d, i, c) {
    }
    forall d: nat, i: nat, c: nat | ChildOf(sub, d, i, c) ensures c in s && c != r && s[c] == sub[c] {
    }
  }

  /** A node found by name is a visible child, so what is mounted over it takes a free name. */
  lemma FoundMountable(t: Tree, root: nat, res: Result, sub: Tree, r: nat) returns (k: nat)
    requires IsTree(t, root) && UniqueNames(t) && res.Found? && ByName(t, res)
    requires IsTree(sub, r) && UniqueNames(sub) && t.Keys !! sub.Keys
    ensures res.dir.value in t && res.node in t
    ensures Mountable(t, root, res.dir.value, k, res.node, Named(sub, r, res.comp, res.dir), r)
    ensures NameFree(t, res.dir.value, res.node, res.comp)
  {
    k := LookupChild(t, res.dir.value, res.comp);
    NamedTree(sub, r, res.comp, res.dir);
    forall i: nat, c: nat | ChildOf(t, res.dir.value, i, c) && c in t && c != res.node && !t[c].hidden
      ensures t[c].name != res.comp {
      assert ChildOf(t, res.dir.value, k, res.node);
    }
  }

  /** The tree after a mount over a node that was found. Without a parent the new root is linked nowhere. */
  function Covered(t: Tree, res: Result, sub: Tree, r: nat): (t': Tree)
    requires res.Found? && InTree(t, res) && r in sub
  {
    var s := Named(sub, r, res.comp, res.dir);
    match res.dir
    case None => t[res.node := t[res.node].(hidden := true)] + s
    case Some(p) => Mounted(t, p, res.node, s, r)
  }

  /** The name of the new root is not that of a visible sibling. */
  ghost predicate FreeSpot(t: Tree, res: Result) {
    res.Found? && res.dir.Some? ==> NameFree(t, res.dir.value, res.node, res.comp)
  }

  lemma CoveredValid(t: Tree, root: nat, res: Result, sub: Tree, r: nat)
    requires IsTree(t, root) && UniqueNames(t) && ParentsIn(t) && res.Found? && InTree(t, res)
    requires IsTree(sub, r) && UniqueNames(sub) && ParentsIn(sub) && t.Keys !! sub.Keys
    ensures IsTree(Covered(t, res, sub, r), root) && ParentsIn(Covered(t, res, sub, r))
    ensures UniqueNames(Covered(t, res, sub, r)) <==> FreeSpot(t, res)
  {
    var s := Named(sub, r, res.comp, res.dir);
    NamedTree(sub, r, res.comp, res.dir);
    match res.dir {
      case None =>
        HiddenKeeps(t, root, res.node);
        UnionKeeps(t[res.node := t[res.node].(hidden := true)], root, s, r, root);
      case Some(p) =>
        MountKeepsIff(t, root, p, res.node, s, r);
        forall d | d in Covered(t, res, sub, r) && Covered(t, res, sub, r)[d].parent.Some?
          ensures Covered(t, res, sub, r)[d].parent.value in Covered(t, res, sub, r)
        {
          MountedNode(t, root, p, res.node, s, r, d);
        }
    }
  }

  lemma HiddenKeeps(t: Tree, root: nat, x: nat)
    requires IsTree(t, root) && UniqueNames(t) && ParentsIn(t) && x in t
    ensures var t' := t[x := t[x].(hidden := true)]; IsTree(t', root) && UniqueNames(t') && ParentsIn(t')
  {
    var t' := t[x := t[x].(hidden := true)];
    forall d: nat, i: nat, c: nat ensures ChildOf(t', d, i, c) <==> ChildOf(t, d, i, c) {
    }
    forall d | d in t ensures t'[d].name == t[d].name && t'[d].parent == t[d].parent
      && (t'[d].hidden <==> t[d].hidden || d == x) {
    }
  }

  /** Two separate trees side by side; the root may be that of either. */
  lemma UnionKeeps(t: Tree, root: nat, s: Tree, r: nat, top: nat)
    requires IsTree(t, root) && UniqueNames(t) && ParentsIn(t) && IsTree(s, r) && UniqueNames(s) && ParentsIn(s)
    requires t.Keys !! s.Keys && (top == root || top == r)
    ensures IsTree(t + s, top) && UniqueNames(t + s) && ParentsIn(t + s)
  {
    var t' := t + s;
    forall d: nat, i: nat, c: nat ensures ChildOf(t', d, i, c) <==> ChildOf(t, d, i, c) || ChildOf(s, d, i, c) {
    }
    forall d: nat, i: nat, e: nat, j: nat, c: nat | ChildOf(t', d, i, c) && ChildOf(t', e, j, c)
      ensures d == e && i == j {
      assert ChildOf(t, d, i, c) ==> c in t;
      assert ChildOf(t, e, j, c) ==> c in t;
      assert ChildOf(s, d, i, c) ==> c in s;
      assert ChildOf(s, e, j, c) ==> c in s;
    }
    forall d: nat, i: nat, c: nat, j: nat, e: nat | ChildOf(t', d, i, c) && ChildOf(t', d, j, e) && c in t' && e in t'
                                && !t'[c].hidden && !t'[e].hidden && t'[c].name == t'[e].name
      ensures i == j
    {
      assert ChildOf(t, d, i, c) ==> c in t && d in t;
      assert ChildOf(t, d, j, e) ==> e in t && d in t;
      assert ChildOf(s, d, i, c) ==> c in s && d in s;
      assert ChildOf(s, d, j, e) ==> e in s && d in s;
    }
  }

  /** Parents are right after a mount if they were in both trees: the new root points to where it is mounted. */
  lemma CoveredParents(t: Tree, root: nat, res: Result, sub: Tree, r: nat)
    requires IsTree(t, root) && UniqueNames(t) && res.Found? && InTree(t, res)
    requires IsTree(sub, r) && UniqueNames(sub) && t.Keys !! sub.Keys && ParentsMatch(t) && ParentsMatch(sub)
    ensures ParentsMatch(Covered(t, res, sub, r))
  {
    var s, t' := Named(sub, r, res.comp, res.dir), Covered(t, res, sub, r);
    NamedTree(sub, r, res.comp, res.dir);
    forall d: nat, i: nat, c: nat | ChildOf(s, d, i, c) ensures c in sub && c != r && s[c].parent == Some(d) {
      assert ChildOf(sub, d, i, c);
    }
    if res.dir.Some? {
      MountParents(t, root, res.dir.value, res.node, s, r);
    } else {
      forall d: nat, i: nat, c: nat | ChildOf(t', d, i, c) && c in t' ensures t'[c].parent == Some(d) {
        assert ChildOf(t, d, i, c) || ChildOf(s, d, i, c);
      }
    }
  }

  lemma UnionParents(t: Tree, root: nat, sub: Tree, r: nat)
    requires IsTree(t, root) && IsTree(sub, r) && UniqueNames(sub) && t.Keys !! sub.Keys
    ensures ParentsMatch(t) && ParentsMatch(sub) ==> ParentsMatch(t + Named(sub, r, "", None))
  {
    var s := Named(sub, r, "", None);
    var t' := t + s;
    if ParentsMatch(t) && ParentsMatch(sub) {
      forall d: nat, i: nat, c: nat | ChildOf(t', d, i, c) && c in t' ensures t'[c].parent == Some(d) {
        assert ChildOf(t, d, i, c) || ChildOf(sub, d, i, c);
      }
    }
  }

  /** Going up undoes the last step down: in a directory reached by a path, ".." is the directory before it. */
  lemma DotDotIsParent(t: Tree, root: nat, path: seq<string>, name: string, d: nat, cwd: nat)
    requires IsTree(t, root) && ParentsMatch(t) && Walk(t, root, path) == Some(d)
    requires Walk(t, root, path + [name]) == Some(cwd)
    ensures Startable(t, cwd, "..") && Find(t, root, cwd, "..") == Found(d, t[d].parent, "..")
  {
    WalkInTree(t, root, path);
    WalkInTree(t, root, path + [name]);
    assert (path + [name])[..|path|] == path;
    var i := LookupChild(t, d, name);
    FieldsCons("..", [], '/');
  }

  /** A second mount on "." finds the name taken by the first. */
  lemma SecondDotMount() returns (t: Tree)
    ensures IsTree(t, 0) && UniqueNames(t) && ParentsIn(t) && Startable(t, 1, ".")
    ensures Find(t, 0, 1, ".") == Found(1, Some(0), ".") && t[1].kind == Dir && !FreeSpot(t, Find(t, 0, 1, "."))
  {
    t := map[0 := Vnode("", Dir, false, None, [1, 2]), 1 := Vnode("a", Dir, true, Some(0), []),
      2 := Vnode(".", Dir, false, Some(0), [])];
    FieldsCons(".", [], '/');
    assert ChildOf(t, 0, 1, 2);
  }

  /** A mount on a node found in the tree: the node's absolute path leads into the new tree, whatever follows, if and
      only if the last component of the mount's path was the node's own name. */
  lemma CoveredShadowsIff(t: Tree, root: nat, res: Result, k: nat, sub: Tree, r: nat, target: seq<string>)
    requires IsTree(t, root) && UniqueNames(t) && res.Found? && InTree(t, res) && res.dir.Some?
    requires IsTree(sub, r) && UniqueNames(sub) && t.Keys !! sub.Keys
    requires ChildOf(t, res.dir.value, k, res.node) && Walk(t, root, target) == Some(res.node)
    ensures Shadows(Covered(t, res, sub, r), root, target, Named(sub, r, res.comp, res.dir), r) <==>
              res.comp == t[res.node].name
  {
    NamedTree(sub, r, res.comp, res.dir);
    ShadowsIff(t, root, res.dir.value, k, res.node, Named(sub, r, res.comp, res.dir), r, target);
  }

  /** In a directory "a", a mount on "." succeeds and keeps the tree in order, and afterwards "/a" leads nowhere. */
  lemma DotMountLosesPath(sub: Tree, r: nat) returns (t: Tree)
    requires IsTree(sub, r) && UniqueNames(sub) && 0 !in sub && 1 !in sub
    ensures IsTree(t, 0) && UniqueNames(t) && ParentsIn(t) && Startable(t, 1, ".") && t[1].kind == Dir
    ensures var res := Find(t, 0, 1, ".");
            && res == Found(1, Some(0), ".") && FreeSpot(t, res) && Walk(t, 0, ["a"]) == Some(1)
            && Walk(Covered(t, res, sub, r), 0, ["a"]) == None
  {
    t := map[0 := Vnode("", Dir, false, None, [1]), 1 := Vnode("a", Dir, false, Some(0), [])];
    FieldsCons(".", [], '/');
    assert ChildOf(t, 0, 0, 1);
    assert ["a"][..0] == [];
    LookupIs(t, 0, 0, 1, "a");
    NamedTree(sub, r, ".", Some(0));
    HiddenPath(t, 0, 0, 0, 1, Named(sub, r, ".", Some(0)), r, ["a"]);
  }

  class FileSystem {
    var nodes: Tree
    var root: nat
    var cwd: nat                    // the working directory of the current process

    ghost predicate Valid()
      reads this
    {
      IsTree(nodes, root) && UniqueNames(nodes) && ParentsIn(nodes) && cwd in nodes
    }

    /** The first mount, on "/": a root directory and nothing else. */
    constructor (r: nat)
      ensures Valid() && root == r == cwd && nodes.Keys == {r} && ParentsMatch(nodes)
    {
      nodes := map[r := Vnode("", Dir, false, None, [])];
      root, cwd := r, r;
    }

    /** find_parent_vnode, with the path cut up by strtok_r as it goes. */
    method FindParent(path: string) returns (res: Result)
      requires root in nodes && Startable(nodes, cwd, path) && Free(path, NUL)
      ensures res == Find(nodes, root, cwd, path)
    {
      ghost var fs := Fields(path, '/');
      var ctx := new Tokens(path);
      assert path[0..] == path;
      var tok := ctx.Next('/');
      var comp, cur, skip := tok.value, cwd, false;
      if comp == "" {
        cur := root;
      } else if comp == ".." {
        cur := nodes[cwd].parent.value;
      } else if comp != "." {
        skip := true;
      }
      var dir := nodes[cur].parent;
      assert skip ==> [comp] + ctx.Left('/') == fs;
      while true
        invariant ctx.Valid() && fresh(ctx) && fresh(ctx.str)
        invariant Descend(nodes, cur, dir, comp, if skip then [comp] + ctx.Left('/') else ctx.Left('/'))
                  == Find(nodes, root, cwd, path)
        invariant skip ==> comp != ""
        decreases |ctx.Left('/')| + if skip then 1 else 0
      {
        ghost var rest := if skip then [comp] + ctx.Left('/') else ctx.Left('/');
        if !skip {
          var tmp := ctx.Next('/');
          if tmp == None || tmp.value == "" {
            break;
          }
          comp := tmp.value;
        }
        skip := false;
        assert rest != [] && rest[0] == comp && rest[1..] == ctx.Left('/');
        var child := Lookup(nodes, cur, comp);
        if child == None {
          var more := ctx.Next('/');
          return if more != None then NoDir else Missing(cur, comp);
        }
        dir := Some(cur);
        cur := child.value;
      }
      return Found(cur, dir, comp);
    }

    /** vfs_mkdir and vfs_create: a new node c under a name that was not there. */
    method Create(path: string, kind: Kind, c: nat) returns (ok: bool)
      requires Valid() && Startable(nodes, cwd, path) && Free(path, NUL) && c !in nodes
      modifies this`nodes
      ensures Valid() && (ParentsMatch(old(nodes)) ==> ParentsMatch(nodes))
      ensures match old(Find(nodes, root, cwd, path))
              case Missing(p, name) => ok && p in old(nodes)
                && nodes == Added(old(nodes), p, c, Vnode(name, kind, false, Some(p), []))
                && Startable(nodes, cwd, path) && Find(nodes, root, cwd, path) == Found(c, Some(p), name)
              case _ => !ok && nodes == old(nodes)
    {
      var res := FindParent(path);
      FindInTree(nodes, root, cwd, path);
      match res {
        case Missing(p, name) =>
          CreateKeeps(nodes, root, p, c, name, kind);
          if ParentsMatch(nodes) {
            CreateParents(nodes, p, c, Vnode(name, kind, false, Some(p), []));
          }
          FindAdded(nodes, root, cwd, p, c, Vnode(name, kind, false, Some(p), []), path);
          nodes := nodes[p := nodes[p].(children := nodes[p].children + [c])];
          nodes := nodes[c := Vnode(name, kind, false, Some(p), [])];
          return true;
        case _ =>
          return false;
      }
    }

    /** vfs_mount of a file system with tree sub and root r. On "/" it becomes the root; otherwise it covers an existing
        directory. Unique names survive if and only if the name is free, as it is for every target reached by name. */
    method Mount(path: string, sub: Tree, r: nat) returns (ok: bool)
      requires Valid() && Startable(nodes, cwd, path) && Free(path, NUL)
      requires IsTree(sub, r) && UniqueNames(sub) && ParentsIn(sub) && nodes.Keys !! sub.Keys
      modifies this`nodes, this`root
      ensures ParentsMatch(old(nodes)) && ParentsMatch(sub) ==> ParentsMatch(nodes)
      ensures path == "/" ==> ok && Valid() && root == r && nodes == old(nodes) + Named(sub, r, "", None)
      ensures path != "/" ==> root == old(root)
      ensures path != "/" ==> var res := old(Find(nodes, root, cwd, path));
                && (ok <==> res.Found? && res.node in old(nodes) && old(nodes)[res.node].kind == Dir)
                && (ok ==> InTree(old(nodes), res) && nodes == Covered(old(nodes), res, sub, r))
                && (ok ==> (Valid() <==> FreeSpot(old(nodes), res)) && (ByName(old(nodes), res) ==> Valid()))
                && (!ok ==> nodes == old(nodes))
    {
      if path == "/" {
        NamedTree(sub, r, "", None);
        UnionKeeps(nodes, root, Named(sub, r, "", None), r, r);
        UnionParents(nodes, root, sub, r);
        nodes := nodes + Named(sub, r, "", None);
        root := r;
        return true;
      }
      var res := FindParent(path);
      FindInTree(nodes, root, cwd, path);
      if !res.Found? || nodes[res.node].kind != Dir {
        return false;
      }
      CoveredValid(nodes, root, res, sub, r);
      if ParentsMatch(nodes) && ParentsMatch(sub) {
        CoveredParents(nodes, root, res, sub, r);
      }
      if ByName(nodes, res) {
        ghost var k := FoundMountable(nodes, root, res, sub, r);
      }
      Cover(res, sub, r);
      return true;
    }

    /** Hide the node that was found, and link the named root of the new file system behind its siblings. */
    method Cover(res: Result, sub: Tree, r: nat)
      requires res.Found? && InTree(nodes, res) && r in sub
      modifies this`nodes
      ensures nodes == Covered(old(nodes), res, sub, r)
    {
      nodes := nodes[res.node := nodes[res.node].(hidden := true)];
      if res.dir.Some? {
        nodes := nodes[res.dir.value := nodes[res.dir.value].(children := nodes[res.dir.value].children + [r])];
      }
      nodes := nodes + Named(sub, r, res.comp, res.dir);
    }
  }
}
