/**
 The tree of vnodes: looking up components, creating nodes, and mounting a file system over
 a directory, on values.
 */
module VfsTree {
  import opened Common

  datatype Kind = File | Dir | Dev | Symlink

  datatype Vnode = Vnode(name: string, kind: Kind, hidden: bool, parent: Option<nat>, children: seq<nat>)

  type Tree = map<nat, Vnode>

  /** vfs_tree_child: hidden nodes match no name. */
  predicate Matches(t: Tree, c: nat, name: string) {
    c in t && !t[c].hidden && t[c].name == name
  }

  /** tmpfs_lookup: the first child that matches. */
  function FirstMatch(t: Tree, cs: seq<nat>, name: string): (r: Option<nat>) {
    if cs == [] then None else if Matches(t, cs[0], name) then Some(cs[0]) else FirstMatch(t, cs[1..], name)
  }

  function Lookup(t: Tree, d: nat, name: string): (r: Option<nat>) {
    if d in t then FirstMatch(t, t[d].children, name) else None
  }

  /** Following the components one by one. */
  function Walk(t: Tree, d: nat, comps: seq<string>): (r: Option<nat>)
    decreases |comps|
  {
    if comps == [] then Some(d)
    else match Walk(t, d, comps[..|comps| - 1])
      case None => None
      case Some(x) => Lookup(t, x, comps[|comps| - 1])
  }

  // ----- well-formed trees

  ghost predicate ChildOf(t: Tree, d: nat, i: nat, c: nat) {
    d in t && i < |t[d].children| && t[d].children[i] == c
  }

  /** Children exist and are children in one place only; the root is nobody's child. */
  ghost predicate IsTree(t: Tree, root: nat) {
    && root in t
    && (forall d, i, c {:trigger ChildOf(t, d, i, c)} :: ChildOf(t, d, i, c) ==> c in t && c != root)
    && (forall d, i, e, j, c {:trigger ChildOf(t, d, i, c), ChildOf(t, e, j, c)} ::
          ChildOf(t, d, i, c) && ChildOf(t, e, j, c) ==> d == e && i == j)
  }

  /** Two visible nodes of the same name. */
  ghost predicate SameVisible(t: Tree, c: nat, e: nat) {
    c in t && e in t && !t[c].hidden && !t[e].hidden && t[c].name == t[e].name
  }

  /** No two visible children of a directory have the same name. */
  ghost predicate UniqueNames(t: Tree) {
    forall d, i, c, j, e {:trigger ChildOf(t, d, i, c), ChildOf(t, d, j, e)} ::
      ChildOf(t, d, i, c) && ChildOf(t, d, j, e) && SameVisible(t, c, e) ==> i == j
  }

  /** Parent pointers lead to nodes. */
  ghost predicate ParentsIn(t: Tree) {
    forall d {:trigger t[d]} :: d in t && t[d].parent.Some? ==> t[d].parent.value in t
  }

  /** Every child points back to the directory it is in. */
  ghost predicate ParentsMatch(t: Tree) {
    forall d: nat, i: nat, c: nat {:trigger ChildOf(t, d, i, c)} ::
      ChildOf(t, d, i, c) && c in t ==> t[c].parent == Some(d)
  }

  lemma {:induction false} FirstMatchFound(t: Tree, cs: seq<nat>, name: string)
    ensures match FirstMatch(t, cs, name)
            case Some(c) => c in cs && Matches(t, c, name)
            case None => forall i {:trigger cs[i]} :: 0 <= i < |cs| ==> !Matches(t, cs[i], name)
  {
    if cs != [] && !Matches(t, cs[0], name) {
      FirstMatchFound(t, cs[1..], name);
      assert cs == [cs[0]] + cs[1..];
      forall i | 0 <= i < |cs| && FirstMatch(t, cs, name) == None ensures !Matches(t, cs[i], name) {
        if i > 0 {
          assert cs[i] == cs[1..][i - 1];
        }
      }
    }
  }

  /** A successful lookup finds a visible child of that name. */
  lemma LookupChild(t: Tree, d: nat, name: string) returns (i: nat)
    requires Lookup(t, d, name).Some?
    ensures ChildOf(t, d, i, Lookup(t, d, name).value) && Matches(t, Lookup(t, d, name).value, name)
  {
    FirstMatchFound(t, t[d].children, name);
    i :| 0 <= i < |t[d].children| && t[d].children[i] == Lookup(t, d, name).value;
  }

  /** Only one visible child can be found under a name. */
  lemma LookupIs(t: Tree, d: nat, i: nat, c: nat, name: string)
    requires UniqueNames(t) && ChildOf(t, d, i, c) && Matches(t, c, name)
    ensures Lookup(t, d, name) == Some(c)
  {
    FirstMatchFound(t, t[d].children, name);
    if Lookup(t, d, name) == None {
      assert false;
    } else {
      var j := LookupChild(t, d, name);
      assert ChildOf(t, d, j, Lookup(t, d, name).value);
    }
  }

  lemma WalkInTree(t: Tree, root: nat, comps: seq<string>)
    requires IsTree(t, root) && Walk(t, root, comps).Some?
    ensures Walk(t, root, comps).value in t
    ensures comps != [] ==> Walk(t, root, comps).value != root
  {
    if comps != [] {
      var i := LookupChild(t, Walk(t, root, comps[..|comps| - 1]).value, comps[|comps| - 1]);
    }
  }

  /** A node is reached by one path only. */
  lemma {:induction false} PathUnique(t: Tree, root: nat, a: seq<string>, b: seq<string>)
    requires IsTree(t, root) && Walk(t, root, a).Some? && Walk(t, root, a) == Walk(t, root, b)
    ensures a == b
    decreases |a|
  {
    if a == [] || b == [] {
      WalkInTree(t, root, a);
      WalkInTree(t, root, b);
    } else {
      var a', b' := a[..|a| - 1], b[..|b| - 1];
      var i := LookupChild(t, Walk(t, root, a').value, a[|a| - 1]);
      var j := LookupChild(t, Walk(t, root, b').value, b[|b| - 1]);
      PathUnique(t, root, a', b');
      assert a == a' + [a[|a| - 1]] && b == b' + [b[|b| - 1]];
    }
  }

  lemma {:induction false} WalkAppend(t: Tree, d: nat, a: seq<string>, b: seq<string>)
    requires Walk(t, d, a).Some?
    ensures Walk(t, d, a + b) == Walk(t, Walk(t, d, a).value, b)
    decreases |b|
  {
    if b == [] {
      assert a + b == a;
    } else {
      assert (a + b)[..|a + b| - 1] == a + b[..|b| - 1];
      WalkAppend(t, d, a, b[..|b| - 1]);
    }
  }

  // ----- adding a node

  /** A node pushed to the end of p's children. */
  function Added(t: Tree, p: nat, c: nat, v: Vnode): (r: Tree)
    requires p in t && c !in t
  {
    t[p := t[p].(children := t[p].children + [c])][c := v]
  }

  lemma AddedChild(t: Tree, p: nat, c: nat, v: Vnode, d: nat, i: nat, x: nat)
    requires p in t && c !in t && v.children == []
    ensures ChildOf(Added(t, p, c, v), d, i, x) <==> ChildOf(t, d, i, x) || (d == p && i == |t[p].children| && x == c)
  {
  }

  /** vfs_mkdir and vfs_create keep the tree and, because the name was not found, unique names. */
  lemma CreateKeeps(t: Tree, root: nat, p: nat, c: nat, name: string, kind: Kind)
    requires IsTree(t, root) && UniqueNames(t) && p in t && c !in t && Lookup(t, p, name) == None
    ensures var r := Added(t, p, c, Vnode(name, kind, false, Some(p), [])); IsTree(r, root) && UniqueNames(r)
  {
    var v := Vnode(name, kind, false, Some(p), []);
    var r := Added(t, p, c, v);
    FirstMatchFound(t, t[p].children, name);
    forall d, i, x ensures ChildOf(r, d, i, x) <==> ChildOf(t, d, i, x) || (d == p && i == |t[p].children| && x == c) {
      AddedChild(t, p, c, v, d, i, x);
    }
    forall d: nat, i: nat, x: nat, j: nat, y: nat | ChildOf(r, d, i, x) && ChildOf(r, d, j, y) && x in r && y in r
      && !r[x].hidden && !r[y].hidden && r[x].name == r[y].name
      ensures i == j
    {
      assert ChildOf(t, p, i, x) ==> !Matches(t, t[p].children[i], name);
      assert ChildOf(t, p, j, y) ==> !Matches(t, t[p].children[j], name);
    }
  }

  lemma CreateParents(t: Tree, p: nat, c: nat, v: Vnode)
    requires ParentsMatch(t) && p in t && c !in t && v.children == [] && v.parent == Some(p)
    requires forall d, i, x {:trigger ChildOf(t, d, i, x)} :: ChildOf(t, d, i, x) ==> x in t
    ensures ParentsMatch(Added(t, p, c, v))
  {
    var r := Added(t, p, c, v);
    forall d: nat, i: nat, x: nat | ChildOf(r, d, i, x) && x in r ensures r[x].parent == Some(d) {
      AddedChild(t, p, c, v, d, i, x);
      assert ChildOf(t, d, i, x) ==> x in t;
    }
  }

  // ----- mounting

  /** A separate tree sub with root r is hung over x: x is hidden, r becomes the last child of p. */
  function Mounted(t: Tree, p: nat, x: nat, sub: Tree, r: nat): (t': Tree)
    requires p in t && x in t
  {
    var t1 := t[x := t[x].(hidden := true)];
    t1[p := t1[p].(children := t1[p].children + [r])] + sub
  }

  /** Two separate trees, and places in the first. */
  ghost predicate Graftable(t: Tree, root: nat, p: nat, x: nat, sub: Tree, r: nat) {
    && IsTree(t, root) && UniqueNames(t) && p in t && x in t
    && IsTree(sub, r) && UniqueNames(sub) && t.Keys !! sub.Keys && !sub[r].hidden
  }

  /** The usual case: x is a visible child of p, and r takes its name. */
  ghost predicate Mountable(t: Tree, root: nat, p: nat, k: nat, x: nat, sub: Tree, r: nat) {
    && Graftable(t, root, p, x, sub, r) && ChildOf(t, p, k, x) && x != p && !t[x].hidden && sub[r].name == t[x].name
  }

  lemma MountedNode(t: Tree, root: nat, p: nat, x: nat, sub: Tree, r: nat, d: nat)
    requires Graftable(t, root, p, x, sub, r)
    ensures var t' := Mounted(t, p, x, sub, r);
            && (d in t' <==> d in t || d in sub)
            && (d in sub ==> t'[d] == sub[d])
            && (d in t ==> t'[d].name == t[d].name && t'[d].hidden == (t[d].hidden || d == x))
            && (d in t ==> t'[d].parent == t[d].parent)
            && (d in t ==> t'[d].children == if d == p then t[d].children + [r] else t[d].children)
  {
  }

  lemma MountedChild(t: Tree, root: nat, p: nat, x: nat, sub: Tree, r: nat, d: nat, i: nat, c: nat)
    requires Graftable(t, root, p, x, sub, r)
    ensures ChildOf(Mounted(t, p, x, sub, r), d, i, c) <==>
              ChildOf(t, d, i, c) || ChildOf(sub, d, i, c) || (d == p && i == |t[p].children| && c == r)
  {
    MountedNode(t, root, p, x, sub, r, d);
  }

  lemma {:induction false} FirstMatchFrame(t: Tree, t': Tree, cs: seq<nat>, name: string)
    requires forall i {:trigger cs[i]} :: 0 <= i < |cs| ==> (Matches(t', cs[i], name) <==> Matches(t, cs[i], name))
    ensures FirstMatch(t', cs, name) == FirstMatch(t, cs, name)
  {
    if cs != [] {
      FirstMatchFrame(t, t', cs[1..], name);
    }
  }

  lemma {:induction false} FirstMatchAppend(t: Tree, cs: seq<nat>, r: nat, name: string)
    ensures FirstMatch(t, cs + [r], name) ==
            match FirstMatch(t, cs, name)
            case Some(c) => Some(c)
            case None => if Matches(t, r, name) then Some(r) else None
  {
    if cs == [] {
      assert cs + [r] == [r];
    } else {
      assert (cs + [r])[1..] == cs[1..] + [r];
      FirstMatchAppend(t, cs[1..], r, name);
    }
  }

  /** Away from the mount point every lookup is as before. */
  lemma LookupElsewhere(t: Tree, root: nat, p: nat, k: nat, x: nat, sub: Tree, r: nat, d: nat, name: string)
    requires Mountable(t, root, p, k, x, sub, r) && d in t && (d != p || name != t[x].name)
    ensures Lookup(Mounted(t, p, x, sub, r), d, name) == Lookup(t, d, name)
  {
    var t' := Mounted(t, p, x, sub, r);
    var cs := t[d].children;
    MountedNode(t, root, p, x, sub, r, d);
    forall i | 0 <= i < |cs| ensures Matches(t', cs[i], name) <==> Matches(t, cs[i], name) {
      assert ChildOf(t, d, i, cs[i]);
      MountedNode(t, root, p, x, sub, r, cs[i]);
    }
    FirstMatchFrame(t, t', cs, name);
    if d == p {
      MountedNode(t, root, p, x, sub, r, r);
      FirstMatchAppend(t', cs, r, name);
    }
  }

  /** Under the hidden node's name, the new root is found exactly if it has that name; nothing else is. */
  lemma LookupMount(t: Tree, root: nat, p: nat, k: nat, x: nat, sub: Tree, r: nat)
    requires Graftable(t, root, p, x, sub, r) && ChildOf(t, p, k, x) && !t[x].hidden
    ensures Lookup(Mounted(t, p, x, sub, r), p, t[x].name) == if sub[r].name == t[x].name then Some(r) else None
  {
    var t', name := Mounted(t, p, x, sub, r), t[x].name;
    var cs := t[p].children;
    MountedNode(t, root, p, x, sub, r, p);
    MountedNode(t, root, p, x, sub, r, r);
    forall i | 0 <= i < |cs| ensures !Matches(t', cs[i], name) {
      assert ChildOf(t, p, i, cs[i]);
      MountedNode(t, root, p, x, sub, r, cs[i]);
    }
    FirstMatchFound(t', cs, name);
    FirstMatchAppend(t', cs, r, name);
  }

  /** In directories other than that of the mount point every lookup is as before. */
  lemma LookupAway(t: Tree, root: nat, p: nat, k: nat, x: nat, sub: Tree, r: nat, d: nat, name: string)
    requires Graftable(t, root, p, x, sub, r) && ChildOf(t, p, k, x) && d in t && d != p
    ensures Lookup(Mounted(t, p, x, sub, r), d, name) == Lookup(t, d, name)
  {
    var t', cs := Mounted(t, p, x, sub, r), t[d].children;
    MountedNode(t, root, p, x, sub, r, d);
    forall i | 0 <= i < |cs| ensures Matches(t', cs[i], name) <==> Matches(t, cs[i], name) {
      assert ChildOf(t, d, i, cs[i]);
      MountedNode(t, root, p, x, sub, r, cs[i]);
    }
    FirstMatchFrame(t, t', cs, name);
  }

  /** The way to the directory of the mount point is as before. */
  lemma {:induction false} WalkToParent(t: Tree, root: nat, p: nat, k: nat, x: nat, sub: Tree, r: nat,
                                        path: seq<string>, n: nat)
    requires Graftable(t, root, p, x, sub, r) && ChildOf(t, p, k, x) && Walk(t, root, path) == Some(p) && n <= |path|
    ensures Walk(Mounted(t, p, x, sub, r), root, path[..n]) == Walk(t, root, path[..n])
    ensures Walk(t, root, path[..n]).Some?
    decreases n
  {
    WalkPrefix(t, root, path, n);
    if n > 0 {
      var front := path[..n - 1];
      WalkToParent(t, root, p, k, x, sub, r, path, n - 1);
      assert path[..n][..n - 1] == front;
      var d := Walk(t, root, front).value;
      WalkInTree(t, root, front);
      if d == p {
        PathUnique(t, root, front, path);
      }
      LookupAway(t, root, p, k, x, sub, r, d, path[n - 1]);
    }
  }

  lemma {:induction false} WalkPrefix(t: Tree, d: nat, path: seq<string>, n: nat)
    requires Walk(t, d, path).Some? && n <= |path|
    ensures Walk(t, d, path[..n]).Some?
    decreases |path|
  {
    if n == |path| {
      assert path[..n] == path;
    } else {
      WalkPrefix(t, d, path[..|path| - 1], n);
      assert path[..|path| - 1][..n] == path[..n];
    }
  }

  lemma LookupInside(t: Tree, root: nat, p: nat, x: nat, sub: Tree, r: nat, d: nat, name: string)
    requires Graftable(t, root, p, x, sub, r) && d in sub
    ensures Lookup(Mounted(t, p, x, sub, r), d, name) == Lookup(sub, d, name)
  {
    var t', cs := Mounted(t, p, x, sub, r), sub[d].children;
    MountedNode(t, root, p, x, sub, r, d);
    forall i | 0 <= i < |cs| ensures Matches(t', cs[i], name) <==> Matches(sub, cs[i], name) {
      assert ChildOf(sub, d, i, cs[i]);
      MountedNode(t, root, p, x, sub, r, cs[i]);
    }
    FirstMatchFrame(sub, t', cs, name);
  }

  lemma {:induction false} WalkInside(t: Tree, root: nat, p: nat, x: nat, sub: Tree, r: nat, rest: seq<string>)
    requires Graftable(t, root, p, x, sub, r)
    ensures Walk(Mounted(t, p, x, sub, r), r, rest) == Walk(sub, r, rest)
    decreases |rest|
  {
    if rest != [] {
      var front := rest[..|rest| - 1];
      WalkInside(t, root, p, x, sub, r, front);
      if Walk(sub, r, front).Some? {
        WalkInTree(sub, r, front);
        LookupInside(t, root, p, x, sub, r, Walk(sub, r, front).value, rest[|rest| - 1]);
      }
    }
  }

  /** Paths that do not pass through the mount point resolve as before. */
  lemma {:induction false} MountElsewhere(t: Tree, root: nat, p: nat, k: nat, x: nat, sub: Tree, r: nat,
                                          target: seq<string>, q: seq<string>)
    requires Mountable(t, root, p, k, x, sub, r) && Walk(t, root, target) == Some(x) && !(target <= q)
    ensures Walk(Mounted(t, p, x, sub, r), root, q) == Walk(t, root, q)
    decreases |q|
  {
    if q != [] {
      var front, name := q[..|q| - 1], q[|q| - 1];
      assert q == front + [name];
      MountElsewhere(t, root, p, k, x, sub, r, target, front);
      if Walk(t, root, front).Some? {
        var d := Walk(t, root, front).value;
        WalkInTree(t, root, front);
        if d == p && name == t[x].name {
          LookupIs(t, p, k, x, name);
          PathUnique(t, root, q, target);
        } else {
          LookupElsewhere(t, root, p, k, x, sub, r, d, name);
        }
      }
    }
  }

  /** What the hidden node's own path leads to: the new root if it has the node's name, and nothing otherwise. */
  lemma HiddenPath(t: Tree, root: nat, p: nat, k: nat, x: nat, sub: Tree, r: nat, target: seq<string>)
    requires Graftable(t, root, p, x, sub, r) && ChildOf(t, p, k, x) && Walk(t, root, target) == Some(x)
    ensures Walk(Mounted(t, p, x, sub, r), root, target) == if sub[r].name == t[x].name then Some(r) else None
    ensures target != [] && target[|target| - 1] == t[x].name && !t[x].hidden
  {
    assert target != [];
    var front, name := target[..|target| - 1], target[|target| - 1];
    var j := LookupChild(t, Walk(t, root, front).value, name);
    assert Walk(t, root, front) == Some(p);
    WalkToParent(t, root, p, k, x, sub, r, front, |front|);
    assert front[..|front|] == front;
    LookupMount(t, root, p, k, x, sub, r);
  }

  /** In tree t, target followed by rest leads where rest leads from the root r of sub. */
  ghost predicate LeadsInto(t: Tree, root: nat, target: seq<string>, sub: Tree, r: nat, rest: seq<string>) {
    Walk(t, root, target + rest) == Walk(sub, r, rest)
  }

  /** Every path that starts with target goes on in sub. */
  ghost predicate Shadows(t: Tree, root: nat, target: seq<string>, sub: Tree, r: nat) {
    forall rest {:trigger LeadsInto(t, root, target, sub, r, rest)} :: LeadsInto(t, root, target, sub, r, rest)
  }

  /** Every path through the mount point resolves its rest from the new root, if and only if the new root has the
      hidden node's name. */
  lemma ShadowsIff(t: Tree, root: nat, p: nat, k: nat, x: nat, sub: Tree, r: nat, target: seq<string>)
    requires Graftable(t, root, p, x, sub, r) && ChildOf(t, p, k, x) && Walk(t, root, target) == Some(x)
    ensures Shadows(Mounted(t, p, x, sub, r), root, target, sub, r) <==> sub[r].name == t[x].name
  {
    var t' := Mounted(t, p, x, sub, r);
    HiddenPath(t, root, p, k, x, sub, r, target);
    if sub[r].name == t[x].name {
      forall rest ensures LeadsInto(t', root, target, sub, r, rest) {
        WalkAppend(t', root, target, rest);
        WalkInside(t, root, p, x, sub, r, rest);
      }
    } else {
      assert target + [] == target;
      assert !LeadsInto(t', root, target, sub, r, []);
    }
  }

  /** Every path through a mount point that gives its name to the new root resolves its rest from there. */
  lemma MountShadows(t: Tree, root: nat, p: nat, k: nat, x: nat, sub: Tree, r: nat, target: seq<string>,
                     rest: seq<string>)
    requires Mountable(t, root, p, k, x, sub, r) && Walk(t, root, target) == Some(x)
    ensures Walk(Mounted(t, p, x, sub, r), root, target + rest) == Walk(sub, r, rest)
  {
    ShadowsIff(t, root, p, k, x, sub, r, target);
    assert LeadsInto(Mounted(t, p, x, sub, r), root, target, sub, r, rest);
  }

  ghost predicate MountEdges(t: Tree, t': Tree, p: nat, x: nat, sub: Tree, r: nat)
    requires p in t
  {
    && (forall d: nat, i: nat, c: nat {:trigger ChildOf(t', d, i, c)} ::
          ChildOf(t', d, i, c) <==>
          ChildOf(t, d, i, c) || ChildOf(sub, d, i, c) || (d == p && i == |t[p].children| && c == r))
    && (forall d {:trigger d in t'} :: d in t' <==> d in t || d in sub)
    && (forall d {:trigger t'[d]} :: d in sub ==> d in t' && t'[d] == sub[d])
    && (forall d {:trigger t'[d]} :: d in t ==>
          d in t' && t'[d].name == t[d].name && t'[d].hidden == (t[d].hidden || d == x))
  }

  lemma MountedEdges(t: Tree, root: nat, p: nat, x: nat, sub: Tree, r: nat)
    requires Graftable(t, root, p, x, sub, r)
    ensures MountEdges(t, Mounted(t, p, x, sub, r), p, x, sub, r)
  {
    var t' := Mounted(t, p, x, sub, r);
    forall d: nat, i: nat, c: nat
      ensures ChildOf(t', d, i, c) <==>
                ChildOf(t, d, i, c) || ChildOf(sub, d, i, c) || (d == p && i == |t[p].children| && c == r)
      ensures d in t' <==> d in t || d in sub
      ensures d in sub ==> t'[d] == sub[d]
      ensures d in t ==> t'[d].name == t[d].name && t'[d].hidden == (t[d].hidden || d == x)
    {
      MountedChild(t, root, p, x, sub, r, d, i, c);
      MountedNode(t, root, p, x, sub, r, d);
    }
  }

  lemma MountTree(t: Tree, t': Tree, root: nat, p: nat, x: nat, sub: Tree, r: nat)
    requires Graftable(t, root, p, x, sub, r) && MountEdges(t, t', p, x, sub, r)
    ensures IsTree(t', root)
  {
    forall d: nat, i: nat, e: nat, j: nat, c: nat | ChildOf(t', d, i, c) && ChildOf(t', e, j, c)
      ensures d == e && i == j {
      assert ChildOf(t, d, i, c) ==> c in t;
      assert ChildOf(t, e, j, c) ==> c in t;
      assert ChildOf(sub, d, i, c) ==> c in sub && c != r;
      assert ChildOf(sub, e, j, c) ==> c in sub && c != r;
    }
    assert root in t';
  }

  lemma MountParents(t: Tree, root: nat, p: nat, x: nat, sub: Tree, r: nat)
    requires Graftable(t, root, p, x, sub, r) && ParentsMatch(t) && ParentsMatch(sub) && sub[r].parent == Some(p)
    ensures ParentsMatch(Mounted(t, p, x, sub, r))
  {
    var t' := Mounted(t, p, x, sub, r);
    forall d: nat, i: nat, c: nat | ChildOf(t', d, i, c) && c in t' ensures t'[c].parent == Some(d) {
      MountedChild(t, root, p, x, sub, r, d, i, c);
      MountedNode(t, root, p, x, sub, r, c);
      assert ChildOf(t, d, i, c) ==> c in t && c !in sub;
    }
  }

  /** No visible child of p other than x has this name. */
  ghost predicate NameFree(t: Tree, p: nat, x: nat, name: string) {
    forall i, c {:trigger ChildOf(t, p, i, c)} :: ChildOf(t, p, i, c) && c in t && c != x && !t[c].hidden ==>
      t[c].name != name
  }

  lemma MountNames(t: Tree, t': Tree, root: nat, p: nat, x: nat, sub: Tree, r: nat)
    requires Graftable(t, root, p, x, sub, r) && MountEdges(t, t', p, x, sub, r) && NameFree(t, p, x, sub[r].name)
    ensures UniqueNames(t')
  {
    forall d: nat, i: nat, c: nat, j: nat, e: nat | ChildOf(t', d, i, c) && ChildOf(t', d, j, e) && c in t' && e in t'
                                && !t'[c].hidden && !t'[e].hidden && t'[c].name == t'[e].name
      ensures i == j
    {
      assert d in t <==> d !in sub;
      assert ChildOf(t, d, i, c) ==> c in t;
      assert ChildOf(t, d, j, e) ==> e in t;
      assert ChildOf(sub, d, i, c) ==> c in sub;
      assert ChildOf(sub, d, j, e) ==> e in sub;
    }
  }

  /** Mounting keeps the tree, and unique visible names if and only if the name is free beside the hidden node. */
  lemma MountKeepsIff(t: Tree, root: nat, p: nat, x: nat, sub: Tree, r: nat)
    requires Graftable(t, root, p, x, sub, r)
    ensures IsTree(Mounted(t, p, x, sub, r), root)
    ensures UniqueNames(Mounted(t, p, x, sub, r)) <==> NameFree(t, p, x, sub[r].name)
  {
    var t' := Mounted(t, p, x, sub, r);
    MountedEdges(t, root, p, x, sub, r);
    MountTree(t, t', root, p, x, sub, r);
    if NameFree(t, p, x, sub[r].name) {
      MountNames(t, t', root, p, x, sub, r);
    } else {
      var i: nat, c: nat :| ChildOf(t, p, i, c) && c in t && c != x && !t[c].hidden && t[c].name == sub[r].name;
      var n := |t[p].children|;
      assert ChildOf(t', p, i, c) && ChildOf(t', p, n, r) && i != n;
      assert t'[c].name == t'[r].name && !t'[c].hidden && !t'[r].hidden;
    }
  }
}
