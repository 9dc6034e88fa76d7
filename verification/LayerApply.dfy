/** `apply_to_bootstrap`: an upper layer's nodes pushed onto a loaded tree through a trace that knows only the root. */
module LayerApply {
  import opened Wrappers
  import opened Bytes
  import opened Nodes
  import opened Trees
  import opened Flatten
  import opened Layout
  import opened Direct
  import opened Readback
  import opened FastIndex
  import opened Digest
  import opened TreeLoad
  import opened EndToEnd

  const NEW_TRACE := TreeTrace([], [], map[])

  /** `apply2` with one node after the other. */
  function ApplyAll(t: Tree, tr: TreeTrace, ns: seq<Node>): (Tree, TreeTrace) {
    if ns == [] then (t, tr)
    else
      var (t', tr') := ApplyAll(t, tr, ns[..|ns| - 1]);
      var (t'', tr'', _) := Apply2On(t', tr', ns[|ns| - 1]);
      (t'', tr'')
  }

  /** The loop of `apply_to_bootstrap`, which ignores whether a node was applied. */
  method ApplyLayer(lower: Tree, ns: seq<Node>) returns (tree: Tree)
    ensures tree == ApplyAll(lower, NEW_TRACE, ns).0
  {
    hide Apply2On, Apply2Spec, Grows;
    var indexed := new IndexedTree(lower);
    for k := 0 to |ns|
      invariant fresh(indexed)
      invariant (indexed.tree, indexed.trace) == ApplyAll(lower, NEW_TRACE, ns[..k])
    {
      assert ns[..k + 1][..k] == ns[..k];
      var _ := indexed.Apply2(ns[k]);
    }
    assert ns[..|ns|] == ns;
    tree := indexed.tree;
  }

  // ----- where a trace says that paths are -----

  /** The positions that the trace has for a path. */
  function FindPath(tr: TreeTrace, p: Path, depth: nat): Option<seq<nat>>
    requires depth <= |p|
  {
    match FindTrace(tr, p, depth)
    case Some(s) => Some(s.treeNodePath)
    case None => None
  }

  lemma FindStep(tr: TreeTrace, p: Path, depth: nat)
    requires depth < |p|
    ensures FindPath(tr, p, depth)
            == if p[..depth + 1] in tr.children then FindPath(tr.children[p[..depth + 1]], p, depth + 1) else None
  {
  }

  lemma FindHere(tr: TreeTrace, p: Path)
    ensures FindPath(tr, p, |p|) == Some(tr.treeNodePath)
  {
  }

  /** What a trace knows after `add`: the new path, nothing below it, and everything else as before. */
  function FindAfterAdd(tr: TreeTrace, name: Path, index: nat, p: Path, depth: nat): Option<seq<nat>>
    requires depth < |name| && depth <= |p|
  {
    var parent := FindPath(tr, Parent(name), depth);
    if parent.None? then FindPath(tr, p, depth)
    else if p == name then Some(parent.value + [index])
    else if |name| < |p| && p[..|name|] == name then None
    else FindPath(tr, p, depth)
  }

  lemma {:induction false} FindAdded(tr: TreeTrace, name: Path, index: nat, p: Path, depth: nat)
    requires depth < |name| && depth <= |p| && p[..depth] == name[..depth]
    ensures FindPath(AddTrace(tr, name, index, depth), p, depth) == FindAfterAdd(tr, name, index, p, depth)
    decreases |name| - depth
  {
    hide FindPath, AddTrace;
    AddParts(tr, name, index, depth);
    var tr' := AddTrace(tr, name, index, depth);
    if depth == |p| {
      FindHere(tr, p);
      FindHere(tr', p);
    } else {
      FindStep(tr, p, depth);
      FindStep(tr', p, depth);
      if p[depth] == name[depth] {
        assert p[..depth + 1] == name[..depth + 1];
        if depth + 1 == |name| {
          FindHere(tr, Parent(name));
          FindFresh(TreeTrace(name, tr.treeNodePath + [index], map[]), p, depth + 1);
          assert p[..|name|] == name;
        } else {
          FindStep(tr, Parent(name), depth);
          assert Parent(name)[..depth + 1] == name[..depth + 1];
          if name[..depth + 1] in tr.children {
            FindAdded(tr.children[name[..depth + 1]], name, index, p, depth + 1);
          }
        }
      } else {
        assert p[..depth + 1][depth] != name[..depth + 1][depth];
        assert |name| < |p| ==> p[..|name|][depth] == p[depth];
      }
    }
  }

  lemma AddParts(tr: TreeTrace, name: Path, index: nat, depth: nat)
    requires depth < |name|
    ensures var tr' := AddTrace(tr, name, index, depth);
            && tr'.treeNodePath == tr.treeNodePath
            && (forall p :: p != name[..depth + 1] ==>
                  (p in tr'.children <==> p in tr.children) && (p in tr.children ==> tr'.children[p] == tr.children[p]))
            && (depth + 1 == |name| ==>
                  name in tr'.children && tr'.children[name] == TreeTrace(name, tr.treeNodePath + [index], map[]))
            && (depth + 1 < |name| ==>
                  && (name[..depth + 1] in tr'.children <==> name[..depth + 1] in tr.children)
                  && (name[..depth + 1] in tr.children ==>
                        tr'.children[name[..depth + 1]]
                        == AddTrace(tr.children[name[..depth + 1]], name, index, depth + 1)))
  {
    if depth + 1 == |name| { assert name[..depth + 1] == name; }
  }

  lemma FindFresh(tr: TreeTrace, p: Path, depth: nat)
    requires depth <= |p| && tr.children == map[]
    ensures FindPath(tr, p, depth) == if depth == |p| then Some(tr.treeNodePath) else None
  {
  }

  // ----- a tree beside another -----

  /** Positions below a root that has `n` children in front. */
  function Shift(ip: seq<nat>, n: nat): seq<nat> {
    if ip == [] then [] else [ip[0] + n] + ip[1..]
  }

  function ShiftSome(ip: Option<seq<nat>>, n: nat): Option<seq<nat>> {
    match ip
    case Some(ip) => Some(Shift(ip, n))
    case None => None
  }

  /** The trace `tr` knows the same paths as `up`, with `n` children of the root in front. */
  ghost predicate Beside(tr: TreeTrace, up: TreeTrace, n: nat) {
    forall p :: FindPath(tr, p, 0) == ShiftSome(FindPath(up, p, 0), n)
  }

  lemma NewBeside(n: nat)
    ensures Beside(NEW_TRACE, NEW_TRACE, n)
  {
    forall p
      ensures FindPath(NEW_TRACE, p, 0) == ShiftSome(FindPath(NEW_TRACE, p, 0), n)
    {
      FindFresh(NEW_TRACE, p, 0);
    }
  }

  lemma AtShifted(t: Tree, u: Tree, front: seq<Tree>, ip: seq<nat>, n: Node)
    requires t == Tree(u.node, front + u.children)
    ensures ip == [] ==> At(t, Shift(ip, |front|)) == Some(t) && At(u, ip) == Some(u)
    ensures ip != [] ==> At(t, Shift(ip, |front|)) == At(u, ip)
    ensures PushAt(t, Shift(ip, |front|), n) == Tree(u.node, front + PushAt(u, ip, n).children)
    ensures PushAt(u, ip, n).node == u.node
  {
    var jp := Shift(ip, |front|);
    if ip == [] {
      assert front + (u.children + [Tree(n, [])]) == front + u.children + [Tree(n, [])];
    } else {
      assert jp[1..] == ip[1..];
      if ip[0] < |u.children| {
        assert t.children[jp[0]] == u.children[ip[0]];
        var c := PushAt(u.children[ip[0]], ip[1..], n);
        assert (front + u.children)[jp[0] := c] == front + u.children[ip[0] := c];
      }
    }
  }

  /** One node applied to both. */
  lemma StepBeside(t: Tree, tr: TreeTrace, u: Tree, up: TreeTrace, front: seq<Tree>, target: Node)
    requires t == Tree(u.node, front + u.children) && Beside(tr, up, |front|)
    ensures var (t', tr', applied) := Apply2On(t, tr, target);
            var (u', up', above) := Apply2On(u, up, target);
            t' == Tree(u'.node, front + u'.children) && Beside(tr', up', |front|) && applied == above
  {
    hide FindTrace, At, PushAt, AddTrace, Shift, Beside;
    if target.path != [] {
      var parent := Parent(target.path);
      SamePlace(tr, up, |front|, parent);
      match FindTrace(up, parent, 0) {
        case None =>
        case Some(above) =>
          var ip := above.treeNodePath;
          AtShifted(t, u, front, ip, Added(target));
          if At(u, ip).Some? {
            var n := |At(u, ip).value.children|;
            AddedBeside(tr, up, |front|, target.path, if ip == [] then |front| + n else n, n);
          }
      }
    }
  }

  lemma SamePlace(tr: TreeTrace, up: TreeTrace, n: nat, p: Path)
    requires Beside(tr, up, n)
    ensures FindTrace(tr, p, 0).Some? <==> FindTrace(up, p, 0).Some?
    ensures FindTrace(up, p, 0).Some? ==>
              FindTrace(tr, p, 0).value.treeNodePath == Shift(FindTrace(up, p, 0).value.treeNodePath, n)
  {
    assert FindPath(tr, p, 0) == ShiftSome(FindPath(up, p, 0), n);
  }

  lemma AddedBeside(tr: TreeTrace, up: TreeTrace, n: nat, name: Path, index: nat, above: nat)
    requires Beside(tr, up, n) && name != [] && FindTrace(up, Parent(name), 0).Some?
    requires index == if FindTrace(up, Parent(name), 0).value.treeNodePath == [] then n + above else above
    ensures Beside(AddTrace(tr, name, index, 0), AddTrace(up, name, above, 0), n)
  {
    hide AddTrace, FindTrace;
    var tr', up' := AddTrace(tr, name, index, 0), AddTrace(up, name, above, 0);
    assert FindPath(tr, Parent(name), 0) == ShiftSome(FindPath(up, Parent(name), 0), n);
    var ip := FindTrace(up, Parent(name), 0).value.treeNodePath;
    assert Shift(ip, n) + [index] == Shift(ip + [above], n) by { ShiftSnoc(ip, n, index, above); }
    forall p
      ensures FindPath(tr', p, 0) == ShiftSome(FindPath(up', p, 0), n)
    {
      FindAdded(tr, name, index, p, 0);
      FindAdded(up, name, above, p, 0);
      assert FindPath(tr, p, 0) == ShiftSome(FindPath(up, p, 0), n);
    }
  }

  lemma ShiftSnoc(ip: seq<nat>, n: nat, index: nat, above: nat)
    requires index == if ip == [] then n + above else above
    ensures Shift(ip, n) + [index] == Shift(ip + [above], n)
  {
    if ip != [] { assert (ip + [above])[1..] == ip[1..] + [above]; }
  }

  /** Applying a layer keeps the lower tree's children and puts behind them what the layer grows on a bare root. */
  lemma {:induction false} AppliedBeside(t: Tree, ns: seq<Node>)
    ensures var (t', tr) := ApplyAll(t, NEW_TRACE, ns);
            var (u, up) := ApplyAll(Tree(t.node, []), NEW_TRACE, ns);
            t' == Tree(u.node, t.children + u.children) && Beside(tr, up, |t.children|)
    decreases |ns|
  {
    hide Beside, Apply2On;
    if ns == [] {
      NewBeside(|t.children|);
      assert t.children + [] == t.children;
    } else {
      var front := ns[..|ns| - 1];
      AppliedBeside(t, front);
      var (t', tr) := ApplyAll(t, NEW_TRACE, front);
      var (u, up) := ApplyAll(Tree(t.node, []), NEW_TRACE, front);
      StepBeside(t', tr, u, up, t.children, ns[|ns| - 1]);
    }
  }

  // ----- what the layer grows -----

  lemma {:induction false} GrownInStep(root: Node, ns: seq<Node>)
    requires root.path == [] && root.IsDir() && ParentsFirst(ns)
    ensures var (u, up) := ApplyAll(Tree(root, []), NEW_TRACE, ns);
            u == Grow(Tree(root, []), ns) && StepOf(u, up)
    decreases |ns|
  {
    hide Apply2On, Apply2Spec, Grows, StepOf, ParentsFirst, HoldsExactly;
    if ns == [] {
      NewInStep(root);
    } else {
      var front := ns[..|ns| - 1];
      assert ns == front + [ns[|ns| - 1]];
      InOrderPrefix(front, ns[|ns| - 1]);
      GrownInStep(root, front);
      GrowsExactly(root, ns);
      var (u, up) := ApplyAll(Tree(root, []), NEW_TRACE, front);
      Apply2InStep(u, up, ns[|ns| - 1]);
    }
  }

  lemma NewInStep(root: Node)
    requires root.path == [] && root.IsDir()
    ensures StepOf(Tree(root, []), NEW_TRACE)
  {
  }

  // ----- the layered tree -----

  /** The tree that `apply_to_bootstrap` makes of a lower tree and the upper nodes. */
  function Layered(lower: Tree, ns: seq<Node>): Tree {
    ApplyAll(lower, NEW_TRACE, ns).0
  }

  /** The tree of the upper nodes alone. */
  function Upper(lower: Tree, ns: seq<Node>): Tree {
    Grow(Tree(lower.node, []), ns)
  }

  lemma LayeredIs(lower: Tree, ns: seq<Node>)
    requires lower.node.path == [] && lower.node.IsDir() && ParentsFirst(ns)
    ensures var u := Upper(lower, ns);
            Layered(lower, ns) == Tree(u.node, lower.children + u.children) && HoldsExactly(u, ns)
  {
    hide ApplyAll, Beside, StepOf, ParentsFirst, HoldsExactly, Grow;
    AppliedBeside(lower, ns);
    GrownInStep(lower.node, ns);
    GrowsExactly(lower.node, ns);
  }

  lemma {:induction false} NamedAppend(a: seq<Tree>, b: seq<Tree>, name: Name)
    ensures ChildNamed(a + b, name)
            == match ChildNamed(a, name)
               case Some(i) => Some(i)
               case None => (match ChildNamed(b, name) case Some(i) => Some(|a| + i) case None => None)
  {
    if a == [] {
      assert a + b == b;
    } else {
      assert (a + b)[1..] == a[1..] + b;
      NamedAppend(a[1..], b, name);
    }
  }

  lemma TopNode(t: Tree, name: Name)
    ensures NodeAt(t, [name]).None? <==> ChildNamed(t.children, name).None?
  {
    var p: Path := [name];
    assert p[1..] == [];
    match ChildNamed(t.children, name) {
      case Some(i) => RootAt(t.children[i]);
      case None =>
    }
  }

  /** What a path leads to: below a name that the lower tree has at its top, what it led to there, and otherwise what
      the upper nodes have. */
  lemma LayeredFinds(lower: Tree, ns: seq<Node>, q: Path)
    requires lower.node.path == [] && lower.node.IsDir() && ParentsFirst(ns) && q != []
    ensures NodeAt(Layered(lower, ns), q)
            == if NodeAt(lower, [q[0]]).Some? then NodeAt(lower, q) else NodeAt(Upper(lower, ns), q)
  {
    hide Layered, Upper, ParentsFirst, HoldsExactly;
    LayeredIs(lower, ns);
    NamedAppend(lower.children, Upper(lower, ns).children, q[0]);
    TopNode(lower, q[0]);
  }

  /** All nodes come from the lower layer, as those of a loaded tree do. */
  ghost predicate AllLower(t: Tree) {
    forall q :: NodeAt(t, q).Some? ==> NodeAt(t, q).value.overlay.Lower?
  }

  /** An upper node ends up at its path exactly when the lower tree has nothing under the path's first name. */
  lemma UpperNodeIff(lower: Tree, ns: seq<Node>, k: nat)
    requires lower.node.path == [] && lower.node.IsDir() && ParentsFirst(ns) && AllLower(lower)
    requires k < |ns| && ns[k].path != []
    ensures NodeAt(Layered(lower, ns), ns[k].path) == Some(Added(ns[k])) <==> NodeAt(lower, [ns[k].path[0]]).None?
  {
    hide Layered, Upper, ParentsFirst, NodeAt, Shaped;
    LayeredIs(lower, ns);
    LayeredFinds(lower, ns, ns[k].path);
  }

  /** No node of the lower tree goes away or changes, but the root. */
  lemma LowerStays(lower: Tree, ns: seq<Node>, q: Path)
    requires lower.node.path == [] && lower.node.IsDir() && ParentsFirst(ns) && q != [] && NodeAt(lower, q).Some?
    ensures NodeAt(Layered(lower, ns), q) == NodeAt(lower, q)
  {
    hide Layered, Upper, ParentsFirst;
    LayeredFinds(lower, ns, q);
    TopNode(lower, q[0]);
  }

  /** The upper nodes have names of their own at the top. */
  ghost predicate NoneShared(lower: Tree, ns: seq<Node>) {
    forall k :: 0 <= k < |ns| && ns[k].path != [] ==> NodeAt(lower, [ns[k].path[0]]).None?
  }

  lemma AppendDistinct(a: seq<Tree>, b: seq<Tree>)
    requires DistinctNames(a) && DistinctNames(b)
    ensures DistinctNames(a + b) <==> forall i :: 0 <= i < |b| ==> ChildNamed(a, b[i].node.Name()).None?
  {
    if DistinctNames(a + b) {
      forall i | 0 <= i < |b|
        ensures ChildNamed(a, b[i].node.Name()).None?
      {
        assert (a + b)[|a| + i] == b[i];
        assert forall j :: 0 <= j < |a| ==> (a + b)[j] == a[j];
      }
    }
  }

  /** The names at the top of the tree of the upper nodes. */
  lemma TopNames(u: Tree, ns: seq<Node>, i: nat) returns (k: nat)
    requires HoldsExactly(u, ns) && i < |u.children|
    ensures k < |ns| && ns[k].path == [u.children[i].node.Name()]
  {
    hide Shaped;
    var q := [u.children[i].node.Name()];
    ShapedChild(u, i);
    ChildNamedIs(u.children, i);
    TopNode(u, q[0]);
    k :| 0 <= k < |ns| && ns[k].path == q;
  }

  lemma TopOf(u: Tree, ns: seq<Node>, k: nat) returns (i: nat)
    requires HoldsExactly(u, ns) && k < |ns| && ns[k].path != []
    ensures i < |u.children| && u.children[i].node.Name() == ns[k].path[0]
  {
    hide Shaped;
    assert NodeAt(u, ns[k].path).Some?;
    i := ChildNamed(u.children, ns[k].path[0]).value;
  }

  /** The result is a proper tree exactly when no upper node's path starts with a name that the lower tree has at its
      top: otherwise two siblings have the same name. */
  lemma ProperIff(lower: Tree, ns: seq<Node>)
    requires lower.node.path == [] && Shaped(lower) && lower.node.IsDir() && ParentsFirst(ns)
    ensures Shaped(Layered(lower, ns)) <==> NoneShared(lower, ns)
    ensures DistinctNames(Layered(lower, ns).children) <==> NoneShared(lower, ns)
  {
    hide Layered, Upper, ParentsFirst, Shaped, NodeAt, HoldsExactly, DistinctNames;
    LayeredIs(lower, ns);
    var t, u := Layered(lower, ns), Upper(lower, ns);
    HeldShape(u, ns);
    ShapedNames(lower);
    ShapedNames(u);
    AppendDistinct(lower.children, u.children);
    AppendShaped(lower, u);
    if forall i :: 0 <= i < |u.children| ==> ChildNamed(lower.children, u.children[i].node.Name()).None? {
      forall k | 0 <= k < |ns| && ns[k].path != []
        ensures NodeAt(lower, [ns[k].path[0]]).None?
      {
        var i := TopOf(u, ns, k);
        TopNode(lower, ns[k].path[0]);
      }
    }
    if NoneShared(lower, ns) {
      forall i | 0 <= i < |u.children|
        ensures ChildNamed(lower.children, u.children[i].node.Name()).None?
      {
        var k := TopNames(u, ns, i);
        TopNode(lower, u.children[i].node.Name());
      }
    }
  }

  lemma HeldShape(u: Tree, ns: seq<Node>)
    requires HoldsExactly(u, ns)
    ensures Shaped(u) && u.node.path == [] && u.node.IsDir()
  {
    hide Shaped;
  }

  lemma AppendShaped(a: Tree, b: Tree)
    requires Shaped(a) && Shaped(b) && a.node.path == b.node.path && b.node.IsDir()
    ensures Shaped(Tree(b.node, a.children + b.children)) <==> DistinctNames(a.children + b.children)
  {
    var t := Tree(b.node, a.children + b.children);
    forall i | 0 <= i < |t.children|
      ensures Shaped(t.children[i]) && t.children[i].node.path == t.node.path + [t.children[i].node.Name()]
    {
      if i < |a.children| { ShapedChild(a, i); } else { ShapedChild(b, i - |a.children|); }
    }
  }

  /** A directory of the upper layer that the lower tree already has at its top becomes a second sibling of the same
      name, behind the first, and so do not its files end up at their paths. */
  lemma UpperDirTwice(lower: Tree, d: Node, f: Node)
    requires lower.node.path == [] && lower.node.IsDir() && Shaped(lower)
    requires |d.path| == 1 && d.IsDir() && NodeAt(lower, d.path).Some?
    requires |f.path| == 2 && f.path[..1] == d.path && NodeAt(lower, f.path).None?
    ensures var t := Layered(lower, [d, f]);
            && t == Tree(lower.node, lower.children + [Tree(Added(d), [Tree(Added(f), [])])])
            && NodeAt(t, d.path) == NodeAt(lower, d.path) && NodeAt(t, f.path).None? && !DistinctNames(t.children)
  {
    hide Layered, NodeAt, DistinctNames, Shaped, ParentsFirst, HoldsExactly;
    TwoInOrder(d, f);
    LayeredIs(lower, [d, f]);
    TwoGrow(lower.node, d, f);
    LayeredFinds(lower, [d, f], d.path);
    LayeredFinds(lower, [d, f], f.path);
    assert f.path[0] == f.path[..1][0];
    assert [d.path[0]] == d.path == [f.path[0]];
    ProperIff(lower, [d, f]);
    assert [d, f][0] == d;
  }

  lemma TwoInOrder(d: Node, f: Node)
    requires |d.path| == 1 && d.IsDir() && |f.path| == 2 && f.path[..1] == d.path
    ensures ParentsFirst([d, f])
  {
    var ns := [d, f];
    assert Parent(d.path) == [] && Parent(f.path) == d.path;
    assert InOrder(ns, 0) && InOrder(ns, 1);
  }

  lemma TwoGrow(root: Node, d: Node, f: Node)
    requires |d.path| == 1 && |f.path| == 2 && f.path[..1] == d.path
    ensures Grow(Tree(root, []), [d, f]) == Tree(root, [Tree(Added(d), [Tree(Added(f), [])])])
  {
    var t0, t1 := Tree(root, []), Tree(root, [Tree(Added(d), [])]);
    assert Parent(d.path) == [] && Parent(f.path) == d.path;
    assert [d, f][..1] == [d] && [d][..0] == [];
    assert Insert(t0, [], Added(d)) == t1 by { assert [] + [Tree(Added(d), [])] == [Tree(Added(d), [])]; }
    assert Find(t0, []) == Some(t0);
    assert Grow(t0, []) == t0 && Grow(t0, [d]) == t1;
    assert Added(d).Name() == d.path[0];
    assert d.path[1..] == [];
    assert ChildNamed(t1.children, d.path[0]) == Some(0);
    var c := Insert(Tree(Added(d), []), [], Added(f));
    assert c == Tree(Added(d), [Tree(Added(f), [])]) by {
      assert [] + [Tree(Added(f), [])] == [Tree(Added(f), [])];
    }
    assert Insert(t1, d.path, Added(f)) == Tree(root, t1.children[0 := c]);
    assert t1.children[0 := c] == [c];
    assert Find(t1.children[0], []) == Some(t1.children[0]);
    assert Find(t1, d.path).Some?;
    assert Apply2Spec(t1, f).0 == Tree(root, [c]);
  }

  // ----- from a loaded tree to a flattened one -----

  /** A node loaded from an image: of the lower layer, with its number in the image, and on no device. */
  predicate FromImage(n: Node) {
    n.overlay == Lower && n.realIno == n.inode.ino && n.dev == 0xFFFF_FFFF_FFFF_FFFF
  }

  /** All nodes of the trees are loaded ones. */
  ghost predicate EachLoaded(ts: seq<Tree>)
    decreases ts
  {
    forall i :: 0 <= i < |ts| ==> FromImage(ts[i].node) && EachLoaded(ts[i].children)
  }

  lemma EachCons(t: Tree, ts: seq<Tree>)
    requires FromImage(t.node) && EachLoaded(t.children) && EachLoaded(ts)
    ensures EachLoaded([t] + ts)
  {
    var us := [t] + ts;
    forall i | 0 <= i < |us|
      ensures FromImage(us[i].node) && EachLoaded(us[i].children)
    {
      assert us[i] == if i == 0 then t else ts[i - 1];
    }
  }

  lemma {:induction false} RangeLoaded(a: seq<Node>, lo: nat, hi: nat, path: Path)
    requires Readable(a) && hi <= |a|
    ensures EachLoaded(LoadRange(a, lo, hi, path))
    decreases |a| - lo, 1
  {
    hide Readable, EachLoaded;
    if lo >= hi {
      NoneLoaded(a, lo, hi, path);
    } else {
      var childPath := path + [a[lo].Name()];
      LoadRangeStep(a, lo, hi, path);
      RangeLoaded(a, lo + 1, hi, path);
      BelowLoaded(a, lo, childPath);
      EachCons(Tree(ParseNode(View(a[lo]), childPath), Below(a, lo, childPath)), LoadRange(a, lo + 1, hi, path));
    }
  }

  lemma NoneLoaded(a: seq<Node>, lo: nat, hi: nat, path: Path)
    requires Readable(a) && hi <= |a| && lo >= hi
    ensures EachLoaded(LoadRange(a, lo, hi, path))
  {
    hide Readable;
  }

  lemma {:induction false} BelowLoaded(a: seq<Node>, pos: nat, path: Path)
    requires Readable(a) && pos < |a|
    ensures EachLoaded(Below(a, pos, path))
    decreases |a| - pos, 0
  {
    hide Readable, LoadRange;
    if a[pos].IsDir() {
      ReadableAt(a, pos);
      BelowIs(a, pos, path);
      RangeLoaded(a, a[pos].inode.childIndex - 1, a[pos].inode.childIndex - 1 + a[pos].inode.childCount, path);
    }
  }

  lemma {:induction false} EachIsAll(t: Tree, q: Path)
    requires FromImage(t.node) && EachLoaded(t.children) && NodeAt(t, q).Some?
    ensures FromImage(NodeAt(t, q).value)
    decreases |q|
  {
    if q != [] {
      EachIsAll(t.children[ChildNamed(t.children, q[0]).value], q[1..]);
    }
  }

  lemma {:induction false} StripShaped(t: Tree)
    requires Ordered(Strip(t))
    ensures Shaped(t)
    decreases t
  {
    hide Less;
    StripEach(t.children);
    forall i | 0 <= i < |t.children|
      ensures t.children[i].node.path == t.node.path + [t.children[i].node.Name()] && Shaped(t.children[i])
    {
      FileNameOf(t.children[i].node);
      StripShaped(t.children[i]);
    }
    forall i, j | 0 <= i < j < |t.children|
      ensures t.children[i].node.Name() != t.children[j].node.Name()
    {
      FileNameOf(t.children[i].node);
      FileNameOf(t.children[j].node);
      assert Less(FileName(Strip(t).children[i].file), FileName(Strip(t).children[j].file));
      LessIrreflexive(t.children[i].node.Name());
    }
  }

  lemma {:induction false} StripEach(ts: seq<Tree>)
    ensures forall i :: 0 <= i < |ts| ==> StripAll(ts)[i] == Strip(ts[i])
  {
    hide Strip;
    if ts != [] { StripEach(ts[1..]); }
  }

  lemma FileNameOf(n: Node)
    ensures FileName(FileOf(n)) == n.Name() && FileOf(n).path == n.path && FileOf(n).kind == n.inode.kind
  {
  }

  /** The tree loaded from an image is a proper one, all of the lower layer, with the numbers of the image. */
  lemma LoadedIsLower(a: seq<Node>, f: FileTree)
    requires Readable(a) && Rep(a, 0, f, 1) && Ordered(f) && f.file.path == [] && f.file.kind.Dir?
    requires forall q :: 0 <= q < |a| ==> Plain(FileOf(a[q]))
    ensures var t := LoadedTree(a); Shaped(t) && AllLower(t) && t.node.path == [] && t.node.IsDir()
    ensures forall q :: NodeAt(LoadedTree(a), q).Some? ==> FromImage(NodeAt(LoadedTree(a), q).value)
  {
    hide Readable, Rep, Ordered, Plain, Strip, Below, LoadRange;
    var t := LoadedTree(a);
    LoadedTreeIsBuiltTree(a, f);
    StripShaped(t);
    RootHead(a, f);
    BelowIs(a, 0, []);
    RangeLoaded(a, a[0].inode.childIndex - 1, a[0].inode.childIndex - 1 + a[0].inode.childCount, []);
    forall q | NodeAt(t, q).Some?
      ensures FromImage(NodeAt(t, q).value)
    {
      EachIsAll(t, q);
    }
  }

  /** `apply_to_bootstrap` up to the flattening: the loaded tree with the upper nodes on top, or the load's error. */
  method ApplyToBootstrap(m: Mapping, h: Hash, ns: seq<Node>, ghost a: seq<Node>) returns (r: Result<Tree>)
    requires DirsOwnNumber(m)
    ensures ImageOf(m, a) ==>
              0 < |a| && r == if Accepts(a, 0, true, h) then Ok(Layered(LoadedTree(a), ns)) else Err(Einval)
  {
    hide ImageOf, Readable, Accepts, LoadedTree, ApplyAll, DirsOwnNumber;
    var lower :- FromBootstrap(m, h, a);
    var tree := ApplyLayer(lower, ns);
    r := Ok(tree);
  }

  /** If no name at the top is shared, the flattened tree has every upper file at its path. */
  lemma UpperFilesBuilt(lower: Tree, ns: seq<Node>, k: nat)
    requires lower.node.path == [] && Shaped(lower) && lower.node.IsDir() && ParentsFirst(ns) && AllLower(lower)
    requires NoneShared(lower, ns) && k < |ns| && ns[k].path != []
    ensures var g := FindFile(Canon(Layered(lower, ns), false), ns[k].path);
            g.Some? && g.value.file == FileOf(ns[k])
  {
    hide Layered, ParentsFirst, AllLower, Shaped, Canon;
    ProperIff(lower, ns);
    UpperNodeIff(lower, ns, k);
    CanonFind(Layered(lower, ns), ns[k].path, false);
    CanonFile(Find(Layered(lower, ns), ns[k].path).value);
  }

  /** And every lower file but the root. */
  lemma LowerFilesBuilt(lower: Tree, ns: seq<Node>, q: Path)
    requires lower.node.path == [] && Shaped(lower) && lower.node.IsDir() && ParentsFirst(ns)
    requires NoneShared(lower, ns) && q != [] && NodeAt(lower, q).Some?
    ensures var g := FindFile(Canon(Layered(lower, ns), false), q);
            g.Some? && g.value.file == FileOf(NodeAt(lower, q).value)
  {
    hide Layered, ParentsFirst, Shaped, Canon;
    ProperIff(lower, ns);
    LowerStays(lower, ns, q);
    CanonFind(Layered(lower, ns), q, false);
    CanonFile(Find(Layered(lower, ns), q).value);
  }

  lemma CanonFile(t: Tree)
    ensures Canon(t, false).file == FileOf(t.node)
  {
    hide CanonAll, SortByName;
  }
}
