/** Growing a tree one node at a time: the recursive `apply`, and `apply2` with its path index `TreeTrace`. */
module FastIndex {
  import opened Wrappers
  import opened Bytes
  import opened Nodes
  import opened Trees

  // ----- the shape every tree keeps -----

  /** Siblings have distinct names, a child's path is its parent's plus its name, and only directories have children. */
  ghost predicate Shaped(t: Tree) {
    && (!t.node.IsDir() ==> t.children == [])
    && DistinctNames(t.children)
    && forall i :: 0 <= i < |t.children| ==>
         && t.children[i].node.path == t.node.path + [t.children[i].node.Name()]
         && Shaped(t.children[i])
  }

  /** The node at the path `p` below `t`. */
  function NodeAt(t: Tree, p: Path): Option<Node> {
    match Find(t, p)
    case Some(s) => Some(s.node)
    case None => None
  }

  lemma RootAt(t: Tree)
    ensures NodeAt(t, []) == Some(t.node)
  {
  }

  /** `t` with a new childless node below the directory at the path `p`. */
  function Insert(t: Tree, p: Path, n: Node): Tree
    decreases |p|
  {
    if p == [] then Tree(t.node, t.children + [Tree(n, [])])
    else match ChildNamed(t.children, p[0])
         case Some(i) => Tree(t.node, t.children[i := Insert(t.children[i], p[1..], n)])
         case None => t
  }

  lemma ChildNamedSame(ts: seq<Tree>, i: nat, c: Tree, name: Name)
    requires i < |ts| && c.node.Name() == ts[i].node.Name() && DistinctNames(ts)
    ensures ChildNamed(ts[i := c], name) == ChildNamed(ts, name)
  {
    var us := ts[i := c];
    assert DistinctNames(us);
    assert forall j :: 0 <= j < |ts| ==> us[j].node.Name() == ts[j].node.Name();
    match ChildNamed(ts, name) {
      case Some(j) => ChildNamedIs(us, j);
      case None =>
    }
  }

  lemma ChildNamedAppend(ts: seq<Tree>, c: Tree, name: Name)
    requires DistinctNames(ts + [c])
    ensures ChildNamed(ts + [c], name)
            == if c.node.Name() == name then Some(|ts|) else ChildNamed(ts, name)
  {
    var us := ts + [c];
    assert forall j :: 0 <= j < |ts| ==> us[j] == ts[j];
    if c.node.Name() == name {
      ChildNamedIs(us, |ts|);
    } else {
      match ChildNamed(ts, name) {
        case Some(j) => ChildNamedIs(us, j);
        case None =>
      }
    }
  }

  /** A path that is free, below an existing directory. */
  ghost predicate Free(t: Tree, p: Path, n: Node) {
    && Find(t, p).Some? && Find(t, p).value.node.IsDir()
    && n.path == Find(t, p).value.node.path + [n.Name()]
    && ChildNamed(Find(t, p).value.children, n.Name()) == None
  }

  /** Inserting a node below a directory keeps the shape. */
  lemma {:induction false} InsertKeepsShape(t: Tree, p: Path, n: Node)
    requires Shaped(t) && Free(t, p, n)
    ensures Shaped(Insert(t, p, n)) && Insert(t, p, n).node == t.node
    decreases |p|
  {
    if p == [] {
      assert DistinctNames(t.children + [Tree(n, [])]);
    } else {
      var i := ChildNamed(t.children, p[0]).value;
      InsertKeepsShape(t.children[i], p[1..], n);
    }
  }

  /** Inserting a node adds it at its path and keeps all others. */
  lemma {:induction false} InsertAdds(t: Tree, p: Path, n: Node, q: Path)
    requires Shaped(t) && Free(t, p, n)
    ensures NodeAt(Insert(t, p, n), q) == if q == p + [n.Name()] then Some(n) else NodeAt(t, q)
    decreases |p|
  {
    hide Shaped;
    if p == [] {
      InsertHere(t, n, q);
    } else {
      var i := ChildNamed(t.children, p[0]).value;
      ShapedChild(t, i);
      var s := t.children[i];
      if q != [] && q[0] == p[0] { InsertAdds(s, p[1..], n, q[1..]); }
      InsertKeepsShape(s, p[1..], n);
      if q != [] {
        ChildNamedSame(t.children, i, Insert(s, p[1..], n), q[0]);
        PathSplit(p, n.Name(), q);
      }
    }
  }

  lemma ShapedChild(t: Tree, i: nat)
    requires Shaped(t) && i < |t.children|
    ensures Shaped(t.children[i]) && DistinctNames(t.children)
    ensures t.children[i].node.path == t.node.path + [t.children[i].node.Name()]
    ensures t.node.IsDir()
  {
  }

  lemma PathSplit(p: Path, name: Name, q: Path)
    requires p != [] && q != []
    ensures q == p + [name] <==> q[0] == p[0] && q[1..] == p[1..] + [name]
  {
    assert q == [q[0]] + q[1..] && p + [name] == [p[0]] + (p[1..] + [name]);
  }

  lemma InsertHere(t: Tree, n: Node, q: Path)
    requires Shaped(t) && Free(t, [], n)
    ensures NodeAt(Insert(t, [], n), q) == if q == [n.Name()] then Some(n) else NodeAt(t, q)
  {
    var c := Tree(n, []);
    assert DistinctNames(t.children + [c]);
    if q != [] {
      ChildNamedAppend(t.children, c, q[0]);
      assert q == [q[0]] + q[1..] && (t.children + [c])[|t.children|] == c;
      assert Find(c, q[1..]) == if q[1..] == [] then Some(c) else None;
    }
  }

  // ----- the recursive search: `apply` without whiteouts -----

  /** `Tree::apply` for a node that is no whiteout. */
  function Apply(t: Tree, target: Node): (Tree, bool)
    decreases t, 0
  {
    if target.path == [] then (Tree(target.(overlay := UpperModification), t.children), true)
    else
      var (children, found) := if |t.node.path| < |target.path| then ApplyKids(t.children, target, |t.node.path|)
                               else (t.children, false);
      if found then (Tree(t.node, children), true)
      else if AddsHere(t.node, target) then
        (Tree(t.node, children + [Tree(target.(overlay := UpperAddition), [])]), true)
      else (Tree(t.node, children), false)
  }

  /** The node is where the target's parent is expected, and has the parent's name. */
  predicate AddsHere(n: Node, target: Node) {
    |n.path| + 1 == |target.path| && (if n.path == [] then ROOT_NAME else target.path[|n.path| - 1]) == n.Name()
  }

  /** The loop of `apply` over the children of a node `depth` components deep. */
  function ApplyKids(ts: seq<Tree>, target: Node, depth: nat): (seq<Tree>, bool)
    requires depth < |target.path|
    decreases ts, 1
  {
    if ts == [] then (ts, false)
    else if target.path[depth] != ts[0].node.Name() then
      var (rest, found) := ApplyKids(ts[1..], target, depth);
      ([ts[0]] + rest, found)
    else if depth + 1 == |target.path| then
      ([Tree(target.(overlay := UpperModification), ts[0].children)] + ts[1..], true)
    else
      var (child, found) := if ts[0].node.IsDir() then Apply(ts[0], target) else (ts[0], false);
      if found then ([child] + ts[1..], true)
      else
        var (rest, found') := ApplyKids(ts[1..], target, depth);
        ([child] + rest, found')
  }

  /** A failed search leaves the tree alone. */
  lemma {:induction false} ApplyFailed(t: Tree, target: Node)
    requires !Apply(t, target).1
    ensures Apply(t, target).0 == t
    decreases t, 0
  {
    if target.path != [] && |t.node.path| < |target.path| { ApplyKidsFailed(t.children, target, |t.node.path|); }
  }

  lemma {:induction false} ApplyKidsFailed(ts: seq<Tree>, target: Node, depth: nat)
    requires depth < |target.path|
    ensures !ApplyKids(ts, target, depth).1 ==> ApplyKids(ts, target, depth).0 == ts
    decreases ts, 1
  {
    if ts != [] {
      ApplyKidsFailed(ts[1..], target, depth);
      if ts[0].node.IsDir() && !Apply(ts[0], target).1 { ApplyFailed(ts[0], target); }
    }
  }

  /** What the loop of `apply` makes of one child: its replacement, and whether the search ends there. */
  function Visit(c: Tree, target: Node, depth: nat): (Tree, bool)
    requires depth < |target.path|
  {
    if target.path[depth] != c.node.Name() then (c, false)
    else if depth + 1 == |target.path| then (Tree(target.(overlay := UpperModification), c.children), true)
    else if c.node.IsDir() then Apply(c, target) else (c, false)
  }

  /** Children that do not end the search are skipped; the first that does is replaced. */
  lemma {:induction false} ApplyKidsVisits(ts: seq<Tree>, target: Node, depth: nat, i: nat)
    requires depth < |target.path| && i <= |ts|
    requires forall j :: 0 <= j < i ==> !Visit(ts[j], target, depth).1
    ensures i == |ts| ==> ApplyKids(ts, target, depth) == (ts, false)
    ensures i < |ts| && Visit(ts[i], target, depth).1 ==>
              ApplyKids(ts, target, depth) == (ts[i := Visit(ts[i], target, depth).0], true)
    decreases i
  {
    if i == 0 {
      assert i < |ts| ==> ts[i := Visit(ts[i], target, depth).0] == [Visit(ts[i], target, depth).0] + ts[1..];
    } else {
      assert !Visit(ts[0], target, depth).1;
      if ts[0].node.IsDir() && !Apply(ts[0], target).1 { ApplyFailed(ts[0], target); }
      forall j | 0 <= j < i - 1
        ensures !Visit(ts[1..][j], target, depth).1
      {
        assert ts[1..][j] == ts[j + 1];
      }
      ApplyKidsVisits(ts[1..], target, depth, i - 1);
      assert i < |ts| ==>
               ts[i := Visit(ts[i], target, depth).0] == [ts[0]] + ts[1..][i - 1 := Visit(ts[i], target, depth).0];
      assert ts == [ts[0]] + ts[1..];
    }
  }

  /** `Tree::apply`, with its loop. */
  method ApplyNode(t: Tree, target: Node) returns (t': Tree, applied: bool)
    ensures (t', applied) == Apply(t, target)
    decreases t
  {
    hide ApplyKids;
    if target.path == [] {
      return Tree(target.(overlay := UpperModification), t.children), true;
    }
    var children := t.children;
    var depth := |t.node.path|;
    if depth < |target.path| {
      for i := 0 to |children|
        invariant children == t.children
        invariant forall j :: 0 <= j < i ==> !Visit(t.children[j], target, depth).1
      {
        var child := children[i];
        ApplyKidsVisits(t.children, target, depth, i);
        if target.path[depth] != child.node.Name() {
          continue;
        }
        if depth + 1 == |target.path| {
          children := children[i := Tree(target.(overlay := UpperModification), child.children)];
          return Tree(t.node, children), true;
        }
        if child.node.IsDir() {
          var child', found := ApplyNode(child, target);
          if found {
            children := children[i := child'];
            return Tree(t.node, children), true;
          }
        }
      }
      ApplyKidsVisits(t.children, target, depth, |t.children|);
    }
    if depth + 1 == |target.path|
        && (if t.node.path == [] then ROOT_NAME else target.path[depth - 1]) == t.node.Name() {
      return Tree(t.node, children + [Tree(target.(overlay := UpperAddition), [])]), true;
    }
    return Tree(t.node, children), false;
  }

  // ----- what `apply` does to a shaped tree -----

  /** The target's path below `t`: its parent's components, then its own name. */
  ghost predicate Targets(t: Tree, rel: Path, target: Node) {
    target.path == t.node.path + rel + [target.Name()]
  }

  function Added(target: Node): Node {
    target.(overlay := UpperAddition)
  }

  /** The child of the right name is the only one the search can end at. */
  lemma OthersMiss(t: Tree, target: Node, depth: nat, i: nat)
    requires DistinctNames(t.children) && depth < |target.path| && i <= |t.children|
    requires i < |t.children| ==> t.children[i].node.Name() == target.path[depth]
    requires i == |t.children| ==> ChildNamed(t.children, target.path[depth]) == None
    ensures forall j :: 0 <= j < |t.children| && j != i ==> !Visit(t.children[j], target, depth).1
  {
    hide Apply;
  }

  lemma ApplyAddsHere(t: Tree, target: Node)
    requires Shaped(t) && Targets(t, [], target) && Free(t, [], Added(target))
    ensures Apply(t, target) == (Insert(t, [], Added(target)), true)
  {
    hide Shaped, ApplyKids;
    ShapedNames(t);
    OthersMiss(t, target, |t.node.path|, |t.children|);
    ApplyKidsVisits(t.children, target, |t.node.path|, |t.children|);
  }

  /** The search goes down into the directory that has the target's next component as its name. */
  lemma ApplyGoesDown(t: Tree, target: Node, i: nat)
    requires DistinctNames(t.children) && i < |t.children| && |t.node.path| + 1 < |target.path|
    requires t.children[i].node.Name() == target.path[|t.node.path|] && t.children[i].node.IsDir()
    requires Apply(t.children[i], target).1
    ensures Apply(t, target) == (Tree(t.node, t.children[i := Apply(t.children[i], target).0]), true)
  {
    hide DistinctNames, ApplyKids;
    OthersMiss(t, target, |t.node.path|, i);
    ApplyKidsVisits(t.children, target, |t.node.path|, i);
  }

  /** A new node whose parent is a directory of the tree is added below it. */
  lemma {:induction false} ApplyInserts(t: Tree, rel: Path, target: Node)
    requires Shaped(t) && Targets(t, rel, target) && Free(t, rel, Added(target))
    ensures Apply(t, target) == (Insert(t, rel, Added(target)), true)
    decreases |rel|
  {
    hide Shaped, Apply;
    ShapedNames(t);
    if rel == [] {
      ApplyAddsHere(t, target);
    } else {
      var i := ChildNamed(t.children, rel[0]).value;
      var c := t.children[i];
      ShapedChild(t, i);
      assert rel == [rel[0]] + rel[1..];
      ParentIsDir(c, rel[1..]);
      ApplyInserts(c, rel[1..], target);
      ApplyGoesDown(t, target, i);
    }
  }

  lemma ShapedNames(t: Tree)
    requires Shaped(t)
    ensures DistinctNames(t.children)
  {
  }

  /** Whatever has something below it, or is a directory itself, is a directory. */
  lemma ParentIsDir(t: Tree, rel: Path)
    requires Shaped(t) && Find(t, rel).Some? && Find(t, rel).value.node.IsDir()
    ensures t.node.IsDir()
  {
  }

  /** Without a parent in the tree nothing is applied. */
  lemma {:induction false} ApplyWithoutParent(t: Tree, rel: Path, target: Node)
    requires Shaped(t) && Targets(t, rel, target) && Find(t, rel).None?
    ensures Apply(t, target) == (t, false)
    decreases |rel|
  {
    hide Shaped, ApplyKids;
    var depth := |t.node.path|;
    ShapedNames(t);
    match ChildNamed(t.children, rel[0]) {
      case Some(i) =>
        ShapedChild(t, i);
        assert rel == [rel[0]] + rel[1..];
        ApplyWithoutParent(t.children[i], rel[1..], target);
        OthersMiss(t, target, depth, i);
      case None =>
        OthersMiss(t, target, depth, |t.children|);
    }
    ApplyKidsVisits(t.children, target, depth, |t.children|);
  }

  /** A parent that is no directory, or already has that child, leaves the number of nodes as it is. */
  lemma {:induction false} ApplyOtherwise(t: Tree, rel: Path, target: Node)
    requires Shaped(t) && Targets(t, rel, target) && Find(t, rel).Some? && !Free(t, rel, Added(target))
    requires rel == [] ==> t.node.IsDir()
    ensures Size(Apply(t, target).0) == Size(t)
    decreases |rel|
  {
    hide Shaped, ApplyKids, SizeAll;
    var depth := |t.node.path|;
    ShapedNames(t);
    if rel == [] {
      FindPath(t, rel);
      var i := ChildNamed(t.children, target.Name()).value;
      OthersMiss(t, target, depth, i);
      ApplyKidsVisits(t.children, target, depth, i);
      SizeAllUpdate(t.children, i, Visit(t.children[i], target, depth).0);
    } else {
      var i := ChildNamed(t.children, rel[0]).value;
      var c := t.children[i];
      ShapedChild(t, i);
      assert rel == [rel[0]] + rel[1..];
      OthersMiss(t, target, depth, i);
      if c.node.IsDir() {
        ApplyOtherwise(c, rel[1..], target);
        SizeAllUpdate(t.children, i, Apply(c, target).0);
        if Apply(c, target).1 {
          ApplyKidsVisits(t.children, target, depth, i);
        } else {
          ApplyKidsVisits(t.children, target, depth, |t.children|);
        }
      } else {
        ApplyKidsVisits(t.children, target, depth, |t.children|);
      }
    }
  }

  lemma {:induction false} SizeAllUpdate(ts: seq<Tree>, i: nat, c: Tree)
    requires i < |ts|
    ensures SizeAll(ts[i := c]) == SizeAll(ts) - Size(ts[i]) + Size(c)
  {
    if i > 0 {
      assert ts[i := c][1..] == ts[1..][i - 1 := c];
      SizeAllUpdate(ts[1..], i - 1, c);
    } else {
      assert ts[i := c] == [c] + ts[1..];
    }
  }

  /** The node found at `rel` has that path. */
  lemma {:induction false} FindPath(t: Tree, rel: Path)
    requires Shaped(t) && Find(t, rel).Some?
    ensures Find(t, rel).value.node.path == t.node.path + rel && Shaped(Find(t, rel).value)
    decreases |rel|
  {
    hide Shaped;
    if rel != [] {
      var i := ChildNamed(t.children, rel[0]).value;
      ShapedChild(t, i);
      FindPath(t.children[i], rel[1..]);
      assert rel == [rel[0]] + rel[1..];
    }
  }

  lemma {:induction false} InsertSize(t: Tree, rel: Path, n: Node)
    requires Find(t, rel).Some?
    ensures Size(Insert(t, rel, n)) == Size(t) + 1
    decreases |rel|
  {
    if rel == [] {
      SizeAllAppend(t.children, [Tree(n, [])]);
      assert SizeAll([Tree(n, [])]) == Size(Tree(n, [])) + SizeAll([]);
    } else {
      var i := ChildNamed(t.children, rel[0]).value;
      InsertSize(t.children[i], rel[1..], n);
      SizeAllUpdate(t.children, i, Insert(t.children[i], rel[1..], n));
    }
  }

  // ----- the path index -----

  /** `TreeTrace`: the child positions that lead to a node, and the traces below it by full path. */
  datatype TreeTrace = TreeTrace(name: Path, treeNodePath: seq<nat>, children: map<Path, TreeTrace>)

  /** `TreeTrace::find`, from the trace of the first `depth` components on. */
  function FindTrace(tr: TreeTrace, name: Path, depth: nat): Option<TreeTrace>
    requires depth <= |name|
    decreases |name| - depth
  {
    if depth == |name| then Some(tr)
    else if name[..depth + 1] in tr.children then FindTrace(tr.children[name[..depth + 1]], name, depth + 1)
    else None
  }

  /** `TreeTrace::add`: the trace with a new one under the trace of the name's parent. */
  function AddTrace(tr: TreeTrace, name: Path, index: nat, depth: nat): TreeTrace
    requires depth < |name|
    decreases |name| - depth
  {
    if depth + 1 == |name| then
      tr.(children := tr.children[name := TreeTrace(name, tr.treeNodePath + [index], map[])])
    else if name[..depth + 1] in tr.children then
      tr.(children := tr.children[name[..depth + 1] :=
          AddTrace(tr.children[name[..depth + 1]], name, index, depth + 1)])
    else tr
  }

  /** `TreeTrace::do_find_child`. */
  function At(t: Tree, ip: seq<nat>): Option<Tree>
    decreases |ip|
  {
    if ip == [] then Some(t)
    else if ip[0] < |t.children| then At(t.children[ip[0]], ip[1..])
    else None
  }

  /** `t` with `n` pushed to the children of the subtree at the positions `ip`. */
  function PushAt(t: Tree, ip: seq<nat>, n: Node): Tree
    decreases |ip|
  {
    if ip == [] then Tree(t.node, t.children + [Tree(n, [])])
    else if ip[0] < |t.children| then Tree(t.node, t.children[ip[0] := PushAt(t.children[ip[0]], ip[1..], n)])
    else t
  }

  /** Every node has its trace, which leads to it, and there are no others. */
  ghost predicate Sync(tr: TreeTrace, t: Tree)
    decreases t, 1
  {
    && (forall i :: 0 <= i < |t.children| ==> SyncedAt(tr, t, i))
    && (forall p :: p in tr.children ==> ChildPath(t, p))
  }

  /** The trace of the child at position `i` leads there. */
  ghost predicate SyncedAt(tr: TreeTrace, t: Tree, i: nat)
    requires i < |t.children|
    decreases t, 0
  {
    var p := t.children[i].node.path;
    p in tr.children && tr.children[p].treeNodePath == tr.treeNodePath + [i] && Sync(tr.children[p], t.children[i])
  }

  ghost predicate ChildPath(t: Tree, p: Path) {
    exists i :: 0 <= i < |t.children| && t.children[i].node.path == p
  }

  lemma SyncChild(tr: TreeTrace, t: Tree, i: nat)
    requires Sync(tr, t) && i < |t.children|
    ensures var p := t.children[i].node.path;
            p in tr.children && tr.children[p].treeNodePath == tr.treeNodePath + [i]
                && Sync(tr.children[p], t.children[i])
  {
    hide Sync;
    SyncParts(tr, t);
    assert SyncedAt(tr, t, i);
  }

  /** A name component leads to a child exactly when the trace has the longer prefix. */
  lemma SyncNamed(tr: TreeTrace, t: Tree, name: Name)
    requires Sync(tr, t) && Shaped(t)
    ensures t.node.path + [name] in tr.children <==> ChildNamed(t.children, name).Some?
    ensures forall i :: ChildNamed(t.children, name) == Some(i) ==> t.children[i].node.path == t.node.path + [name]
  {
    var p := t.node.path + [name];
    if p in tr.children {
      var i :| 0 <= i < |t.children| && t.children[i].node.path == p;
      assert t.children[i].node.Name() == name;
    }
    match ChildNamed(t.children, name) {
      case Some(i) => SyncChild(tr, t, i);
      case None =>
    }
  }

  /** The trace of a path exists exactly when the tree has a node there, and then leads to it. */
  lemma {:induction false} TraceLeads(tr: TreeTrace, t: Tree, name: Path, depth: nat, n: Node) returns (ip: seq<nat>)
    requires Sync(tr, t) && Shaped(t) && depth <= |name| && t.node.path == name[..depth]
    ensures FindTrace(tr, name, depth).Some? <==> Find(t, name[depth..]).Some?
    ensures FindTrace(tr, name, depth).Some? ==>
              && FindTrace(tr, name, depth).value.treeNodePath == tr.treeNodePath + ip
              && At(t, ip) == Find(t, name[depth..])
              && PushAt(t, ip, n) == Insert(t, name[depth..], n)
    decreases |name| - depth
  {
    hide Sync, Shaped, FindTrace, Find, At, PushAt, Insert;
    ip := [];
    if depth == |name| {
      TraceHere(tr, t, name, n);
    } else {
      assert name[..depth + 1] == name[..depth] + [name[depth]];
      SyncNamed(tr, t, name[depth]);
      TraceBelow(tr, t, name, depth);
      match ChildNamed(t.children, name[depth]) {
        case Some(i) =>
          SyncChild(tr, t, i);
          ShapedChild(t, i);
          var below := TraceLeads(tr.children[name[..depth + 1]], t.children[i], name, depth + 1, n);
          ip := [i] + below;
          PushBelow(t, name[depth..], i, below, n);
          assert name[depth..][1..] == name[depth + 1..];
          assert (tr.treeNodePath + [i]) + below == tr.treeNodePath + ip;
        case None =>
      }
    }
  }

  lemma TraceHere(tr: TreeTrace, t: Tree, name: Path, n: Node)
    ensures FindTrace(tr, name, |name|) == Some(tr) && Find(t, name[|name|..]) == Some(t) && At(t, []) == Some(t)
    ensures PushAt(t, [], n) == Insert(t, name[|name|..], n) && tr.treeNodePath + [] == tr.treeNodePath
  {
  }

  /** One step down, in the index and in the tree. */
  lemma TraceBelow(tr: TreeTrace, t: Tree, name: Path, depth: nat)
    requires depth < |name|
    ensures FindTrace(tr, name, depth)
            == if name[..depth + 1] in tr.children then FindTrace(tr.children[name[..depth + 1]], name, depth + 1)
                else None
    ensures Find(t, name[depth..])
            == match ChildNamed(t.children, name[depth])
               case Some(i) => Find(t.children[i], name[depth + 1..])
               case None => None
  {
    assert name[depth..][1..] == name[depth + 1..];
  }

  lemma PushBelow(t: Tree, rel: Path, i: nat, below: seq<nat>, n: Node)
    requires rel != [] && ChildNamed(t.children, rel[0]) == Some(i)
    ensures At(t, [i] + below) == At(t.children[i], below)
    ensures PushAt(t.children[i], below, n) == Insert(t.children[i], rel[1..], n) ==>
              PushAt(t, [i] + below, n) == Insert(t, rel, n)
  {
    assert ([i] + below)[1..] == below;
  }

  lemma SyncParts(tr: TreeTrace, t: Tree)
    requires Sync(tr, t)
    ensures forall i :: 0 <= i < |t.children| ==> SyncedAt(tr, t, i)
    ensures forall p :: p in tr.children ==> ChildPath(t, p)
  {
  }

  lemma SyncWhole(tr: TreeTrace, t: Tree)
    requires forall i :: 0 <= i < |t.children| ==> SyncedAt(tr, t, i)
    requires forall p :: p in tr.children ==> ChildPath(t, p)
    ensures Sync(tr, t)
  {
  }

  lemma SyncLeaf(tr: TreeTrace, t: Tree)
    requires tr.children == map[] && t.children == []
    ensures Sync(tr, t)
  {
  }

  lemma SiblingPaths(t: Tree)
    requires Shaped(t)
    ensures forall i, j :: 0 <= i < j < |t.children| ==> t.children[i].node.path != t.children[j].node.path
  {
    forall i, j | 0 <= i < j < |t.children|
      ensures t.children[i].node.path != t.children[j].node.path
    {
      assert t.children[i].node.Name() != t.children[j].node.Name();
    }
  }

  /** Replacing one child and its trace keeps the others in step. */
  lemma SyncReplace(tr: TreeTrace, t: Tree, i: nat, trc: TreeTrace, c: Tree)
    requires Sync(tr, t) && Shaped(t) && i < |t.children|
    requires c.node == t.children[i].node && Sync(trc, c) && trc.treeNodePath == tr.treeNodePath + [i]
    ensures Sync(tr.(children := tr.children[c.node.path := trc]), Tree(t.node, t.children[i := c]))
  {
    hide Sync, Shaped;
    var tr', t' := tr.(children := tr.children[c.node.path := trc]), Tree(t.node, t.children[i := c]);
    SyncParts(tr, t);
    SiblingPaths(t);
    forall j | 0 <= j < |t'.children|
      ensures SyncedAt(tr', t', j)
    {
      assert SyncedAt(tr, t, j);
    }
    forall p | p in tr'.children
      ensures ChildPath(t', p)
    {
      if p == c.node.path {
        assert t'.children[i].node.path == p;
      } else {
        var j :| 0 <= j < |t.children| && t.children[j].node.path == p;
        assert t'.children[j].node.path == p;
      }
    }
    SyncWhole(tr', t');
  }

  /** A new last child and its trace keep the others in step. */
  lemma SyncPush(tr: TreeTrace, t: Tree, n: Node)
    requires Sync(tr, t) && Shaped(t) && n.path == t.node.path + [n.Name()] && ChildNamed(t.children, n.Name()) == None
    ensures Sync(tr.(children := tr.children[n.path := TreeTrace(n.path, tr.treeNodePath + [|t.children|], map[])]),
                 Tree(t.node, t.children + [Tree(n, [])]))
  {
    var trc, c := TreeTrace(n.path, tr.treeNodePath + [|t.children|], map[]), Tree(n, []);
    hide Sync, Shaped;
    var tr', t' := tr.(children := tr.children[n.path := trc]), Tree(t.node, t.children + [c]);
    SyncParts(tr, t);
    SyncLeaf(trc, c);
    forall j | 0 <= j < |t'.children|
      ensures SyncedAt(tr', t', j)
    {
      if j < |t.children| {
        assert SyncedAt(tr, t, j) && t.children[j].node.Name() != n.Name();
      }
    }
    forall p | p in tr'.children
      ensures ChildPath(t', p)
    {
      if p == n.path {
        assert t'.children[|t.children|].node.path == p;
      } else {
        var j :| 0 <= j < |t.children| && t.children[j].node.path == p;
        assert t'.children[j].node.path == p;
      }
    }
    SyncWhole(tr', t');
  }

  /** Adding the trace of a newly inserted node keeps index and tree in step. */
  lemma {:induction false} SyncInsert(tr: TreeTrace, t: Tree, n: Node, depth: nat)
    requires Sync(tr, t) && Shaped(t)
    requires depth < |n.path| && t.node.path == n.path[..depth]
    requires Free(t, n.path[depth..|n.path| - 1], n)
    ensures var rel := n.path[depth..|n.path| - 1];
            var tr' := AddTrace(tr, n.path, |Find(t, rel).value.children|, depth);
            Sync(tr', Insert(t, rel, n)) && tr'.treeNodePath == tr.treeNodePath
    decreases |n.path| - depth
  {
    hide Sync, Shaped;
    var rel := n.path[depth..|n.path| - 1];
    if rel == [] {
      assert n.path == n.path[..depth] + [n.path[depth]];
      SyncPush(tr, t, n);
    } else {
      var i := ChildNamed(t.children, rel[0]).value;
      var c := t.children[i];
      ShapedChild(t, i);
      SyncNamed(tr, t, rel[0]);
      SyncChild(tr, t, i);
      assert n.path[..depth + 1] == n.path[..depth] + [n.path[depth]];
      assert rel[1..] == n.path[depth + 1..|n.path| - 1];
      SyncInsert(tr.children[c.node.path], c, n, depth + 1);
      InsertKeepsRoot(c, rel[1..], n);
      var index := |Find(t, rel).value.children|;
      SyncReplace(tr, t, i, AddTrace(tr.children[c.node.path], n.path, index, depth + 1), Insert(c, rel[1..], n));
    }
  }

  lemma InsertKeepsRoot(t: Tree, rel: Path, n: Node)
    ensures Insert(t, rel, n).node == t.node
  {
  }

  // ----- the tree with its index -----

  function Parent(p: Path): Path
    requires p != []
  {
    p[..|p| - 1]
  }

  /** What `apply2` makes of a tree its trace is in step with. */
  function Apply2Spec(t: Tree, target: Node): (Tree, bool) {
    if target.path == [] then (Tree(target.(overlay := UpperModification), t.children), true)
    else if Find(t, Parent(target.path)).None? then (t, false)
    else (Insert(t, Parent(target.path), Added(target)), true)
  }

  /** `apply2` on any tree and trace: push below the node that the trace of the parent leads to, if there is one. */
  function Apply2On(t: Tree, tr: TreeTrace, target: Node): (Tree, TreeTrace, bool) {
    if target.path == [] then (Tree(target.(overlay := UpperModification), t.children), tr, true)
    else match FindTrace(tr, Parent(target.path), 0)
         case None => (t, tr, false)
         case Some(parent) =>
           match At(t, parent.treeNodePath)
           case None => (t, tr, false)
           case Some(parentTree) =>
             (PushAt(t, parent.treeNodePath, Added(target)),
              AddTrace(tr, target.path, |parentTree.children|, 0), true)
  }

  /** The target replaces the root by a directory, or is new below a directory of the tree. */
  ghost predicate Grows(t: Tree, target: Node) {
    if target.path == [] then target.IsDir() else Free(t, Parent(target.path), Added(target))
  }

  /** A tree and the trace that `apply2` searches instead of it. */
  class IndexedTree {
    var tree: Tree
    var trace: TreeTrace

    /** The trace is in step with a tree rooted at `/`. */
    ghost predicate InStep()
      reads this
    {
      StepOf(tree, trace)
    }

    /** A tree and a default trace, which is in step if the tree is a root only. */
    constructor (start: Tree)
      ensures tree == start && trace == TreeTrace([], [], map[])
      ensures start.node.path == [] && start.node.IsDir() && start.children == [] ==> InStep()
    {
      tree := start;
      trace := TreeTrace([], [], map[]);
    }

    /** `TreeTrace::find`. */
    method FindInTrace(name: Path) returns (r: Option<TreeTrace>)
      ensures r == FindTrace(trace, name, 0)
    {
      var tr := trace;
      for depth := 0 to |name|
        invariant FindTrace(trace, name, 0) == FindTrace(tr, name, depth)
      {
        if name[..depth + 1] in tr.children {
          tr := tr.children[name[..depth + 1]];
        } else {
          return None;
        }
      }
      r := Some(tr);
    }

    /** `Tree::apply2`, for any tree and trace; of those in step, the tree is specified without the trace. */
    method Apply2(target: Node) returns (applied: bool)
      modifies this
      ensures (tree, trace, applied) == Apply2On(old(tree), old(trace), target)
      ensures old(InStep()) ==>
                && (tree, applied) == Apply2Spec(old(tree), target)
                && (Grows(old(tree), target) || !applied ==> InStep())
    {
      hide Sync, Shaped, Grows, Apply2Spec, PushAt, At, Find, FindTrace, AddTrace;
      if InStep() { Apply2InStep(tree, trace, target); }
      if target.path == [] {
        tree := Tree(target.(overlay := UpperModification), tree.children);
        return true;
      }
      var parent := Parent(target.path);
      var parentTrace := FindInTrace(parent);
      if parentTrace.None? {
        return false;
      }
      var parentTree := At(tree, parentTrace.value.treeNodePath);
      if parentTree.None? {
        return false;
      }
      trace := AddTrace(trace, target.path, |parentTree.value.children|, 0);
      tree := PushAt(tree, parentTrace.value.treeNodePath, Added(target));
      return true;
    }
  }

  /** The trace is in step with a tree rooted at `/`. */
  ghost predicate StepOf(t: Tree, tr: TreeTrace) {
    t.node.path == [] && t.node.IsDir() && Shaped(t) && tr.treeNodePath == [] && Sync(tr, t)
  }

  /** In step, `apply2` pushes below the node at the parent's path, if there is one, and stays in step if the place was
      free. */
  lemma Apply2InStep(t: Tree, tr: TreeTrace, target: Node)
    requires StepOf(t, tr)
    ensures var (t', tr', applied) := Apply2On(t, tr, target);
            && (t', applied) == Apply2Spec(t, target)
            && (Grows(t, target) || !applied ==> StepOf(t', tr'))
  {
    hide Sync, Shaped, Free, Insert, PushAt, At, Find, FindTrace, AddTrace;
    if target.path == [] {
      RootReplaced(tr, t, Tree(target.(overlay := UpperModification), t.children));
    } else {
      var parent := Parent(target.path);
      var ip := TraceLeads(tr, t, parent, 0, Added(target));
      assert parent[0..] == parent && tr.treeNodePath + ip == ip;
      NothingElse(t, Added(target));
      if Free(t, parent, Added(target)) {
        assert Added(target).path[0..|target.path| - 1] == parent;
        SyncInsert(tr, t, Added(target), 0);
        InsertKeepsShape(t, parent, Added(target));
      }
    }
  }

  /** A free place has a parent in the tree, and inserting leaves the root alone. */
  lemma NothingElse(t: Tree, n: Node)
    requires n.path != []
    ensures Free(t, Parent(n.path), n) ==> Find(t, Parent(n.path)).Some?
    ensures Insert(t, Parent(n.path), n).node == t.node
  {
  }

  lemma RootReplaced(tr: TreeTrace, t: Tree, t': Tree)
    requires t'.children == t.children && t'.node.path == t.node.path == []
    ensures Sync(tr, t) ==> Sync(tr, t')
    ensures Shaped(t) && t'.node.IsDir() ==> Shaped(t')
  {
    if Sync(tr, t) {
      SyncParts(tr, t);
      forall i | 0 <= i < |t'.children|
        ensures SyncedAt(tr, t', i)
      {
        assert SyncedAt(tr, t, i);
      }
      forall p | p in tr.children
        ensures ChildPath(t', p)
      {
        assert ChildPath(t, p);
      }
      SyncWhole(tr, t');
    }
  }

  // ----- the fast insertion refines the recursive search -----

  /** `apply2` does what `apply` does exactly when the target is the root, has no parent in the tree, or is new below
      a directory. */
  lemma Apply2IsApply(t: Tree, target: Node)
    requires t.node.path == [] && t.node.IsDir() && Shaped(t)
    ensures Apply2Spec(t, target) == Apply(t, target)
            <==> target.path == [] || Find(t, Parent(target.path)).None? || Free(t, Parent(target.path), Added(target))
  {
    hide Shaped, Apply, Insert, Free, Find;
    if target.path == [] {
      RootApply(t, target);
    } else {
      var rel := Parent(target.path);
      assert Targets(t, rel, target);
      NothingElse(t, Added(target));
      if Find(t, rel).None? {
        ApplyWithoutParent(t, rel, target);
      } else if Free(t, rel, Added(target)) {
        ApplyInserts(t, rel, target);
      } else {
        ApplyOtherwise(t, rel, target);
        InsertSize(t, rel, Added(target));
      }
    }
  }

  lemma RootApply(t: Tree, target: Node)
    requires target.path == []
    ensures Apply(t, target) == (Tree(target.(overlay := UpperModification), t.children), true)
  {
  }

  /** The tree after inserting the nodes `ns` with `apply2`, from the first to the last. */
  function Grow(t: Tree, ns: seq<Node>): Tree {
    if ns == [] then t else Apply2Spec(Grow(t, ns[..|ns| - 1]), ns[|ns| - 1]).0
  }

  /** The same with `apply`. */
  function GrowSlowly(t: Tree, ns: seq<Node>): Tree {
    if ns == [] then t else Apply(GrowSlowly(t, ns[..|ns| - 1]), ns[|ns| - 1]).0
  }

  /** The `k`-th node is the root, or its parent is the root or an earlier directory and its path is new. */
  ghost predicate InOrder(ns: seq<Node>, k: nat)
    requires k < |ns|
  {
    if ns[k].path == [] then ns[k].IsDir()
    else
      && (Parent(ns[k].path) == [] || exists j :: 0 <= j < k && ns[j].path == Parent(ns[k].path) && ns[j].IsDir())
      && (forall j :: 0 <= j < k ==> ns[j].path != ns[k].path)
  }

  /** Parents come first, are directories, and no path but the root's comes twice. */
  ghost predicate ParentsFirst(ns: seq<Node>) {
    forall k :: 0 <= k < |ns| ==> InOrder(ns, k)
  }

  /** The tree holds exactly the nodes `ns`, besides the root. */
  ghost predicate HoldsExactly(t: Tree, ns: seq<Node>) {
    && t.node.path == [] && t.node.IsDir() && Shaped(t)
    && (forall k :: 0 <= k < |ns| && ns[k].path != [] ==> NodeAt(t, ns[k].path) == Some(Added(ns[k])))
    && (forall q :: q != [] && NodeAt(t, q).Some? ==> exists k :: 0 <= k < |ns| && ns[k].path == q)
  }

  lemma {:induction false} FindSnoc(t: Tree, p: Path, name: Name)
    ensures Find(t, p + [name])
            == match Find(t, p)
               case Some(s) =>
                 (match ChildNamed(s.children, name) case Some(i) => Some(s.children[i]) case None => None)
               case None => None
    decreases |p|
  {
    if p == [] {
      assert p + [name] == [name];
    } else {
      assert (p + [name])[1..] == p[1..] + [name];
      match ChildNamed(t.children, p[0]) {
        case Some(i) => FindSnoc(t.children[i], p[1..], name);
        case None =>
      }
    }
  }

  /** The parent of the next node of a list in order is a directory of the tree of those before it. */
  lemma NextHasParent(t: Tree, ns: seq<Node>, n: Node)
    requires HoldsExactly(t, ns) && InOrder(ns + [n], |ns|) && n.path != []
    ensures NodeAt(t, Parent(n.path)).Some? && NodeAt(t, Parent(n.path)).value.IsDir()
  {
    hide Shaped, Find;
    var all, parent := ns + [n], Parent(n.path);
    if parent == [] {
      FindRoot(t);
    } else {
      var j :| 0 <= j < |ns| && all[j].path == parent && all[j].IsDir();
      assert ns[j] == all[j];
    }
  }

  lemma NextIsNew(t: Tree, ns: seq<Node>, n: Node)
    requires HoldsExactly(t, ns) && InOrder(ns + [n], |ns|) && n.path != []
    ensures NodeAt(t, n.path).None?
  {
    hide Shaped, NodeAt, InOrder;
    if NodeAt(t, n.path).Some? {
      var k :| 0 <= k < |ns| && ns[k].path == n.path;
      InOrderIsNew(ns, n, k);
    }
  }

  lemma InOrderIsNew(ns: seq<Node>, n: Node, k: nat)
    requires InOrder(ns + [n], |ns|) && n.path != [] && k < |ns|
    ensures ns[k].path != n.path
  {
    assert (ns + [n])[k] == ns[k] && (ns + [n])[|ns|] == n;
  }

  /** The next node of a list in order grows the tree of those before it. */
  lemma NextGrows(t: Tree, ns: seq<Node>, n: Node)
    requires HoldsExactly(t, ns) && InOrder(ns + [n], |ns|)
    ensures Grows(t, n)
  {
    hide Shaped, Find, HoldsExactly;
    if n.path == [] {
      assert (ns + [n])[|ns|] == n;
    } else {
      var parent := Parent(n.path);
      NextHasParent(t, ns, n);
      NextIsNew(t, ns, n);
      HeldIsShaped(t, ns);
      FindPath(t, parent);
      FindSnoc(t, parent, n.Name());
      assert n.path == parent + [n.Name()];
    }
  }

  lemma HeldIsShaped(t: Tree, ns: seq<Node>)
    requires HoldsExactly(t, ns)
    ensures Shaped(t) && t.node.path == []
  {
  }

  lemma FindRoot(t: Tree)
    ensures Find(t, []) == Some(t)
  {
  }

  lemma HoldsMore(t: Tree, ns: seq<Node>, n: Node)
    requires HoldsExactly(t, ns) && Grows(t, n)
    ensures HoldsExactly(Apply2Spec(t, n).0, ns + [n])
  {
    hide Shaped, Insert, Find;
    var t', all := Apply2Spec(t, n).0, ns + [n];
    if n.path == [] {
      RootReplaced(TreeTrace([], [], map[]), t, t');
    } else {
      NothingElse(t, Added(n));
      InsertKeepsShape(t, Parent(n.path), Added(n));
      assert n.path == Parent(n.path) + [Added(n).Name()];
    }
    forall q | q != []
      ensures NodeAt(t', q) == if q == n.path then Some(Added(n)) else NodeAt(t, q)
    {
      if n.path == [] { NodeBelowRoot(t, t', q); } else { InsertAdds(t, Parent(n.path), Added(n), q); }
    }
    if n.path != [] { FreeIsAbsent(t, n); }
    forall k | 0 <= k < |all| && all[k].path != []
      ensures NodeAt(t', all[k].path) == Some(Added(all[k]))
    {
      assert k < |ns| ==> all[k] == ns[k] && NodeAt(t, ns[k].path) == Some(Added(ns[k]));
    }
    forall q | q != [] && NodeAt(t', q).Some?
      ensures exists k :: 0 <= k < |all| && all[k].path == q
    {
      if q == n.path {
        assert all[|ns|].path == q;
      } else {
        var k :| 0 <= k < |ns| && ns[k].path == q;
        assert all[k].path == q;
      }
    }
  }

  lemma FreeIsAbsent(t: Tree, n: Node)
    requires n.path != [] && Free(t, Parent(n.path), Added(n))
    ensures NodeAt(t, n.path) == None
  {
    FindSnoc(t, Parent(n.path), n.Name());
    assert n.path == Parent(n.path) + [n.Name()];
  }

  lemma NodeBelowRoot(t: Tree, t': Tree, q: Path)
    requires t'.children == t.children && q != []
    ensures NodeAt(t', q) == NodeAt(t, q)
  {
  }

  /** Inserting a list in order, from a root-only tree, drops nothing, adds nothing else, and builds the same tree
      quickly and slowly. */
  lemma {:induction false} GrowsExactly(root: Node, ns: seq<Node>)
    requires root.path == [] && root.IsDir() && ParentsFirst(ns)
    ensures HoldsExactly(Grow(Tree(root, []), ns), ns)
    ensures GrowSlowly(Tree(root, []), ns) == Grow(Tree(root, []), ns)
    ensures forall k :: 0 <= k < |ns| ==>
              Grows(Grow(Tree(root, []), ns[..k]), ns[k]) && Apply2Spec(Grow(Tree(root, []), ns[..k]), ns[k]).1
    decreases |ns|
  {
    hide Shaped, Apply, Apply2Spec, Grows, HoldsExactly;
    if ns == [] {
      HoldsNothing(root);
    } else {
      var front, n := ns[..|ns| - 1], ns[|ns| - 1];
      assert ns == front + [n];
      InOrderPrefix(front, n);
      GrowsExactly(root, front);
      var t := Grow(Tree(root, []), front);
      NextGrows(t, front, n);
      HoldsMore(t, front, n);
      GrowthAgrees(t, front, n);
      forall k | 0 <= k < |ns|
        ensures Grows(Grow(Tree(root, []), ns[..k]), ns[k]) && Apply2Spec(Grow(Tree(root, []), ns[..k]), ns[k]).1
      {
        assert k < |front| ==> ns[..k] == front[..k] && ns[k] == front[k];
      }
    }
  }

  lemma HoldsNothing(root: Node)
    requires root.path == [] && root.IsDir()
    ensures HoldsExactly(Tree(root, []), [])
  {
  }

  lemma InOrderPrefix(front: seq<Node>, n: Node)
    requires ParentsFirst(front + [n])
    ensures ParentsFirst(front) && InOrder(front + [n], |front|)
  {
    forall k | 0 <= k < |front|
      ensures InOrder(front, k)
    {
      assert InOrder(front + [n], k);
      assert forall j :: 0 <= j <= k ==> (front + [n])[j] == front[j];
    }
  }

  lemma GrowthAgrees(t: Tree, ns: seq<Node>, n: Node)
    requires HoldsExactly(t, ns) && Grows(t, n)
    ensures Apply2Spec(t, n) == Apply(t, n) && Apply2Spec(t, n).1
  {
    hide Shaped, Apply, Insert, Find;
    Apply2IsApply(t, n);
    if n.path != [] { NothingElse(t, Added(n)); }
  }
}
