/** Layered trees: how an upper layer's whiteout files, in the OCI form, remove nodes of the tree below. */
module Whiteouts {
  import opened Wrappers
  import opened Bytes
  import opened Utf8
  import opened Nodes
  import opened Trees
  import opened FastIndex

  /** `.wh.` */
  const PREFIX: Name := ['.' as int, 'w' as int, 'h' as int, '.' as int]

  /** `.wh..wh..opq` */
  const OPAQUE: Name := PREFIX + PREFIX + ['.' as int, 'o' as int, 'p' as int, 'q' as int]

  datatype WhiteoutType = OciOpaque | OciRemoval

  /** `Node::whiteout_type` under the OCI spec. */
  function WhiteoutOf(n: Node): Option<WhiteoutType> {
    if n.overlay == Lower || !ValidUtf8(n.Name()) then None
    else if n.Name() == OPAQUE then Some(OciOpaque)
    else if PREFIX <= n.Name() then Some(OciRemoval)
    else None
  }

  /** A node is a whiteout of the OCI form by its name, `.wh..wh..opq` or `.wh.` and more, if the name is UTF-8 and the
      node is not of the lower layer. */
  lemma WhiteoutIff(n: Node)
    ensures var name, whole := n.Name(), [46, 119, 104, 46, 46, 119, 104, 46, 46, 111, 112, 113];
            var named := n.overlay != Lower && ValidUtf8(name);
            && (WhiteoutOf(n) == Some(OciOpaque) <==> named && name == whole)
            && (WhiteoutOf(n) == Some(OciRemoval) <==>
                  named && name != whole && |name| >= 4 && name[..4] == [46, 119, 104, 46])
            && (WhiteoutOf(n) == Some(OciRemoval) ==> OriginName(n) == name[4..])
  {
    hide ValidUtf8;
    assert PREFIX == [46, 119, 104, 46];
    assert OPAQUE == [46, 119, 104, 46, 46, 119, 104, 46, 46, 111, 112, 113];
  }

  /** `Node::origin_name` of a removal. */
  function OriginName(n: Node): Name
    requires PREFIX <= n.Name()
  {
    n.Name()[|PREFIX|..]
  }

  /** Whether `remove` stops at node `n`: it is too deep, or off the target's path. */
  predicate OffPath(n: Node, target: Node) {
    |n.path| >= |target.path| || (n.path != [] && n.path[|n.path| - 1] != target.path[|n.path| - 1])
  }

  /** `Tree::remove`; the flag says whether something was removed. */
  function Remove(t: Tree, target: Node, kind: WhiteoutType): (Tree, bool)
    requires kind.OciRemoval? ==> PREFIX <= target.Name()
    decreases t, 0
  {
    if OffPath(t.node, target) then (t, false)
    else if t.node.path == [] && kind.OciOpaque? && |target.path| == 1 then
      (Tree(t.node.(overlay := UpperOpaque), []), true)
    else
      var (children, found) := RemoveKids(t.children, target, kind, |t.node.path|);
      (Tree(t.node, children), found)
  }

  /** The loop of `remove` over the children of a node `depth` components deep. */
  function RemoveKids(ts: seq<Tree>, target: Node, kind: WhiteoutType, depth: nat): (seq<Tree>, bool)
    requires kind.OciRemoval? ==> PREFIX <= target.Name()
    requires depth < |target.path|
    decreases ts, 1
  {
    if ts == [] then (ts, false)
    else if depth + 1 == |target.path| && kind.OciRemoval?
        && OriginName(target) == ts[0].node.Name() then (ts[1..], true)
    else if kind.OciOpaque? && depth + 2 == |target.path| && target.path[|target.path| - 2] == ts[0].node.Name() then
      ([Tree(ts[0].node.(overlay := UpperOpaque), [])] + ts[1..], true)
    else
      var (child, found) := if ts[0].node.IsDir() then Remove(ts[0], target, kind) else (ts[0], false);
      if found then ([child] + ts[1..], true)
      else
        var (rest, found') := RemoveKids(ts[1..], target, kind, depth);
        ([child] + rest, found')
  }

  /** What the loop makes of one child: what it leaves in its place, and whether the search ends there. */
  function Strike(c: Tree, target: Node, kind: WhiteoutType, depth: nat): (seq<Tree>, bool)
    requires kind.OciRemoval? ==> PREFIX <= target.Name()
    requires depth < |target.path|
  {
    if depth + 1 == |target.path| && kind.OciRemoval? && OriginName(target) == c.node.Name() then ([], true)
    else if kind.OciOpaque? && depth + 2 == |target.path| && target.path[|target.path| - 2] == c.node.Name() then
      ([Tree(c.node.(overlay := UpperOpaque), [])], true)
    else if c.node.IsDir() then ([Remove(c, target, kind).0], Remove(c, target, kind).1)
    else ([c], false)
  }

  lemma {:induction false} RemoveFailed(t: Tree, target: Node, kind: WhiteoutType)
    requires kind.OciRemoval? ==> PREFIX <= target.Name()
    requires !Remove(t, target, kind).1
    ensures Remove(t, target, kind).0 == t
    decreases t, 0
  {
    if !OffPath(t.node, target) { RemoveKidsFailed(t.children, target, kind, |t.node.path|); }
  }

  lemma {:induction false} RemoveKidsFailed(ts: seq<Tree>, target: Node, kind: WhiteoutType, depth: nat)
    requires kind.OciRemoval? ==> PREFIX <= target.Name()
    requires depth < |target.path|
    ensures !RemoveKids(ts, target, kind, depth).1 ==> RemoveKids(ts, target, kind, depth).0 == ts
    decreases ts, 1
  {
    if ts != [] {
      RemoveKidsFailed(ts[1..], target, kind, depth);
      if ts[0].node.IsDir() && !Remove(ts[0], target, kind).1 { RemoveFailed(ts[0], target, kind); }
    }
  }

  lemma FirstStrike(ts: seq<Tree>, target: Node, kind: WhiteoutType, depth: nat)
    requires kind.OciRemoval? ==> PREFIX <= target.Name()
    requires depth < |target.path| && ts != []
    ensures Strike(ts[0], target, kind, depth).1 ==>
              RemoveKids(ts, target, kind, depth) == (Strike(ts[0], target, kind, depth).0 + ts[1..], true)
    ensures !Strike(ts[0], target, kind, depth).1 ==>
              var (rest, found) := RemoveKids(ts[1..], target, kind, depth);
              RemoveKids(ts, target, kind, depth) == ([ts[0]] + rest, found)
  {
    hide Remove;
    assert [] + ts[1..] == ts[1..];
    if ts[0].node.IsDir() && !Remove(ts[0], target, kind).1 { RemoveFailed(ts[0], target, kind); }
  }

  /** Children that do not end the search stay; the first that does is replaced by what is left of it. */
  lemma {:induction false} RemoveKidsStrikes(ts: seq<Tree>, target: Node, kind: WhiteoutType, depth: nat, i: nat)
    requires kind.OciRemoval? ==> PREFIX <= target.Name()
    requires depth < |target.path| && i <= |ts|
    requires forall j :: 0 <= j < i ==> !Strike(ts[j], target, kind, depth).1
    ensures i == |ts| ==> RemoveKids(ts, target, kind, depth) == (ts, false)
    ensures i < |ts| && Strike(ts[i], target, kind, depth).1 ==>
              RemoveKids(ts, target, kind, depth) == (ts[..i] + Strike(ts[i], target, kind, depth).0 + ts[i + 1..],
                  true)
    decreases i
  {
    hide Strike, RemoveKids;
    if ts == [] {
      NoKids(target, kind, depth);
    } else {
      FirstStrike(ts, target, kind, depth);
      if i == 0 {
        assert ts[..0] + Strike(ts[0], target, kind, depth).0 + ts[1..]
                 == Strike(ts[0], target, kind, depth).0 + ts[1..];
      } else {
        forall j | 0 <= j < i - 1
          ensures !Strike(ts[1..][j], target, kind, depth).1
        {
          assert ts[1..][j] == ts[j + 1];
        }
        RemoveKidsStrikes(ts[1..], target, kind, depth, i - 1);
        assert ts == [ts[0]] + ts[1..];
        if i < |ts| {
          var s := Strike(ts[i], target, kind, depth).0;
          assert ts[..i] + s + ts[i + 1..] == [ts[0]] + (ts[1..][..i - 1] + s + ts[1..][i..]);
        }
      }
    }
  }

  lemma NoKids(target: Node, kind: WhiteoutType, depth: nat)
    requires kind.OciRemoval? ==> PREFIX <= target.Name()
    requires depth < |target.path|
    ensures RemoveKids([], target, kind, depth) == ([], false)
  {
  }

  /** `Tree::remove`, with its loop. */
  method RemoveNode(t: Tree, target: Node, kind: WhiteoutType) returns (t': Tree, removed: bool)
    requires kind.OciRemoval? ==> PREFIX <= target.Name()
    ensures (t', removed) == Remove(t, target, kind)
    decreases t
  {
    hide RemoveKids;
    if OffPath(t.node, target) {
      return t, false;
    }
    if t.node.path == [] && kind.OciOpaque? && |target.path| == 1 {
      return Tree(t.node.(overlay := UpperOpaque), []), true;
    }
    var children := t.children;
    var depth := |t.node.path|;
    for idx := 0 to |children|
      invariant children == t.children
      invariant forall j :: 0 <= j < idx ==> !Strike(t.children[j], target, kind, depth).1
    {
      var child := children[idx];
      RemoveKidsStrikes(t.children, target, kind, depth, idx);
      if depth + 1 == |target.path| && kind.OciRemoval? && OriginName(target) == child.node.Name() {
        children := children[..idx] + children[idx + 1..];
        assert t.children[..idx] + [] + t.children[idx + 1..] == children;
        return Tree(t.node, children), true;
      }
      if kind.OciOpaque? && depth + 2 == |target.path| && target.path[|target.path| - 2] == child.node.Name() {
        children := children[idx := Tree(child.node.(overlay := UpperOpaque), [])];
        assert t.children[..idx] + [children[idx]] + t.children[idx + 1..] == children;
        return Tree(t.node, children), true;
      }
      if child.node.IsDir() {
        var child', found := RemoveNode(child, target, kind);
        if found {
          children := children[idx := child'];
          assert t.children[..idx] + [children[idx]] + t.children[idx + 1..] == children;
          return Tree(t.node, children), true;
        }
      }
    }
    RemoveKidsStrikes(t.children, target, kind, depth, |t.children|);
    return Tree(t.node, children), false;
  }

  /** `Tree::apply` with whiteouts handled. */
  function ApplyLayer(t: Tree, target: Node): (Tree, bool) {
    match WhiteoutOf(target)
    case Some(kind) => Remove(t, target, kind)
    case None => Apply(t, target)
  }

  // ----- what a whiteout removes -----

  /** The path a removal names, below the directory at the path `d`. */
  function Struck(d: Path, target: Node): Path
    requires PREFIX <= target.Name()
  {
    d + [OriginName(target)]
  }

  predicate IsPrefix(p: Path, q: Path) {
    |p| <= |q| && p == q[..|p|]
  }

  /** `ts` without its `i`-th tree. */
  function Drop(ts: seq<Tree>, i: nat): (us: seq<Tree>)
    requires i < |ts|
    ensures |us| == |ts| - 1
    ensures forall j :: 0 <= j < |us| ==> us[j] == if j < i then ts[j] else ts[j + 1]
  {
    ts[..i] + ts[i + 1..]
  }

  lemma DropIsDistinct(ts: seq<Tree>, i: nat)
    requires DistinctNames(ts) && i < |ts|
    ensures DistinctNames(Drop(ts, i))
  {
  }

  lemma ChildNamedDrop(ts: seq<Tree>, i: nat, name: Name)
    requires DistinctNames(ts) && i < |ts|
    ensures name == ts[i].node.Name() ==> ChildNamed(Drop(ts, i), name).None?
    ensures name != ts[i].node.Name() ==>
              match ChildNamed(ts, name)
              case Some(k) => ChildNamed(Drop(ts, i), name).Some?
                  && Drop(ts, i)[ChildNamed(Drop(ts, i), name).value] == ts[k]
              case None => ChildNamed(Drop(ts, i), name).None?
  {
    hide ChildNamed, DistinctNames;
    var us := Drop(ts, i);
    DropIsDistinct(ts, i);
    DropNames(ts, i);
    SearchEnds(ts, name);
    SearchEnds(us, name);
    match ChildNamed(ts, name) {
      case Some(k) => if k != i { ChildNamedIs(us, if k < i then k else k - 1); }
      case None =>
    }
  }

  lemma SearchEnds(ts: seq<Tree>, name: Name)
    ensures match ChildNamed(ts, name)
            case Some(k) => k < |ts| && ts[k].node.Name() == name
            case None => forall j :: 0 <= j < |ts| ==> ts[j].node.Name() != name
  {
  }

  lemma DropNames(ts: seq<Tree>, i: nat)
    requires DistinctNames(ts) && i < |ts|
    ensures forall j :: 0 <= j < |ts| - 1 ==> Drop(ts, i)[j].node.Name() != ts[i].node.Name()
  {
  }

  /** Only the child with the next name on the target's path can end the search. */
  lemma OthersStay(t: Tree, target: Node, kind: WhiteoutType, name: Name, i: nat)
    requires kind.OciRemoval? ==> PREFIX <= target.Name()
    requires Shaped(t) && |t.node.path| < |target.path| && i <= |t.children|
    requires i < |t.children| ==> t.children[i].node.Name() == name
    requires i == |t.children| ==> ChildNamed(t.children, name) == None
    requires if kind.OciRemoval? && |t.node.path| + 1 == |target.path| then name == OriginName(target)
             else name == target.path[|t.node.path|] && |t.node.path| + 2 <= |target.path|
    ensures forall j :: 0 <= j < |t.children| && j != i ==> !Strike(t.children[j], target, kind, |t.node.path|).1
  {
    hide RemoveKids;
    forall j | 0 <= j < |t.children| && j != i
      ensures !Strike(t.children[j], target, kind, |t.node.path|).1
    {
      assert t.children[j].node.path == t.node.path + [t.children[j].node.Name()];
      assert t.children[j].node.Name() != name;
    }
  }

  /** Applying `.wh.x` removes the node `x` beside it and everything below, and nothing else; it reports a removal
      exactly when there was such a node. */
  lemma {:induction false} RemovalRemoves(t: Tree, d: Path, target: Node, q: Path)
    requires Shaped(t) && Targets(t, d, target) && PREFIX <= target.Name()
    ensures var (t', removed) := Remove(t, target, OciRemoval);
            && NodeAt(t', q) == (if IsPrefix(Struck(d, target), q) then None else NodeAt(t, q))
            && (removed <==> NodeAt(t, Struck(d, target)).Some?)
            && Shaped(t') && t'.node == t.node
    decreases |d|
  {
    hide Shaped, Remove, Find, IsPrefix;
    var name := if d == [] then OriginName(target) else d[0];
    assert target.path[..|t.node.path|] == t.node.path;
    match ChildNamed(t.children, name) {
      case None =>
        OthersStay(t, target, OciRemoval, name, |t.children|);
        RemovalMisses(t, d, target, q);
      case Some(i) =>
        OthersStay(t, target, OciRemoval, name, i);
        if d == [] { RemovalHere(t, target, q, i); } else { RemovalBelow(t, d, target, q, i); }
    }
  }

  lemma RemovalMisses(t: Tree, d: Path, target: Node, q: Path)
    requires Shaped(t) && Targets(t, d, target) && PREFIX <= target.Name()
    requires ChildNamed(t.children, if d == [] then OriginName(target) else d[0]).None?
    requires forall j :: 0 <= j < |t.children| ==> !Strike(t.children[j], target, OciRemoval, |t.node.path|).1
    ensures Remove(t, target, OciRemoval) == (t, false)
    ensures NodeAt(t, Struck(d, target)).None? && (IsPrefix(Struck(d, target), q) ==> NodeAt(t, q).None?)
  {
    hide Shaped, RemoveKids, Find, IsPrefix;
    RemoveKidsStrikes(t.children, target, OciRemoval, |t.node.path|, |t.children|);
    AbsentBelow(t, Struck(d, target), q);
  }

  lemma RemovalHere(t: Tree, target: Node, q: Path, i: nat)
    requires Shaped(t) && Targets(t, [], target) && PREFIX <= target.Name()
    requires i < |t.children| && t.children[i].node.Name() == OriginName(target)
    requires forall j :: 0 <= j < |t.children| && j != i ==> !Strike(t.children[j], target, OciRemoval, |t.node.path|).1
    ensures var (t', removed) := Remove(t, target, OciRemoval);
            && removed && NodeAt(t', q) == (if IsPrefix(Struck([], target), q) then None else NodeAt(t, q))
            && NodeAt(t, Struck([], target)).Some?
            && Shaped(t') && t'.node == t.node
  {
    hide Shaped, RemoveKids, Find, IsPrefix;
    RemoveKidsStrikes(t.children, target, OciRemoval, |t.node.path|, i);
    assert t.children[..i] + [] + t.children[i + 1..] == Drop(t.children, i);
    assert Struck([], target) == [t.children[i].node.Name()];
    DropChild(t, i, q);
  }

  /** If the first component is no child, nothing at or below the path exists. */
  lemma AbsentBelow(t: Tree, w: Path, q: Path)
    requires w != [] && ChildNamed(t.children, w[0]).None?
    ensures NodeAt(t, w).None?
    ensures IsPrefix(w, q) ==> NodeAt(t, q).None?
  {
  }

  lemma ShapedDrop(t: Tree, i: nat)
    requires Shaped(t) && i < |t.children|
    ensures Shaped(Tree(t.node, Drop(t.children, i))) && DistinctNames(t.children)
  {
    DropIsDistinct(t.children, i);
  }

  lemma DropChild(t: Tree, i: nat, q: Path)
    requires Shaped(t) && i < |t.children|
    ensures var t' := Tree(t.node, Drop(t.children, i));
            var w := [t.children[i].node.Name()];
            && Shaped(t') && NodeAt(t', q) == (if IsPrefix(w, q) then None else NodeAt(t, q))
            && NodeAt(t, w).Some?
  {
    hide Shaped;
    ShapedDrop(t, i);
    ChildNamedIs(t.children, i);
    NodeStep(t, i, [t.children[i].node.Name()]);
    ChildNamedDrop(t.children, i, if q != [] then q[0] else []);
  }

  lemma EmptyPrefix(w: Path, q: Path)
    requires w == []
    ensures IsPrefix(w, q)
  {
  }

  lemma PrefixCons(a: Name, w: Path, q: Path)
    ensures IsPrefix([a] + w, q) <==> q != [] && q[0] == a && IsPrefix(w, q[1..])
  {
    if q != [] {
      assert q == [q[0]] + q[1..];
      if |w| < |q| { assert q[..|w| + 1] == [q[0]] + q[1..][..|w|]; }
    }
  }

  /** A child replaced under the same path changes only what is at and below it. */
  lemma ReplaceChild(t: Tree, i: nat, c: Tree, q: Path)
    requires Shaped(t) && i < |t.children| && Shaped(c) && c.node.path == t.children[i].node.path
    ensures var t' := Tree(t.node, t.children[i := c]);
            && Shaped(t')
            && NodeAt(t', q) == (if q != [] && q[0] == c.node.Name() then NodeAt(c, q[1..]) else NodeAt(t, q))
  {
    assert c.node.Name() == t.children[i].node.Name();
    if q != [] {
      ChildNamedSame(t.children, i, c, q[0]);
      ChildNamedIs(t.children, i);
    }
  }

  lemma NodeStep(t: Tree, i: nat, q: Path)
    requires q != [] && ChildNamed(t.children, q[0]) == Some(i)
    ensures NodeAt(t, q) == NodeAt(t.children[i], q[1..])
  {
  }

  lemma InnerIsDir(t: Tree, w: Path)
    requires Shaped(t) && NodeAt(t, w).Some? && w != []
    ensures t.node.IsDir()
  {
    hide NodeAt;
    if t.children == [] { NothingBelow(t, w); }
  }

  lemma NothingBelow(t: Tree, w: Path)
    requires t.children == [] && w != []
    ensures NodeAt(t, w).None?
  {
  }

  /** Nothing exists below a child that is no directory. */
  lemma LeafBelow(t: Tree, i: nat, w: Path, q: Path)
    requires Shaped(t) && |w| >= 2 && ChildNamed(t.children, w[0]) == Some(i) && !t.children[i].node.IsDir()
    ensures NodeAt(t, w).None?
    ensures IsPrefix(w, q) ==> NodeAt(t, q).None?
  {
    hide NodeAt;
    ShapedChild(t, i);
    ShapedLeaf(t.children[i]);
    NodeStep(t, i, w);
    NothingBelow(t.children[i], w[1..]);
    if IsPrefix(w, q) {
      NodeStep(t, i, q);
      NothingBelow(t.children[i], q[1..]);
    }
  }

  lemma ShapedLeaf(t: Tree)
    requires Shaped(t) && !t.node.IsDir()
    ensures t.children == []
  {
  }

  /** Below the child on the target's path, the removal is the child's. */
  lemma RemoveThrough(t: Tree, d: Path, target: Node, kind: WhiteoutType, i: nat)
    requires kind.OciRemoval? ==> PREFIX <= target.Name()
    requires Targets(t, d, target) && |d| >= (if kind.OciRemoval? then 1 else 2)
    requires ChildNamed(t.children, d[0]) == Some(i) && t.children[i].node.path == t.node.path + [d[0]]
    requires forall j :: 0 <= j < |t.children| && j != i ==> !Strike(t.children[j], target, kind, |t.node.path|).1
    ensures var c := t.children[i];
            Remove(t, target, kind) == if c.node.IsDir() && Remove(c, target, kind).1
                                       then (Tree(t.node, t.children[i := Remove(c, target, kind).0]), true)
                                       else (t, false)
  {
    hide Strike, Remove, RemoveKids, Targets, ChildNamed;
    var c := t.children[i];
    var struck := c.node.IsDir() && Remove(c, target, kind).1;
    RemoveUnfold(t, d, target, kind);
    StrikeBelow(t, d, target, kind, c);
    NotOffPath(t, d, target);
    RemoveKidsStrikes(t.children, target, kind, |t.node.path|, if struck then i else |t.children|);
    if struck {
      assert t.children[..i] + [Remove(c, target, kind).0] + t.children[i + 1..]
             == t.children[i := Remove(c, target, kind).0];
    }
  }

  lemma RemoveUnfold(t: Tree, d: Path, target: Node, kind: WhiteoutType)
    requires kind.OciRemoval? ==> PREFIX <= target.Name()
    requires Targets(t, d, target) && |d| >= (if kind.OciRemoval? then 0 else 1)
    ensures var (children, found) := RemoveKids(t.children, target, kind, |t.node.path|);
            Remove(t, target, kind) == (Tree(t.node, children), found)
  {
    hide RemoveKids, OffPath;
    NotOffPath(t, d, target);
  }

  lemma StrikeBelow(t: Tree, d: Path, target: Node, kind: WhiteoutType, c: Tree)
    requires kind.OciRemoval? ==> PREFIX <= target.Name()
    requires Targets(t, d, target) && |d| >= (if kind.OciRemoval? then 1 else 2)
    ensures Strike(c, target, kind, |t.node.path|)
            == if c.node.IsDir() then ([Remove(c, target, kind).0], Remove(c, target, kind).1) else ([c], false)
  {
    hide Remove;
  }

  lemma NotOffPath(t: Tree, d: Path, target: Node)
    requires Targets(t, d, target)
    ensures !OffPath(t.node, target) && |t.node.path| < |target.path|
  {
    if t.node.path != [] { assert target.path[|t.node.path| - 1] == t.node.path[|t.node.path| - 1]; }
  }

  lemma {:induction false} RemovalBelow(t: Tree, d: Path, target: Node, q: Path, i: nat)
    requires Shaped(t) && Targets(t, d, target) && PREFIX <= target.Name() && d != []
    requires ChildNamed(t.children, d[0]) == Some(i)
    requires forall j :: 0 <= j < |t.children| && j != i ==> !Strike(t.children[j], target, OciRemoval, |t.node.path|).1
    ensures var (t', removed) := Remove(t, target, OciRemoval);
            && NodeAt(t', q) == (if IsPrefix(Struck(d, target), q) then None else NodeAt(t, q))
            && (removed <==> NodeAt(t, Struck(d, target)).Some?)
            && Shaped(t') && t'.node == t.node
    decreases |d|, 0
  {
    hide Shaped, Remove, Strike, Find, IsPrefix;
    var c := t.children[i];
    ShapedChild(t, i);
    RemoveThrough(t, d, target, OciRemoval, i);
    assert d == [d[0]] + d[1..];
    assert Struck(d, target) == [d[0]] + Struck(d[1..], target);
    NodeStep(t, i, Struck(d, target));
    if q != [] && q[0] == d[0] { NodeStep(t, i, q); }
    if c.node.IsDir() {
      RemovalRemoves(c, d[1..], target, if q == [] then [] else q[1..]);
      if Remove(c, target, OciRemoval).1 {
        ReplaceChild(t, i, Remove(c, target, OciRemoval).0, q);
      } else {
        RemoveFailed(c, target, OciRemoval);
      }
      PrefixCons(d[0], Struck(d[1..], target), q);
    } else {
      PrefixCons(d[0], Struck(d[1..], target), q);
      LeafBelow(t, i, Struck(d, target), q);
    }
  }

  /** Applying `.wh..wh..opq` in a directory marks it opaque and removes everything below it, and nothing else; without
      the directory nothing happens. */
  lemma {:induction false} OpaqueClears(t: Tree, d: Path, target: Node, q: Path)
    requires Shaped(t) && Targets(t, d, target)
    requires d == [] ==> t.node.path == []
    ensures var (t', removed) := Remove(t, target, OciOpaque);
            && (removed <==> NodeAt(t, d).Some?)
            && NodeAt(t', q) == (if !removed then NodeAt(t, q)
                                 else if q == d then Some(NodeAt(t, d).value.(overlay := UpperOpaque))
                                 else if IsPrefix(d, q) then None
                                 else NodeAt(t, q))
            && Shaped(t') && t'.node.path == t.node.path
    decreases |d|
  {
    hide Shaped, RemoveKids, WhiteoutOf;
    var depth := |t.node.path|;
    if d == [] {
      Emptied(t, q);
    } else {
      ShapedNames(t);
      assert target.path[..depth] == t.node.path;
      match ChildNamed(t.children, d[0]) {
        case None =>
          OthersStay(t, target, OciOpaque, d[0], |t.children|);
          RemoveKidsStrikes(t.children, target, OciOpaque, depth, |t.children|);
          AbsentBelow(t, d, q);
        case Some(i) =>
          OthersStay(t, target, OciOpaque, d[0], i);
          OpaqueBelow(t, d, target, q, i);
      }
    }
  }

  lemma Emptied(t: Tree, q: Path)
    requires Shaped(t)
    ensures var t' := Tree(t.node.(overlay := UpperOpaque), []);
            && Shaped(t')
            && NodeAt(t', q) == (if q == [] then Some(t.node.(overlay := UpperOpaque)) else None)
  {
  }

  /** The directory itself, as a child. */
  lemma OpaqueHere(t: Tree, d: Path, target: Node, q: Path, i: nat)
    requires Shaped(t) && Targets(t, d, target) && |d| == 1
    requires ChildNamed(t.children, d[0]) == Some(i)
    requires forall j :: 0 <= j < |t.children| && j != i ==> !Strike(t.children[j], target, OciOpaque, |t.node.path|).1
    ensures var (t', removed) := Remove(t, target, OciOpaque);
            && removed && NodeAt(t, d) == Some(t.children[i].node)
            && NodeAt(t', q) == (if q == d then Some(t.children[i].node.(overlay := UpperOpaque))
                                 else if IsPrefix(d, q) then None
                                 else NodeAt(t, q))
            && Shaped(t') && t'.node.path == t.node.path
  {
    hide Shaped, RemoveKids, Find, IsPrefix;
    var c := t.children[i];
    var c' := Tree(c.node.(overlay := UpperOpaque), []);
    var below := if q == [] then [] else q[1..];
    ShapedChild(t, i);
    assert d == [d[0]] + d[1..];
    PrefixCons(d[0], d[1..], q);
    assert q != [] ==> q == [q[0]] + q[1..];
    NodeStep(t, i, d);
    RemoveKidsStrikes(t.children, target, OciOpaque, |t.node.path|, i);
    assert t.children[..i] + [c'] + t.children[i + 1..] == t.children[i := c'];
    Emptied(c, below);
    ReplaceChild(t, i, c', q);
    assert NodeAt(c, []) == Some(c.node) by { FindRoot(c); }
    EmptyPrefix(d[1..], below);
  }

  lemma {:induction false} OpaqueBelow(t: Tree, d: Path, target: Node, q: Path, i: nat)
    requires Shaped(t) && Targets(t, d, target) && d != []
    requires ChildNamed(t.children, d[0]) == Some(i)
    requires forall j :: 0 <= j < |t.children| && j != i ==> !Strike(t.children[j], target, OciOpaque, |t.node.path|).1
    ensures var (t', removed) := Remove(t, target, OciOpaque);
            && (removed <==> NodeAt(t, d).Some?)
            && NodeAt(t', q) == (if !removed then NodeAt(t, q)
                                 else if q == d then Some(NodeAt(t, d).value.(overlay := UpperOpaque))
                                 else if IsPrefix(d, q) then None
                                 else NodeAt(t, q))
            && Shaped(t') && t'.node.path == t.node.path
    decreases |d|, 0
  {
    hide Shaped, Remove, Strike, Find, IsPrefix;
    var c := t.children[i];
    ShapedChild(t, i);
    if |d| >= 2 { RemoveThrough(t, d, target, OciOpaque, i); }
    assert d == [d[0]] + d[1..];
    PrefixCons(d[0], d[1..], q);
    assert q != [] ==> q == [q[0]] + q[1..];
    NodeStep(t, i, d);
    if q != [] && q[0] == d[0] { NodeStep(t, i, q); }
    if |d| == 1 {
      OpaqueHere(t, d, target, q, i);
    } else if c.node.IsDir() {
      OpaqueClears(c, d[1..], target, if q == [] then [] else q[1..]);
      if Remove(c, target, OciOpaque).1 {
        ReplaceChild(t, i, Remove(c, target, OciOpaque).0, q);
      } else {
        RemoveFailed(c, target, OciOpaque);
      }
    } else {
      LeafBelow(t, i, d, q);
    }
  }

  // ----- one upper-layer file applied to the tree below -----

  /** Applying a node whose path is taken replaces that node and no other; its children stay, so the result keeps the
      shape exactly when the new node is a directory or the old one was empty. */
  lemma {:induction false} ApplyReplaces(t: Tree, d: Path, target: Node, q: Path)
    requires Shaped(t) && Targets(t, d, target) && NodeAt(t, d + [target.Name()]).Some?
    ensures var (t', applied) := Apply(t, target);
            && applied && t'.node == t.node
            && NodeAt(t', q) == (if q == d + [target.Name()] then Some(target.(overlay := UpperModification))
                else NodeAt(t, q))
            && (Shaped(t') <==> target.IsDir() || Find(t, d + [target.Name()]).value.children == [])
    decreases |d|
  {
    hide Shaped, ApplyKids, IsPrefix;
    var depth := |t.node.path|;
    var w := d + [target.Name()];
    var i := ChildNamed(t.children, w[0]).value;
    var c := t.children[i];
    ShapedChild(t, i);
    assert w == [w[0]] + w[1..] && (q != [] ==> q == [q[0]] + q[1..]);
    OthersMiss(t, target, depth, i);
    NodeStep(t, i, w);
    if d == [] {
      ApplyKidsVisits(t.children, target, depth, i);
      ReplaceNode(t, i, target.(overlay := UpperModification), q);
    } else {
      assert d == [d[0]] + d[1..] && w[1..] == d[1..] + [target.Name()];
      InnerIsDir(c, w[1..]);
      ApplyReplaces(c, d[1..], target, if q == [] then [] else q[1..]);
      ApplyKidsVisits(t.children, target, depth, i);
      ReplaceChildNode(t, i, Apply(c, target).0, q);
    }
  }

  /** A child with another node of the same path, and the same children. */
  lemma ReplaceNode(t: Tree, i: nat, n: Node, q: Path)
    requires Shaped(t) && i < |t.children| && n.path == t.children[i].node.path
    ensures var t' := Tree(t.node, t.children[i := Tree(n, t.children[i].children)]);
            && NodeAt(t', q) == (if q == [n.Name()] then Some(n) else NodeAt(t, q))
            && (Shaped(t') <==> n.IsDir() || t.children[i].children == [])
            && Find(t, [n.Name()]) == Some(t.children[i])
  {
    hide Shaped;
    var c := Tree(n, t.children[i].children);
    ShapedChild(t, i);
    ReplaceChildNode(t, i, c, q);
    ChildNamedIs(t.children, i);
    assert n.Name() == t.children[i].node.Name();
    if q != [] && q[0] == n.Name() {
      assert q == [n.Name()] + q[1..];
      NodeStep(t, i, q);
      SameBelow(t.children[i], c, q[1..]);
    }
    SameShape(t.children[i], c);
  }

  lemma SameBelow(t: Tree, t': Tree, q: Path)
    requires t'.children == t.children
    ensures NodeAt(t', q) == if q == [] then Some(t'.node) else NodeAt(t, q)
  {
  }

  lemma SameShape(t: Tree, t': Tree)
    requires Shaped(t) && t'.children == t.children && t'.node.path == t.node.path
    ensures Shaped(t') <==> t'.node.IsDir() || t.children == []
  {
  }

  lemma ReplaceChildNode(t: Tree, i: nat, c: Tree, q: Path)
    requires Shaped(t) && i < |t.children| && c.node.path == t.children[i].node.path
    ensures var t' := Tree(t.node, t.children[i := c]);
            && NodeAt(t', q) == (if q != [] && q[0] == c.node.Name() then NodeAt(c, q[1..]) else NodeAt(t, q))
            && (Shaped(t') <==> Shaped(c))
  {
    hide Shaped;
    ShapedChild(t, i);
    ReplaceShape(t, i, c);
    assert c.node.Name() == t.children[i].node.Name();
    if q != [] {
      ChildNamedSame(t.children, i, c, q[0]);
      ChildNamedIs(t.children, i);
    }
  }

  lemma ReplaceShape(t: Tree, i: nat, c: Tree)
    requires Shaped(t) && i < |t.children| && c.node.path == t.children[i].node.path
    ensures Shaped(Tree(t.node, t.children[i := c])) <==> Shaped(c)
  {
    var t' := Tree(t.node, t.children[i := c]);
    assert forall j :: 0 <= j < |t.children| ==> t'.children[j].node.Name() == t.children[j].node.Name();
    assert Shaped(t') ==> Shaped(t'.children[i]);
  }

  /** What applying one file of an upper layer to a rooted tree does to the node at any path `q`. */
  ghost function Layered(t: Tree, target: Node, q: Path): Option<Node>
    requires target.path != []
  {
    var d := Parent(target.path);
    match WhiteoutOf(target)
    case Some(OciRemoval) => if IsPrefix(Struck(d, target), q) then None else NodeAt(t, q)
    case Some(OciOpaque) =>
      if NodeAt(t, d).None? || !IsPrefix(d, q) then NodeAt(t, q)
      else if q == d then Some(NodeAt(t, d).value.(overlay := UpperOpaque))
      else None
    case None =>
      if q != target.path then NodeAt(t, q)
      else if NodeAt(t, q).Some? then Some(target.(overlay := UpperModification))
      else Some(Added(target))
  }

  /** Applying a whiteout, or a file whose parent is a directory of the tree, changes exactly those nodes. */
  lemma LayerIsApplied(t: Tree, target: Node, q: Path)
    requires Shaped(t) && t.node.path == [] && target.path != []
    requires WhiteoutOf(target).None? ==>
               NodeAt(t, Parent(target.path)).Some? && NodeAt(t, Parent(target.path)).value.IsDir()
    ensures NodeAt(ApplyLayer(t, target).0, q) == Layered(t, target, q)
  {
    hide Shaped, Apply, Remove, Find, IsPrefix;
    var d := Parent(target.path);
    assert Targets(t, d, target);
    match WhiteoutOf(target) {
      case Some(OciRemoval) => RemovalRemoves(t, d, target, q);
      case Some(OciOpaque) =>
        OpaqueClears(t, d, target, q);
        assert IsPrefix(d, d) by { EqualIsPrefix(d); }
      case None =>
        assert target.path == d + [target.Name()];
        if NodeAt(t, target.path).Some? {
          ApplyReplaces(t, d, target, q);
        } else {
          FindPath(t, d);
          FindSnoc(t, d, target.Name());
          ApplyInserts(t, d, target);
          InsertAdds(t, d, Added(target), q);
        }
    }
  }

  lemma EqualIsPrefix(d: Path)
    ensures IsPrefix(d, d)
  {
  }
}
