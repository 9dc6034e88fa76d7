/** What both image builders do to the inode array, apart from their numbering of hard links: place the children of a
    directory side by side, then flatten its directories. `split` says whether the builder is `Bootstrap`, which numbers
    the files itself and re-splits large ones. */
module Flattening {
  import opened Bytes
  import opened Nodes
  import opened Trees
  import opened Flatten

  ghost predicate HasIndex(n: Node, i: nat) {
    n.index == i + 1 && n.inode.ino == i + 1
  }

  /** The record of a child placed at the 1-based `index`. */
  function Placed(n: Node, index: nat, parentIno: nat, split: bool): Node {
    var placed := n.(index := index, inode := n.inode.(parent := parentIno, ino := index, nlink := 1));
    if split then Resplit(placed.(realIno := index)) else placed
  }

  /** The records of children placed side by side after `base` others. */
  function Records(ts: seq<Tree>, base: nat, parentIno: nat, split: bool): (r: seq<Node>)
    ensures |r| == |ts|
  {
    seq(|ts|, i requires 0 <= i < |ts| => Placed(ts[i].node, base + i + 1, parentIno, split))
  }

  /** The directories among those children, with their records. */
  function PlacedDirs(ts: seq<Tree>, base: nat, parentIno: nat, split: bool): seq<Tree> {
    if ts == [] then []
    else
      var last := ts[|ts| - 1];
      PlacedDirs(ts[..|ts| - 1], base, parentIno, split)
      + if last.node.IsDir() then [Tree(Placed(last.node, base + |ts|, parentIno, split), last.children)] else []
  }

  /** One more child placed. */
  lemma PlacedNext(ts: seq<Tree>, i: nat, base: nat, parentIno: nat, split: bool)
    requires i < |ts|
    ensures var n, all := Placed(ts[i].node, base + i + 1, parentIno, split), Records(ts, base, parentIno, split);
            && |all| == |ts| && all[..i + 1] == all[..i] + [n] && n.IsDir() == ts[i].node.IsDir()
            && PlacedDirs(ts[..i + 1], base, parentIno, split)
               == PlacedDirs(ts[..i], base, parentIno, split) + if n.IsDir() then [Tree(n, ts[i].children)] else []
  {
    hide Resplit;
    PlacedKind(ts[i].node, base + i + 1, parentIno, split);
    assert ts[..i + 1][..i] == ts[..i];
  }

  lemma PlacedKind(n: Node, index: nat, parentIno: nat, split: bool)
    ensures Placed(n, index, parentIno, split).IsDir() == n.IsDir()
  {
  }

  lemma PlacedAll(ts: seq<Tree>, base: nat, parentIno: nat, split: bool)
    ensures |Records(ts, base, parentIno, split)| == |ts| && ts[..|ts|] == ts
    ensures Records(ts, base, parentIno, split)[..|ts|] == Records(ts, base, parentIno, split)
    ensures Records(ts, base, parentIno, split)[..0] == [] && PlacedDirs(ts[..0], base, parentIno, split) == []
  {
    hide Placed;
  }

  function WithRange(n: Node, childIndex: Word, childCount: nat): Node {
    n.(inode := n.inode.(childIndex := childIndex, childCount := childCount))
  }

  function WithLinks(n: Node, nlink: nat): Node {
    n.(inode := n.inode.(nlink := nlink))
  }

  /** A placed node comes after its parent, and a non-directory has one link. */
  ghost predicate BuiltNode(n: Node, i: nat) {
    && HasIndex(n, i)
    && n.inode.parent <= i
    && n.inode.nlink >= 1
    && (!n.IsDir() ==> n.inode.nlink == 1)
  }

  ghost predicate SameFileAndNumber(m: Node, n: Node) {
    FileOf(m) == FileOf(n) && m.index == n.index && m.realIno == n.realIno && m.dev == n.dev && m.overlay == n.overlay
  }

  /** The same record but for its child range and link count, which stays positive. */
  ghost predicate SameButChildren(m: Node, n: Node) {
    && (m.inode.nlink >= 1 ==> n.inode.nlink >= 1)
    && m == n.(inode := n.inode.(
         childIndex := m.inode.childIndex, childCount := m.inode.childCount, nlink := m.inode.nlink))
  }

  // ----- the directories between the two loops -----

  lemma {:induction false} CanonAllSnoc(ts: seq<Tree>, t: Tree, split: bool)
    ensures CanonAll(ts + [t], split) == CanonAll(ts, split) + [Canon(t, split)]
  {
    if ts == [] {
      assert [t][1..] == [];
      assert CanonAll([t], split) == [Canon(t, split)] + CanonAll([t][1..], split);
      assert ts + [t] == [t];
    } else {
      assert (ts + [t])[1..] == ts[1..] + [t];
      CanonAllSnoc(ts[1..], t, split);
    }
  }

  function BlockOf(d: Tree, split: bool): Block {
    Block(if d.node.index >= 1 then d.node.index - 1 else 0, Canon(d, split))
  }

  function Blocks(ds: seq<Tree>, split: bool): (bs: seq<Block>)
    ensures |bs| == |ds|
  {
    seq(|ds|, i requires 0 <= i < |ds| => BlockOf(ds[i], split))
  }

  /** Every placed directory comes from one child, at that child's position. */
  lemma {:induction false} PlacedDirFrom(ts: seq<Tree>, base: nat, parentIno: nat, m: nat, split: bool) returns (i: nat)
    requires m < |PlacedDirs(ts, base, parentIno, split)|
    ensures i < |ts| && ts[i].node.IsDir()
    ensures PlacedDirs(ts, base, parentIno, split)[m]
              == Tree(Placed(ts[i].node, base + i + 1, parentIno, split), ts[i].children)
    ensures forall m' :: 0 <= m' < m ==> PlacedDirs(ts, base, parentIno, split)[m'].node.index < base + i + 1
  {
    var front := PlacedDirs(ts[..|ts| - 1], base, parentIno, split);
    if m < |front| {
      i := PlacedDirFrom(ts[..|ts| - 1], base, parentIno, m, split);
    } else {
      i := |ts| - 1;
      forall m' | 0 <= m' < m
        ensures PlacedDirs(ts, base, parentIno, split)[m'].node.index < base + i + 1
      {
        var i' := PlacedDirFrom(ts[..|ts| - 1], base, parentIno, m', split);
      }
    }
  }

  lemma CanonKind(t: Tree, split: bool)
    ensures Canon(t, split).file.kind == t.node.inode.kind
  {
    hide SortByName, CanonAll;
  }

  lemma CanonOfPlaced(t: Tree, index: nat, parentIno: nat, split: bool)
    requires t.node.IsDir()
    ensures Canon(Tree(Placed(t.node, index, parentIno, split), t.children), split) == Canon(t, split)
  {
    hide SortByName, CanonAll;
  }

  lemma {:induction false} PlacedDirsAreBlocks(ts: seq<Tree>, base: nat, parentIno: nat, split: bool)
    ensures Blocks(PlacedDirs(ts, base, parentIno, split), split) == DirBlocks(CanonAll(ts, split), base)
  {
    hide Canon, CanonAll, DirBlocks, Placed, BlockOf;
    if ts == [] {
      NoDirBlocks(base, split);
    } else {
      var front, last := ts[..|ts| - 1], ts[|ts| - 1];
      assert ts == front + [last];
      PlacedDirsAreBlocks(front, base, parentIno, split);
      CanonAllSnoc(front, last, split);
      CanonKind(last, split);
      DirBlocksAppend(CanonAll(front, split), Canon(last, split), base);
      if last.node.IsDir() {
        var d := Tree(Placed(last.node, base + |ts|, parentIno, split), last.children);
        PlacedBlock(last, base + |ts|, parentIno, split);
        assert Blocks(PlacedDirs(ts, base, parentIno, split), split)
                 == Blocks(PlacedDirs(front, base, parentIno, split), split) + [BlockOf(d, split)];
      }
    }
  }

  lemma NoDirBlocks(base: nat, split: bool)
    ensures DirBlocks(CanonAll([], split), base) == []
  {
  }

  lemma PlacedBlock(t: Tree, index: nat, parentIno: nat, split: bool)
    requires t.node.IsDir() && index >= 1
    ensures BlockOf(Tree(Placed(t.node, index, parentIno, split), t.children), split)
              == Block(index - 1, Canon(t, split))
  {
    hide Canon;
    CanonOfPlaced(t, index, parentIno, split);
  }

  /** Files that are no directories have no descendants. */
  lemma {:induction false} PlacedDirsSize(ts: seq<Tree>, base: nat, parentIno: nat, split: bool)
    requires forall i :: 0 <= i < |ts| && !ts[i].node.IsDir() ==> ts[i].children == []
    ensures SizeAll(PlacedDirs(ts, base, parentIno, split)) - |PlacedDirs(ts, base, parentIno, split)|
              == SizeAll(ts) - |ts|
    ensures |PlacedDirs(ts, base, parentIno, split)| <= |ts|
  {
    hide Placed, Size, SizeAll;
    if ts == [] {
      SizeOfNone();
    } else {
      var front, last := ts[..|ts| - 1], ts[|ts| - 1];
      assert ts == front + [last];
      PlacedDirsSize(front, base, parentIno, split);
      SizeAllAppend(front, [last]);
      SizeAllOne(last);
      SizeOfTree(last);
      if last.node.IsDir() {
        var d := Tree(Placed(last.node, base + |ts|, parentIno, split), last.children);
        SizeAllAppend(PlacedDirs(front, base, parentIno, split), [d]);
        SizeAllOne(d);
        SizeOfTree(d);
      } else {
        SizeOfNone();
        assert PlacedDirs(ts, base, parentIno, split) == PlacedDirs(front, base, parentIno, split);
      }
    }
  }

  lemma SizeOfTree(t: Tree)
    ensures Size(t) == 1 + SizeAll(t.children)
  {
  }

  lemma SizeOfNone()
    ensures SizeAll([]) == 0
  {
  }

  lemma BlocksAppend(ds: seq<Tree>, d: Tree, split: bool)
    ensures Blocks(ds + [d], split) == Blocks(ds, split) + [BlockOf(d, split)]
    ensures forall b :: b in Blocks(ds, split) ==> exists x :: x in ds && b == BlockOf(x, split)
  {
    hide Canon;
  }

  lemma {:induction false} BlocksSize(ds: seq<Tree>, split: bool)
    ensures BlockSize(Blocks(ds, split)) == SizeAll(ds) - |ds|
  {
    if ds != [] {
      assert Blocks(ds, split)[1..] == Blocks(ds[1..], split);
      BlocksSize(ds[1..], split);
      assert Blocks(ds, split)[0].tree == Canon(ds[0], split);
    }
  }

  lemma SizeAllAt(ds: seq<Tree>, m: nat)
    requires m < |ds|
    ensures SizeAll(ds[..m + 1]) == SizeAll(ds[..m]) + Size(ds[m])
    ensures SizeAll(ds[..m + 1]) + |ds| - (m + 1) <= SizeAll(ds)
  {
    hide Size, SizeAll;
    assert ds == ds[..m + 1] + ds[m + 1..];
    assert ds[..m + 1] == ds[..m] + [ds[m]];
    SizeAllAppend(ds[..m + 1], ds[m + 1..]);
    SizeAllAppend(ds[..m], [ds[m]]);
    SizeAllOne(ds[m]);
    SizeAllCounts(ds[m + 1..]);
  }

  lemma SizeAllOne(d: Tree)
    ensures SizeAll([d]) == Size(d)
  {
    assert [d][1..] == [];
  }

  lemma SizeAllCounts(ds: seq<Tree>)
    ensures SizeAll(ds) >= |ds|
  {
  }

  /** What the children of a well-formed directory are like once sorted. */
  lemma SortedChildren(tree: Tree)
    requires WellFormed(tree)
    ensures var ts := SortByName(tree.children);
            && Sorted(ts) && DistinctNames(ts)
            && forall i :: 0 <= i < |ts| ==>
                ts[i].node.path == tree.node.path + [ts[i].node.Name()] && WellFormed(ts[i])
  {
    var ts := SortByName(tree.children);
    SortIsSorted(tree.children);
    SortedIsDistinct(ts);
    forall i | 0 <= i < |ts|
      ensures ts[i].node.path == tree.node.path + [ts[i].node.Name()] && WellFormed(ts[i])
    {
      var j := SortedFrom(tree.children, i);
    }
  }

  /** A directory whose record is in place, as a child of the directory at `parent`. */
  ghost predicate ReadyDir(nodes: seq<Node>, d: Tree, parent: Path) {
    && d.node.IsDir() && WellFormed(d)
    && 1 <= d.node.index <= |nodes|
    && SameFileAndNumber(nodes[d.node.index - 1], d.node)
    && d.node.path == parent + [d.node.Name()]
  }

  lemma ChildStaysPlaced(before: seq<Node>, after: seq<Node>, k: nat, t: Tree, pos: nat, parentIno: nat, split: bool)
    requires k < pos < |before| <= |after|
    requires before[pos] == Placed(t.node, pos + 1, parentIno, split)
    requires WellFormed(t)
    requires SameButChildren(before[pos], after[pos]) && (!t.node.IsDir() ==> after[pos] == before[pos])
    requires after[k].inode.ino == parentIno
    ensures PlacedAt(after, k, pos, Canon(t, split))
  {
    assert !t.node.IsDir() ==> SortByName(t.children) == [];
  }

  lemma ReadyParts(nodes: seq<Node>, d: Tree, parent: Path)
    requires ReadyDir(nodes, d, parent)
    ensures d.node.IsDir() && WellFormed(d) && 1 <= d.node.index <= |nodes|
              && SameFileAndNumber(nodes[d.node.index - 1], d.node)
  {
  }

  /** Once their directories are flattened, the children are still placed. */
  lemma ChildrenStayPlaced(before: seq<Node>, after: seq<Node>, k: nat, ts: seq<Tree>, base: nat, parentIno: nat,
      split: bool)
    requires k < base && base + |ts| == |before| <= |after|
    requires before[base..] == Records(ts, base, parentIno, split)
    requires forall i :: 0 <= i < |ts| ==> WellFormed(ts[i])
    requires forall i :: 0 <= i < |before| ==> SameButChildren(before[i], after[i])
    requires forall i ::
               0 <= i < |before| && (forall d :: d in PlacedDirs(ts, base, parentIno, split) ==> d.node.index != i + 1)
               ==> after[i] == before[i]
    requires after[k].inode.ino == parentIno
    ensures forall i :: 0 <= i < |ts| ==> PlacedAt(after, k, base + i, CanonAll(ts, split)[i])
  {
    hide Canon, CanonAll, PlacedDirs, Placed, WellFormed, SameButChildren, PlacedAt;
    forall i | 0 <= i < |ts|
      ensures PlacedAt(after, k, base + i, CanonAll(ts, split)[i])
    {
      assert before[base + i] == before[base..][i];
      CanonAllAt(ts, split, i);
      if !ts[i].node.IsDir() { NoDirAt(ts, base, parentIno, i, split); }
      ChildStaysPlaced(before, after, k, ts[i], base + i, parentIno, split);
    }
  }

  lemma NoDirAt(ts: seq<Tree>, base: nat, parentIno: nat, i: nat, split: bool)
    requires i < |ts| && !ts[i].node.IsDir()
    ensures forall d :: d in PlacedDirs(ts, base, parentIno, split) ==> d.node.index != base + i + 1
  {
    var ds := PlacedDirs(ts, base, parentIno, split);
    forall d | d in ds
      ensures d.node.index != base + i + 1
    {
      var m :| 0 <= m < |ds| && ds[m] == d;
      var j := PlacedDirFrom(ts, base, parentIno, m, split);
    }
  }

  /** Sibling directories are ready to be flattened as soon as they are placed. */
  lemma PlacedDirsReady(nodes: seq<Node>, ts: seq<Tree>, base: nat, parentIno: nat, parent: Path, split: bool)
    requires base + |ts| == |nodes| && nodes[base..] == Records(ts, base, parentIno, split)
    requires forall i :: 0 <= i < |ts| ==> ts[i].node.path == parent + [ts[i].node.Name()] && WellFormed(ts[i])
    requires DistinctNames(ts)
    ensures var ds := PlacedDirs(ts, base, parentIno, split);
            && (forall m :: 0 <= m < |ds| ==> ReadyDir(nodes, ds[m], parent) && ds[m].node.index > base
                                              && ds[m].node.path == parent + [ds[m].node.Name()])
            && (forall l, m :: 0 <= l < m < |ds| ==>
                ds[l].node.index != ds[m].node.index && ds[l].node.path != ds[m].node.path)
  {
    hide Placed, PlacedDirs, WellFormed, SameFileAndNumber;
    var ds := PlacedDirs(ts, base, parentIno, split);
    forall m | 0 <= m < |ds|
      ensures ReadyDir(nodes, ds[m], parent) && ds[m].node.index > base
    {
      var i := PlacedDirFrom(ts, base, parentIno, m, split);
      PlacedIndex(ts[i].node, base + i + 1, parentIno, split);
      assert nodes[base + i] == nodes[base..][i];
      PlacedDirReady(nodes, ts[i], base + i, parentIno, parent, split);
    }
    forall l, m | 0 <= l < m < |ds|
      ensures ds[l].node.index != ds[m].node.index && ds[l].node.path != ds[m].node.path
    {
      var i := PlacedDirFrom(ts, base, parentIno, l, split);
      var j := PlacedDirFrom(ts, base, parentIno, m, split);
      PlacedIndex(ts[i].node, base + i + 1, parentIno, split);
      PlacedIndex(ts[j].node, base + j + 1, parentIno, split);
      assert i < j;
      assert ts[i].node.path != ts[j].node.path;
    }
  }

  lemma PlacedIndex(n: Node, index: nat, parentIno: nat, split: bool)
    ensures Placed(n, index, parentIno, split).index == index && Placed(n, index, parentIno, split).path == n.path
  {
  }

  lemma ReadyDirStays(before: seq<Node>, after: seq<Node>, d: Tree, parent: Path)
    requires ReadyDir(before, d, parent) && |before| <= |after|
    requires SameButChildren(before[d.node.index - 1], after[d.node.index - 1])
    ensures ReadyDir(after, d, parent)
  {
  }

  lemma PlacedDirReady(nodes: seq<Node>, t: Tree, pos: nat, parentIno: nat, parent: Path, split: bool)
    requires pos < |nodes| && nodes[pos] == Placed(t.node, pos + 1, parentIno, split)
    requires t.node.IsDir() && t.node.path == parent + [t.node.Name()] && WellFormed(t)
    ensures ReadyDir(nodes, Tree(Placed(t.node, pos + 1, parentIno, split), t.children), parent)
  {
    WellFormedRenumbered(t, Tree(Placed(t.node, pos + 1, parentIno, split), t.children));
  }

  lemma WellFormedRenumbered(t: Tree, t': Tree)
    requires WellFormed(t) && t.node.IsDir()
    requires t'.children == t.children && FileOf(t'.node) == FileOf(t.node)
    ensures WellFormed(t')
  {
  }

  // ----- the second loop -----

  /** What flattening the tree at position `k` of `before` leaves behind. */
  ghost predicate Built(before: seq<Node>, after: seq<Node>, t: Tree, split: bool) {
    var k := t.node.index - 1;
    && 0 <= k < |before| && |after| == |before| + SizeAll(t.children)
    && Rep(after, k, Canon(t, split), |before|)
    && (forall i :: 0 <= i < |before| && i != k ==> after[i] == before[i])
    && SameButChildren(before[k], after[k])
    && (forall i :: |before| <= i < |after| ==> BuiltNode(after[i], i))
  }

  /** What flattening the directories `ds` one after the other leaves behind. */
  ghost predicate Flattened(before: seq<Node>, after: seq<Node>, ds: seq<Tree>, split: bool) {
    && |after| == |before| + SizeAll(ds) - |ds|
    && RepBlocks(after, Blocks(ds, split), |before|)
    && (forall i :: 0 <= i < |before| ==> SameButChildren(before[i], after[i]))
    && (forall i :: 0 <= i < |before| && (forall d :: d in ds ==> d.node.index != i + 1) ==> after[i] == before[i])
    && (forall i :: |before| <= i < |after| ==> BuiltNode(after[i], i))
  }

  lemma FlattenedNone(before: seq<Node>, split: bool)
    ensures Flattened(before, before, [], split)
  {
  }

  lemma BlocksStep(before: seq<Node>, mid: seq<Node>, after: seq<Node>, ds: seq<Tree>, d: Tree, split: bool)
    requires Flattened(before, mid, ds, split) && Built(mid, after, d, split)
    requires d.node.index <= |before|
    requires forall x :: x in ds ==> 1 <= x.node.index <= |before| && x.node.index != d.node.index
    ensures RepBlocks(after, Blocks(ds + [d], split), |before|)
  {
    hide Rep, Canon, RepBlocks, BuiltNode, Blocks, Size, BlockSize;
    BlocksSize(ds, split);
    BlocksAppend(ds, d, split);
    forall b | b in Blocks(ds, split)
      ensures b.pos < |mid| && SameRecord(mid[b.pos], after[b.pos])
    {
      var x :| x in ds && b == BlockOf(x, split);
    }
    RepBlocksFrame(mid, after, Blocks(ds, split), |before|, |mid|);
    RepBlocksAppend(after, Blocks(ds, split), BlockOf(d, split), |before|);
  }

  lemma FlattenedStep(before: seq<Node>, mid: seq<Node>, after: seq<Node>, ds: seq<Tree>, d: Tree, split: bool)
    requires Flattened(before, mid, ds, split) && Built(mid, after, d, split)
    requires d.node.index <= |before|
    requires forall x :: x in ds ==> 1 <= x.node.index <= |before| && x.node.index != d.node.index
    ensures Flattened(before, after, ds + [d], split)
  {
    hide Rep, Canon, RepBlocks, BuiltNode, Blocks;
    BlocksStep(before, mid, after, ds, d, split);
    SizeAllAppend(ds, [d]);
    assert SizeAll([d]) == Size(d) + SizeAll([d][1..]);
    forall i | 0 <= i < |before|
      ensures SameButChildren(before[i], after[i])
    {
      assert SameButChildren(before[i], mid[i]);
    }
    forall i | 0 <= i < |before| && forall x :: x in ds + [d] ==> x.node.index != i + 1
      ensures after[i] == before[i]
    {
      assert d in ds + [d];
      assert forall x :: x in ds ==> x in ds + [d];
    }
  }

  lemma SortedLeaves(ts: seq<Tree>)
    requires forall i :: 0 <= i < |ts| ==> WellFormed(ts[i])
    ensures forall i :: 0 <= i < |ts| && !ts[i].node.IsDir() ==> ts[i].children == []
  {
    forall i | 0 <= i < |ts| && !ts[i].node.IsDir()
      ensures ts[i].children == []
    {
      assert WellFormed(ts[i]);
    }
  }

  lemma PlacedIsBuilt(n: Node, i: nat, parentIno: nat, r: Node, split: bool)
    requires parentIno <= i
    requires SameButChildren(Placed(n, i + 1, parentIno, split), r)
    requires !n.IsDir() ==> r == Placed(n, i + 1, parentIno, split)
    ensures BuiltNode(r, i)
  {
  }

  lemma NewNodesBuilt(b: seq<Node>, after: seq<Node>, ts: seq<Tree>, base: nat, parentIno: nat, split: bool)
    requires base + |ts| == |b| && b[base..] == Records(ts, base, parentIno, split) && parentIno <= base
    requires Flattened(b, after, PlacedDirs(ts, base, parentIno, split), split) && |b| <= |after|
    ensures forall i :: base <= i < |after| ==> BuiltNode(after[i], i)
  {
    hide Placed, PlacedDirs, BuiltNode, RepBlocks, SizeAll, Blocks, SameButChildren;
    forall i | base <= i < |after|
      ensures BuiltNode(after[i], i)
    {
      if i < |b| {
        assert b[i] == b[base..][i - base] == Placed(ts[i - base].node, i + 1, parentIno, split);
        if !ts[i - base].node.IsDir() {
          NoDirAt(ts, base, parentIno, i - base, split);
        }
        PlacedIsBuilt(ts[i - base].node, i, parentIno, after[i], split);
      }
    }
  }

  lemma CanonOfDir(t: Tree, split: bool)
    requires t.node.IsDir()
    ensures Canon(t, split) == FileTree(FileOf(t.node), CanonAll(SortByName(t.children), split))
  {
  }

  lemma PlacedIsRep(before: seq<Node>, b: seq<Node>, after: seq<Node>, t: Tree, split: bool)
    requires WellFormed(t) && t.node.IsDir()
    requires 1 <= t.node.index <= |before|
    requires var k, ts := t.node.index - 1, SortByName(t.children);
             && |b| == |before| + |ts| && |b| <= |after|
             && FileOf(b[k]) == FileOf(t.node) && HasIndex(b[k], k)
             && b[k].inode.childIndex == |before| + 1 && b[k].inode.childCount == |ts|
             && b[k].inode.nlink == 2 + |PlacedDirs(ts, |before|, k + 1, split)|
             && b[|before|..] == Records(ts, |before|, k + 1, split)
             && after[k] == b[k]
             && Flattened(b, after, PlacedDirs(ts, |before|, k + 1, split), split)
    ensures Rep(after, t.node.index - 1, Canon(t, split), |before|)
  {
    hide WellFormed, SortByName, RepBlocks, RepKids, Placed, Canon, CanonAll, PlacedDirs, DirBlocks, CountDirs,
         BlockSize, FileSizeAll, SizeAll, PlacedAt, SameButChildren, Blocks;
    CanonOfDir(t, split);
    var k, ts, base := t.node.index - 1, SortByName(t.children), |before|;
    var ds, fs := PlacedDirs(ts, base, k + 1, split), CanonAll(ts, split);
    SortedChildren(t);
    ChildrenStayPlaced(b, after, k, ts, base, k + 1, split);
    PlacedDirsAreBlocks(ts, base, k + 1, split);
    DirBlocksCount(fs, base);
    BlocksSize(ds, split);
    Assemble(after, k, fs, base, base + |ts|);
  }

  /** Setting the child range or a positive link count leaves the rest of a record alone. */
  lemma RangeAndLinks(n: Node, childIndex: Word, childCount: nat, nlink: nat)
    requires nlink >= 1
    ensures SameButChildren(n, WithRange(n, childIndex, childCount)) && SameButChildren(n, WithLinks(n, nlink))
    ensures FileOf(WithRange(n, childIndex, childCount)) == FileOf(n) == FileOf(WithLinks(n, nlink))
    ensures SameButChildren(n, n)
    ensures WithRange(n, childIndex, childCount).inode.ino == n.inode.ino == WithLinks(n, nlink).inode.ino
    ensures WithRange(n, childIndex, childCount).IsDir() == n.IsDir() == WithLinks(n, nlink).IsDir()
  {
  }

  lemma SameButOne(nodes: seq<Node>, k: nat, childIndex: Word, childCount: nat, nlink: nat)
    requires k < |nodes| && nlink >= 1
    ensures forall i :: 0 <= i < |nodes| ==>
              SameButChildren(nodes[i], nodes[k := WithRange(nodes[k], childIndex, childCount)][i])
    ensures forall i :: 0 <= i < |nodes| ==> SameButChildren(nodes[i], nodes[k := WithLinks(nodes[k], nlink)][i])
    ensures WithRange(nodes[k], childIndex, childCount).inode.ino == nodes[k].inode.ino
    ensures WithRange(nodes[k], childIndex, childCount).IsDir() == nodes[k].IsDir()
  {
    hide SameButChildren, WithRange, WithLinks;
    forall i | 0 <= i < |nodes|
      ensures SameButChildren(nodes[i], nodes[k := WithRange(nodes[k], childIndex, childCount)][i])
      ensures SameButChildren(nodes[i], nodes[k := WithLinks(nodes[k], nlink)][i])
    {
      RangeAndLinks(nodes[i], childIndex, childCount, nlink);
    }
    RangeAndLinks(nodes[k], childIndex, childCount, nlink);
  }

  /** Placing the children of a directory and flattening their directories lays out its whole tree: `a` is the array
      with the directory's child range set, `b` with the children appended and the link count set. */
  lemma PlacedThenFlattened(before: seq<Node>, a: seq<Node>, b: seq<Node>, after: seq<Node>, t: Tree, split: bool)
    requires WellFormed(t) && t.node.IsDir()
    requires 1 <= t.node.index <= |before| && |before| + SizeAll(t.children) + 1 < U32
    requires var k, ts := t.node.index - 1, SortByName(t.children);
             && SameFileAndNumber(before[k], t.node)
             && HasIndex(before[k], k)
             && a == before[k := WithRange(before[k], |before| + 1, |ts|)]
             && b == (a + Records(ts, |before|, k + 1, split))[k :=
                 WithLinks(a[k], 2 + |PlacedDirs(ts, |before|, k + 1, split)|)]
             && Flattened(b, after, PlacedDirs(ts, |before|, k + 1, split), split)
    ensures Built(before, after, t, split)
  {
    hide WellFormed, Canon, CanonAll, SortByName, RepBlocks, RepKids, Rep, Placed, PlacedDirs, SizeAll, BuiltNode,
         Blocks, DistinctNames, Sorted, SameRecord, StrictPrefix, ReadyDir, Records;
    var k, ts, base := t.node.index - 1, SortByName(t.children), |before|;
    var ds := PlacedDirs(ts, base, k + 1, split);
    SortedChildren(t);
    SortedLeaves(ts);
    PlacedDirsSize(ts, base, k + 1, split);
    PlacedDirsReady(b, ts, base, k + 1, t.node.path, split);
    NewNodesBuilt(b, after, ts, base, k + 1, split);
    PlacedIsRep(before, b, after, t, split);
    OthersStay(before, b, after, k, ds, split);
  }

  /** Outside the directory's own record and the new ones nothing has changed. */
  lemma OthersStay(before: seq<Node>, b: seq<Node>, after: seq<Node>, k: nat, ds: seq<Tree>, split: bool)
    requires k < |before| <= |b|
    requires forall i :: 0 <= i < |before| && i != k ==> b[i] == before[i]
    requires forall m :: 0 <= m < |ds| ==> ds[m].node.index > |before|
    requires Flattened(b, after, ds, split) && |b| <= |after|
    ensures forall i :: 0 <= i < |before| && i != k ==> after[i] == before[i]
    ensures after[k] == b[k]
  {
    hide RepBlocks, BuiltNode, SameButChildren, Blocks;
  }
}
