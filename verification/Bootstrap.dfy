/** The image builder of `Bootstrap`: numbering, flattening and re-splitting, without hard links. */
module Bootstrap {
  import opened Bytes
  import opened Nodes
  import opened Trees
  import opened Flatten
  import opened Flattening
  import opened Toc
  import opened TocBuild
  import opened BlobIndex

  // ----- what holds of the builder's state throughout -----

  ghost predicate NumberedNode(n: Node, i: nat) {
    HasIndex(n, i) && n.realIno == i + 1
  }

  /** Node `i` is numbered by its position, and so are its path and its inode key. */
  ghost predicate Known(n: Node, i: nat, inodeMap: map<Key, seq<nat>>, nodePathMap: map<Path, nat>) {
    && NumberedNode(n, i)
    && n.path in nodePathMap && nodePathMap[n.path] == i + 1
    && (i + 1, n.dev) in inodeMap
  }

  /** Every node is numbered by its position, no two share a path, and the inode map has one key for every node. */
  ghost predicate Numbered(nodes: seq<Node>, inodeMap: map<Key, seq<nat>>, nodePathMap: map<Path, nat>) {
    && |nodePathMap| == |nodes| == |inodeMap|
    && (forall i :: 0 <= i < |nodes| ==> Known(nodes[i], i, inodeMap, nodePathMap))
    && (forall key :: key in inodeMap ==> 1 <= key.0 <= |nodes|)
  }

  lemma NumberedPush(nodes: seq<Node>, inodeMap: map<Key, seq<nat>>, nodePathMap: map<Path, nat>, n: Node, v: seq<nat>)
    requires Numbered(nodes, inodeMap, nodePathMap)
    requires NumberedNode(n, |nodes|) && n.path !in nodePathMap
    ensures (|nodes| + 1, n.dev) !in inodeMap
    ensures Numbered(nodes + [n], inodeMap[(|nodes| + 1, n.dev) := v], nodePathMap[n.path := |nodes| + 1])
  {
    var nodes', inodeMap' := nodes + [n], inodeMap[(|nodes| + 1, n.dev) := v];
    var nodePathMap' := nodePathMap[n.path := |nodes| + 1];
    forall i | 0 <= i < |nodes'|
      ensures Known(nodes'[i], i, inodeMap', nodePathMap')
    {
      if i < |nodes| { assert Known(nodes[i], i, inodeMap, nodePathMap); }
    }
  }

  /** A record changed without touching its number, path and device, and the inode map changed without touching its
      keys. */
  lemma NumberedUpdate(nodes: seq<Node>, nodes': seq<Node>, inodeMap: map<Key, seq<nat>>, inodeMap': map<Key,
      seq<nat>>, nodePathMap: map<Path, nat>)
    requires Numbered(nodes, inodeMap, nodePathMap)
    requires |nodes'| == |nodes| && forall i :: 0 <= i < |nodes| ==> SameButChildren(nodes[i], nodes'[i])
    requires inodeMap'.Keys == inodeMap.Keys
    ensures Numbered(nodes', inodeMap', nodePathMap)
  {
    assert |inodeMap'.Keys| == |inodeMap'| && |inodeMap.Keys| == |inodeMap|;
    forall i | 0 <= i < |nodes'|
      ensures Known(nodes'[i], i, inodeMap', nodePathMap)
    {
      assert SameButChildren(nodes[i], nodes'[i]) && Known(nodes[i], i, inodeMap, nodePathMap);
    }
  }

  /** Every path numbered since lies below one of the first `m` directories. */
  ghost predicate PathsBelow(before: map<Path, nat>, after: map<Path, nat>, ds: seq<Tree>, m: nat)
    requires m <= |ds|
  {
    forall p :: p in after ==> p in before || exists j :: 0 <= j < m && StrictPrefix(ds[j].node.path, p)
  }

  lemma NoPathsYet(before: map<Path, nat>, ds: seq<Tree>)
    ensures PathsBelow(before, before, ds, 0)
  {
  }

  lemma PathsBelowNext(before: map<Path, nat>, mid: map<Path, nat>, after: map<Path, nat>, ds: seq<Tree>, m: nat)
    requires m < |ds| && PathsBelow(before, mid, ds, m)
    requires forall p :: p in after ==> p in mid || StrictPrefix(ds[m].node.path, p)
    ensures PathsBelow(before, after, ds, m + 1)
  {
    hide StrictPrefix;
  }

  lemma NextDirIsNew(before: map<Path, nat>, after: map<Path, nat>, nodes: seq<Node>, ds: seq<Tree>, m: nat,
      parent: Path)
    requires m < |ds| && PathsBelow(before, after, ds, m)
    requires forall i :: 0 <= i < |ds| ==> ReadyDir(nodes, ds[i], parent)
    requires forall i, j :: 0 <= i < j < |ds| ==> ds[i].node.path != ds[j].node.path
    requires forall p :: p in before ==> !StrictPrefix(ds[m].node.path, p)
    ensures forall p :: p in after ==> !StrictPrefix(ds[m].node.path, p)
  {
    hide WellFormed, SameFileAndNumber;
    forall p | p in after
      ensures !StrictPrefix(ds[m].node.path, p)
    {
      if p !in before {
        var j :| 0 <= j < m && StrictPrefix(ds[j].node.path, p);
        assert ReadyDir(nodes, ds[j], parent) && ReadyDir(nodes, ds[m], parent);
      }
    }
  }

  lemma NewPathsBelowParent(before: map<Path, nat>, after: map<Path, nat>, nodes: seq<Node>, ds: seq<Tree>,
      parent: Path)
    requires PathsBelow(before, after, ds, |ds|)
    requires forall i :: 0 <= i < |ds| ==> ReadyDir(nodes, ds[i], parent)
    ensures forall p :: p in after ==> p in before || StrictPrefix(parent, p)
  {
    hide WellFormed, SameFileAndNumber;
    forall p | p in after
      ensures p in before || StrictPrefix(parent, p)
    {
      if p !in before {
        var j :| 0 <= j < |ds| && StrictPrefix(ds[j].node.path, p);
        assert ReadyDir(nodes, ds[j], parent);
        assert p[..|parent|] == p[..|parent| + 1][..|parent|];
      }
    }
  }

  lemma NumberedTree(nodes: seq<Node>, inodeMap: map<Key, seq<nat>>, nodePathMap: map<Path, nat>, t: Tree)
    requires Numbered(nodes, inodeMap, nodePathMap)
    requires 1 <= t.node.index <= |nodes| && SameFileAndNumber(nodes[t.node.index - 1], t.node)
    ensures (t.node.realIno, t.node.dev) in inodeMap
    ensures NumberedNode(nodes[t.node.index - 1], t.node.index - 1)
    ensures nodes[t.node.index - 1].IsDir() <==> t.node.IsDir()
  {
    assert Known(nodes[t.node.index - 1], t.node.index - 1, inodeMap, nodePathMap);
    assert FileOf(nodes[t.node.index - 1]).kind == FileOf(t.node).kind;
  }

  /** The children's paths are not numbered yet, and differ. */
  lemma ChildrenAreNew(nodePathMap: map<Path, nat>, t: Tree, ts: seq<Tree>)
    requires WellFormed(t) && ts == SortByName(t.children)
    requires forall p :: p in nodePathMap ==> !StrictPrefix(t.node.path, p)
    ensures && (forall i :: 0 <= i < |ts| ==>
              ts[i].node.path !in nodePathMap && ts[i].node.inode.size < 0x20_0000_0000_0000)
            && (forall i, j :: 0 <= i < j < |ts| ==> ts[i].node.path != ts[j].node.path)
  {
    SortedChildren(t);
    forall i | 0 <= i < |ts|
      ensures ts[i].node.path !in nodePathMap && ts[i].node.inode.size < 0x20_0000_0000_0000
    {
      assert ts[i].node.path == t.node.path + [ts[i].node.Name()] && WellFormed(ts[i]);
      assert StrictPrefix(t.node.path, ts[i].node.path);
    }
  }

  /** After the children are placed, no numbered path lies below any of their directories. */
  lemma NoPathBelow(before: map<Path, nat>, after: map<Path, nat>, t: Tree, ds: seq<Tree>)
    requires WellFormed(t)
    requires forall p :: p in before ==> !StrictPrefix(t.node.path, p)
    requires var ts := SortByName(t.children);
             forall p :: p in after ==> p in before || exists i :: 0 <= i < |ts| && ts[i].node.path == p
    requires forall m :: 0 <= m < |ds| ==> ds[m].node.path == t.node.path + [ds[m].node.Name()]
    ensures forall p, m :: p in after && 0 <= m < |ds| ==> !StrictPrefix(ds[m].node.path, p)
    ensures forall p :: p in after ==> p in before || StrictPrefix(t.node.path, p)
  {
    hide WellFormed, SortByName, Sorted, DistinctNames;
    SortedChildren(t);
    var ts := SortByName(t.children);
    forall p | p in after
      ensures p in before || StrictPrefix(t.node.path, p)
      ensures forall m :: 0 <= m < |ds| ==> !StrictPrefix(ds[m].node.path, p)
    {
      if p !in before {
        var i :| 0 <= i < |ts| && ts[i].node.path == p;
        assert ts[i].node.path == t.node.path + [ts[i].node.Name()];
      }
      forall m | 0 <= m < |ds|
        ensures !StrictPrefix(ds[m].node.path, p)
      {
        assert ds[m].node.path[..|t.node.path|] == t.node.path;
        assert |ds[m].node.path| <= |p| ==> p[..|t.node.path|] == p[..|ds[m].node.path|][..|t.node.path|];
      }
    }
  }

  /** There are as many records as children, sorted or not, and no more than nodes in the tree. */
  lemma SizeOfLevel(t: Tree)
    ensures |SortByName(t.children)| == |t.children| <= SizeAll(t.children)
    ensures forall base: nat, parentIno: nat :: |Records(SortByName(t.children), base, parentIno, true)| == |t.children|
  {
    hide Placed;
  }

  /** Once the children are placed, their directories can be flattened. */
  lemma ReadyToFlatten(nodes: seq<Node>, t: Tree, base: nat, parentIno: nat, before: map<Path, nat>, after: map<Path,
      nat>)
    requires WellFormed(t)
    requires base + |t.children| == |nodes| && base + SizeAll(t.children) + 1 < U32
    requires nodes[base..] == Records(SortByName(t.children), base, parentIno, true)
    requires forall p :: p in before ==> !StrictPrefix(t.node.path, p)
    requires var ts := SortByName(t.children);
             forall p :: p in after ==> p in before || exists i :: 0 <= i < |ts| && ts[i].node.path == p
    ensures var ds := PlacedDirs(SortByName(t.children), base, parentIno, true);
            && (forall m :: 0 <= m < |ds| ==> ReadyDir(nodes, ds[m], t.node.path))
            && (forall l, m :: 0 <= l < m < |ds| ==>
                ds[l].node.index != ds[m].node.index && ds[l].node.path != ds[m].node.path)
            && (forall p, m :: p in after && 0 <= m < |ds| ==> !StrictPrefix(ds[m].node.path, p))
            && |nodes| + SizeAll(ds) - |ds| + 1 < U32
            && SizeAll(ds) < Size(t)
    ensures forall p :: p in after ==> p in before || StrictPrefix(t.node.path, p)
  {
    hide WellFormed, PlacedDirs, SortByName, ReadyDir, StrictPrefix, SizeAll, Sorted, Records, DistinctNames;
    var ts := SortByName(t.children);
    SortedChildren(t);
    SortedLeaves(ts);
    PlacedDirsSize(ts, base, parentIno, true);
    PlacedDirsReady(nodes, ts, base, parentIno, t.node.path, true);
    NoPathBelow(before, after, t, PlacedDirs(ts, base, parentIno, true));
  }
  // ----- the whole build -----

  /** The root's record, before anything is placed below it. */
  function AsRoot(n: Node): Node {
    n.(index := 1, realIno := 1, inode := n.inode.(ino := 1))
  }

  class Bootstrap {
    var nodes: seq<Node>
    var inodeMap: map<Key, seq<nat>>
    var nodePathMap: map<Path, nat>
    var blobIds: seq<Name>
    var nodePathBlobIdMap: BlobMap

    constructor ()
      ensures nodes == [] && inodeMap == map[] && nodePathMap == map[] && blobIds == [] && nodePathBlobIdMap == map[]
    {
      nodes, inodeMap, nodePathMap := [], map[], map[];
      blobIds, nodePathBlobIdMap := [], map[];
    }

    ghost predicate Valid()
      reads this
    {
      Numbered(nodes, inodeMap, nodePathMap)
    }

    /** `update_node_path_map`. */
    method UpdateNodePathMap(path: Path) returns (n: nat)
      modifies this`nodePathMap
      ensures path in old(nodePathMap) ==> n == old(nodePathMap)[path] && nodePathMap == old(nodePathMap)
      ensures path !in old(nodePathMap) ==>
                n == |old(nodePathMap)| + 1 && nodePathMap == old(nodePathMap)[path := n]
    {
      if path in nodePathMap {
        n := nodePathMap[path];
      } else {
        nodePathMap := nodePathMap[path := |nodePathMap| + 1];
        n := |nodePathMap|;
      }
    }

    /** One round of the first loop of `build_rafs`: number a child, re-split it and append it. */
    method PlaceChild(child: Tree, parentIno: nat) returns (placed: Tree)
      requires Valid()
      requires child.node.path !in nodePathMap
      requires child.node.inode.size < 0x20_0000_0000_0000
      modifies this`nodes, this`inodeMap, this`nodePathMap
      ensures Valid()
      ensures placed == Tree(Placed(child.node, |old(nodes)| + 1, parentIno, true), child.children)
      ensures nodes == old(nodes) + [placed.node]
      ensures nodePathMap == old(nodePathMap)[child.node.path := |nodes|]
    {
      NumberedPush(nodes, inodeMap, nodePathMap, Placed(child.node, |nodes| + 1, parentIno, true), [|nodes| + 1]);
      var node := child.node;
      var index := |nodes| + 1;
      node := node.(index := index, inode := node.inode.(parent := parentIno));
      var realIno := UpdateNodePathMap(node.path);
      node := node.(realIno := realIno);
      var nodes', ino, nlink;
      inodeMap, nodes', ino, nlink := Number(inodeMap, nodes, (node.realIno, node.dev), index);
      node := node.(inode := node.inode.(ino := ino, nlink := nlink));
      node := SplitChunks(node);
      nodes := nodes' + [node];
      placed := Tree(node, child.children);
    }

    /** The first loop of `build_rafs`. */
    method PlaceChildren(children: seq<Tree>, parentIno: nat) returns (dirs: seq<Tree>)
      requires Valid()
      requires forall i :: 0 <= i < |children| ==>
                 children[i].node.path !in nodePathMap && children[i].node.inode.size < 0x20_0000_0000_0000
      requires forall i, j :: 0 <= i < j < |children| ==> children[i].node.path != children[j].node.path
      modifies this`nodes, this`inodeMap, this`nodePathMap
      ensures Valid()
      ensures nodes == old(nodes) + Records(children, |old(nodes)|, parentIno, true)
      ensures dirs == PlacedDirs(children, |old(nodes)|, parentIno, true)
      ensures forall p :: p in nodePathMap ==>
                p in old(nodePathMap) || exists i :: 0 <= i < |children| && children[i].node.path == p
    {
      hide Numbered, Resplit, NeedsSplit, Placed, Records, PlacedDirs;
      dirs := [];
      PlacedAll(children, |nodes|, parentIno, true);
      for i := 0 to |children|
        invariant Valid()
        invariant nodes == old(nodes) + Records(children, |old(nodes)|, parentIno, true)[..i]
        invariant dirs == PlacedDirs(children[..i], |old(nodes)|, parentIno, true)
        invariant forall p :: p in nodePathMap ==>
                    p in old(nodePathMap) || exists j :: 0 <= j < i && children[j].node.path == p
      {
        PlacedNext(children, i, |old(nodes)|, parentIno, true);
        var placed := PlaceChild(children[i], parentIno);
        if placed.node.IsDir() {
          dirs := dirs + [placed];
        }
      }
    }

    /** The second loop of `build_rafs`: flatten directories whose records are in place. */
    method FlattenDirs(dirs: seq<Tree>, ghost parent: Path)
      requires Valid()
      requires forall i :: 0 <= i < |dirs| ==> ReadyDir(nodes, dirs[i], parent)
      requires forall i, j :: 0 <= i < j < |dirs| ==>
                 dirs[i].node.index != dirs[j].node.index && dirs[i].node.path != dirs[j].node.path
      requires forall p, i :: p in nodePathMap && 0 <= i < |dirs| ==> !StrictPrefix(dirs[i].node.path, p)
      requires |nodes| + SizeAll(dirs) - |dirs| + 1 < U32
      modifies this`nodes, this`inodeMap, this`nodePathMap
      ensures Valid()
      ensures Flattened(old(nodes), nodes, dirs, true)
      ensures forall p :: p in nodePathMap ==> p in old(nodePathMap) || StrictPrefix(parent, p)
      decreases SizeAll(dirs), 1
    {
      hide Rep, Canon, WellFormed, Numbered, RepBlocks, SameButChildren, SameFileAndNumber, Built, Blocks, BuiltNode;
      hide StrictPrefix, PathsBelow, ReadyDir;
      ghost var before := nodes;
      forall i | 0 <= i < |dirs|
        ensures 1 <= dirs[i].node.index <= |before|
      {
        ReadyParts(before, dirs[i], parent);
      }
      assert PathsBelow(nodePathMap, nodePathMap, dirs, 0) by { NoPathsYet(nodePathMap, dirs); }
      FlattenedNone(before, true);
      for m := 0 to |dirs|
        invariant Valid()
        invariant Flattened(before, nodes, dirs[..m], true)
        invariant PathsBelow(old(nodePathMap), nodePathMap, dirs, m)
      {
        ghost var mid, midPaths := nodes, nodePathMap;
        ghost var d := dirs[m];
        SizeAllAt(dirs, m);
        ReadyParts(before, d, parent);
        ReadyDirStays(before, mid, d, parent);
        ReadyParts(mid, d, parent);
        NextDirIsNew(old(nodePathMap), nodePathMap, before, dirs, m, parent);
        BuildRafs(dirs[m]);
        assert dirs[..m + 1] == dirs[..m] + [d];
        PathsBelowNext(old(nodePathMap), midPaths, nodePathMap, dirs, m);
        FlattenedStep(before, mid, nodes, dirs[..m], d, true);
      }
      assert dirs[..|dirs|] == dirs;
      NewPathsBelowParent(old(nodePathMap), nodePathMap, before, dirs, parent);
    }

    /** `build_rafs` up to its second loop: set the child range of `tree`, place its children, set its link count. */
    method PlaceLevel(tree: Tree) returns (dirs: seq<Tree>, ghost a: seq<Node>)
      requires Valid()
      requires WellFormed(tree) && tree.node.IsDir()
      requires 1 <= tree.node.index <= |nodes| && SameFileAndNumber(nodes[tree.node.index - 1], tree.node)
      requires forall p :: p in nodePathMap ==> !StrictPrefix(tree.node.path, p)
      requires |nodes| + SizeAll(tree.children) + 1 < U32
      modifies this`nodes, this`inodeMap, this`nodePathMap
      ensures Valid()
      ensures var before, k, ts := old(nodes), tree.node.index - 1, SortByName(tree.children);
              && dirs == PlacedDirs(ts, |before|, k + 1, true)
              && HasIndex(before[k], k)
              && a == before[k := WithRange(before[k], |before| + 1, |ts|)]
              && nodes == (a + Records(ts, |before|, k + 1, true))[k := WithLinks(a[k], 2 + |dirs|)]
      ensures var ts := SortByName(tree.children);
              forall p :: p in nodePathMap ==>
                  p in old(nodePathMap) || exists i :: 0 <= i < |ts| && ts[i].node.path == p
    {
      hide WellFormed, Canon, SortByName, Placed, PlacedDirs, SizeAll, Numbered, Records, FileOf, Sorted, DistinctNames,
           StrictPrefix, Known, WithRange, WithLinks, SameButChildren;
      var k := tree.node.index - 1;
      var base := |nodes|;
      NumberedTree(nodes, inodeMap, nodePathMap, tree);
      SizeOfLevel(tree);
      inodeMap := inodeMap[(tree.node.realIno, tree.node.dev) := [tree.node.index]];
      if nodes[k].IsDir() {
        nodes := nodes[k := WithRange(nodes[k], (base + 1) % U32, |tree.children| % U32)];
      }
      SameButOne(old(nodes), k, (base + 1) % U32, |tree.children| % U32, 2);
      NumberedUpdate(old(nodes), nodes, old(inodeMap), inodeMap, nodePathMap);
      a := nodes;
      var parentIno := nodes[k].inode.ino;
      var children := SortByName(tree.children);
      ChildrenAreNew(nodePathMap, tree, children);
      dirs := PlaceChildren(children, parentIno);
      ghost var placed, placedMap := nodes, inodeMap;
      if tree.node.IsDir() {
        nodes := nodes[k := WithLinks(nodes[k], 2 + |dirs|)];
      }
      SameButOne(placed, k, 0, 0, 2 + |dirs|);
      NumberedUpdate(placed, nodes, placedMap, inodeMap, nodePathMap);
    }

    /** `build_rafs`: place the children of `tree`, then flatten each of its directories. */
    method BuildRafs(tree: Tree)
      requires Valid()
      requires WellFormed(tree) && tree.node.IsDir()
      requires 1 <= tree.node.index <= |nodes|
      requires SameFileAndNumber(nodes[tree.node.index - 1], tree.node)
      requires forall p :: p in nodePathMap ==> !StrictPrefix(tree.node.path, p)
      requires |nodes| + SizeAll(tree.children) + 1 < U32
      modifies this`nodes, this`inodeMap, this`nodePathMap
      ensures Valid()
      ensures Built(old(nodes), nodes, tree, true)
      ensures forall p :: p in nodePathMap ==> p in old(nodePathMap) || StrictPrefix(tree.node.path, p)
      decreases Size(tree), 0
    {
      hide WellFormed, SortByName, Placed, PlacedDirs, SizeAll, Built, Flattened, Numbered, Records, ReadyDir,
          WithRange,
           WithLinks, StrictPrefix;
      var base := |nodes|;
      var dirs, a := PlaceLevel(tree);
      ghost var b := nodes;
      SizeOfLevel(tree);
      assert nodes[base..] == Records(SortByName(tree.children), base, tree.node.index, true);
      ReadyToFlatten(nodes, tree, base, tree.node.index, old(nodePathMap), nodePathMap);
      FlattenDirs(dirs, tree.node.path);
      PlacedThenFlattened(old(nodes), a, b, nodes, tree, true);
    }

    /** `build_rafs_wrap`: number the root, then flatten everything below it. */
    method BuildRafsWrap(tree: Tree)
      requires nodes == [] && inodeMap == map[] && nodePathMap == map[]
      requires tree.node.path == [] && tree.node.IsDir() && WellFormed(tree)
      requires Size(tree) + 1 < U32
      modifies this`nodes, this`inodeMap, this`nodePathMap
      ensures Numbered(nodes, inodeMap, nodePathMap)
      ensures var t := Tree(AsRoot(tree.node), tree.children); Built([t.node], nodes, t, true)
    {
      hide WellFormed, Built, Canon, SizeAll;
      var node := AsRoot(tree.node);
      var realIno := UpdateNodePathMap(tree.node.path);
      nodes := [node];
      // `build_rafs` starts by entering its directory into the inode map; doing so here makes `Valid` hold.
      inodeMap := map[(node.realIno, node.dev) := [node.index]];
      WellFormedRenumbered(tree, Tree(node, tree.children));
      BuildRafs(Tree(node, tree.children));
    }

    /** `build_node_blob_index`. */
    method BuildNodeBlobIndex()
      modifies this`nodes
      ensures nodes == IndexNodes(old(nodes), nodePathBlobIdMap)
    {
      var k := 0;
      while k < |nodes|
        invariant 0 <= k <= |nodes| == |old(nodes)|
        invariant nodes[..k] == IndexNodes(old(nodes), nodePathBlobIdMap)[..k]
        invariant nodes[k..] == old(nodes)[k..]
      {
        var node := nodes[k];
        assert node == old(nodes)[k..][0];
        var chunks := node.chunks;
        for i := 0 to |chunks|
          invariant |chunks| == |node.chunks|
          invariant chunks[..i] == WithBlob(node.chunks, BlobIndexOf(nodePathBlobIdMap, node.path))[..i]
          invariant chunks[i..] == node.chunks[i..]
        {
          assert chunks[i] == node.chunks[i..][0];
          chunks := chunks[i := chunks[i].(blobIndex := BlobIndexOf(nodePathBlobIdMap, node.path))];
        }
        assert chunks == WithBlob(node.chunks, BlobIndexOf(nodePathBlobIdMap, node.path));
        nodes := nodes[k := node.(chunks := chunks)];
        k := k + 1;
        assert nodes[..k] == nodes[..k - 1] + [nodes[k - 1]];
      }
    }

    /** `build_tree`: the tree of the table of contents below the root node of the file system, flattened, with every
        chunk's blob. The result's tree is the one built from the table. */
    method BuildTree(rootNode: Node, tocIndexes: seq<TocItem>, blobs: seq<Name>) returns (ghost tocTree: Tree)
      requires nodes == [] && inodeMap == map[] && nodePathMap == map[]
      requires rootNode.path == [] && rootNode.IsDir() && rootNode.inode.size < 0x20_0000_0000_0000
      requires WellFormedToc(tocIndexes) && HasRoot(tocIndexes) && NodeBound(tocIndexes) + 2 < U32
      requires BlobsListed(tocIndexes, blobs)
      modifies this
      ensures blobIds == blobs && IsBlobMap(nodePathBlobIdMap, tocIndexes, blobs) && |inodeMap| == |nodes|
      ensures TreeOf(tocTree, tocIndexes) && Size(tocTree) <= 1 + NodeBound(tocIndexes)
      ensures var t := Tree(AsRoot(rootNode), tocTree.children);
              && WellFormed(t)
              && exists flat :: Built([t.node], flat, t, true) && nodes == IndexNodes(flat, nodePathBlobIdMap)
    {
      hide WellFormedToc, TreeOf, WellFormed, Built, HasRoot, IsBlobMap, NodeBound;
      blobIds := blobs;
      var treeBuilder := new StargzIndexTreeBuilder();
      var built := treeBuilder.Build(tocIndexes);
      tocTree := built.value;
      TocTreeFits(tocTree, tocIndexes, rootNode);
      nodePathBlobIdMap := BuildBlobMap(tocIndexes, blobs);
      BuildRafsWrap(Tree(rootNode, built.value.children));
      ghost var flat := nodes;
      BuildNodeBlobIndex();
      WellFormedRenumbered(Tree(rootNode, built.value.children), Tree(AsRoot(rootNode), built.value.children));
    }
  }
}
