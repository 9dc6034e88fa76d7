/** From a table of contents to the bytes a reader gets: the builder and the readers together. */
module EndToEnd {
  import opened Wrappers
  import opened Bytes
  import opened Nodes
  import opened Trees
  import opened Flatten
  import opened Layout
  import opened Direct
  import opened Readback
  import opened FastIndex
  import opened Toc
  import opened TocBuild
  import opened BlobIndex
  import opened Bootstrap
  import opened Flattening
  import opened RangeRead

  // ----- what holds of every file of a tree -----

  ghost predicate Everywhere(f: FileTree, p: File -> bool)
    decreases f
  {
    p(f.file) && forall i :: 0 <= i < |f.children| ==> Everywhere(f.children[i], p)
  }

  lemma {:induction false} RepEverywhere(a: seq<Node>, k: nat, f: FileTree, base: nat, p: File -> bool)
    requires Rep(a, k, f, base) && Everywhere(f, p)
    ensures p(FileOf(a[k]))
    ensures forall q :: base <= q < base + FileSizeAll(f.children) ==> p(FileOf(a[q]))
    decreases f, 0
  {
    KidsEverywhere(a, k, f.children, base, base + |f.children|, p);
  }

  lemma {:induction false} KidsEverywhere(a: seq<Node>, k: nat, fs: seq<FileTree>, pos: nat, base: nat, p: File -> bool)
    requires RepKids(a, k, fs, pos, base) && forall i :: 0 <= i < |fs| ==> Everywhere(fs[i], p)
    requires base + FileSizeAll(fs) - |fs| <= |a|
    ensures pos + |fs| <= |a| || fs == []
    ensures forall q :: pos <= q < pos + |fs| || base <= q < base + FileSizeAll(fs) - |fs| ==>
              q < |a| && p(FileOf(a[q]))
    decreases fs, 1
  {
    if fs != [] {
      RepEverywhere(a, pos, fs[0], base, p);
      KidsEverywhere(a, k, fs[1..], pos + 1, base + FileSizeAll(fs[0].children), p);
    }
  }

  lemma {:induction false} CanonEverywhere(t: Tree, p: File -> bool)
    requires Shaped(t) && forall q :: NodeAt(t, q).Some? ==> p(FileOf(Resplit(NodeAt(t, q).value)))
    ensures Everywhere(Canon(t, true), p)
    decreases Size(t)
  {
    hide SortByName, SizeAll, Resplit, FileOf, Shaped;
    var f, ts := Canon(t, true), SortByName(t.children);
    assert f.children == CanonAll(ts, true);
    assert NodeAt(t, []) == Some(t.node);
    forall i | 0 <= i < |f.children|
      ensures Everywhere(f.children[i], p)
    {
      var j := SortedFrom(t.children, i);
      CanonAllAt(ts, true, i);
      SizeAt(ts, i);
      ShapedChild(t, j);
      ChildNamedIs(t.children, j);
      forall q | NodeAt(ts[i], q).Some?
        ensures p(FileOf(Resplit(NodeAt(ts[i], q).value)))
      {
        var path := [ts[i].node.Name()] + q;
        assert path[1..] == q && NodeAt(t, path) == NodeAt(ts[i], q);
      }
      CanonEverywhere(ts[i], p);
    }
  }

  // ----- the built array is an image -----

  /** The name length field holds the length of a name that the format allows. */
  predicate NameFits(f: File) {
    f.nameSize == |FileName(f)| <= MAX_NAME + 1
  }

  lemma ResplitName(n: Node)
    ensures NameFits(FileOf(Resplit(n))) <==> n.inode.nameSize == |n.Name()| <= MAX_NAME + 1
  {
  }

  /** What flattening a named, well-formed tree from its root leaves behind is an image of the sorted tree. */
  lemma BuiltIsImage(t: Tree, a: seq<Node>)
    requires WellFormed(t) && t.node == AsRoot(t.node)
    requires t.node.path == [] && t.node.IsDir() && t.node.inode.parent == 0
    requires Built([t.node], a, t, true) && Size(t) < 0x4000_0000
    requires Everywhere(Canon(t, true), NameFits)
    ensures Image(a, Canon(t, true))
  {
    hide WellFormed, Rep, Canon, SizeAll, Everywhere, Ordered;
    var f := Canon(t, true);
    CanonIsOrdered(t, true);
    CanonParts(t, true);
    RepEverywhere(a, 0, f, 1, NameFits);
    forall q | 0 <= q < |a|
      ensures a[q].inode.ino == q + 1 && a[q].inode.nlink >= 1 && (!a[q].IsDir() ==> a[q].inode.nlink == 1)
      ensures a[q].inode.nameSize == |a[q].Name()| <= MAX_NAME + 1
    {
      FileNames(a[q]);
      if q == 0 {
        RootLinks(a, f);
        assert SameButChildren(t.node, a[0]);
      } else {
        assert BuiltNode(a[q], q);
      }
    }
    assert FileSize(f) == 1 + FileSizeAll(f.children);
  }

  lemma FileNames(n: Node)
    ensures FileOf(n).nameSize == n.inode.nameSize && FileName(FileOf(n)) == n.Name()
  {
  }

  lemma RootLinks(a: seq<Node>, f: FileTree)
    requires Rep(a, 0, f, 1) && f.file.kind.Dir?
    ensures a[0].inode.nlink >= 2 && a[0].IsDir()
  {
    assert FileOf(a[0]).kind == a[0].inode.kind;
  }

  // ----- lookup in the sorted tree -----

  lemma ChildOfSorted(t: Tree, name: Name, split: bool)
    requires Shaped(t)
    ensures var fs := CanonAll(SortByName(t.children), split);
            match ChildNamed(t.children, name)
            case Some(i) => ChildFile(fs, name).Some? && fs[ChildFile(fs, name).value] == Canon(t.children[i], split)
            case None => ChildFile(fs, name).None?
  {
    hide SortByName, Canon, CanonAll, FileName, Shaped;
    var ts := SortByName(t.children);
    var fs := CanonAll(ts, split);
    forall j | 0 <= j < |fs|
      ensures fs[j] == Canon(ts[j], split) && FileName(fs[j].file) == ts[j].node.Name()
    {
      CanonAllAt(ts, split, j);
      CanonParts(ts[j], split);
    }
    ShapedNames(t);
    match ChildNamed(t.children, name) {
      case Some(i) =>
        var j := SortedTo(t.children, i);
        assert FileName(fs[j].file) == name;
        var j' := ChildFile(fs, name).value;
        var i' := SortedFrom(t.children, j');
        ChildNamedIs(t.children, i');
      case None =>
        if ChildFile(fs, name).Some? {
          var i' := SortedFrom(t.children, ChildFile(fs, name).value);
        }
    }
  }

  /** Sorting siblings does not change what is found at a path. */
  lemma {:induction false} CanonFind(t: Tree, p: Path, split: bool)
    requires Shaped(t)
    ensures FindFile(Canon(t, split), p)
            == match Find(t, p) case Some(s) => Some(Canon(s, split)) case None => None
    decreases |p|
  {
    hide SortByName, Shaped, CanonAll;
    if p != [] {
      CanonParts(t, split);
      ChildOfSorted(t, p[0], split);
      match ChildNamed(t.children, p[0]) {
        case Some(i) =>
          ShapedChild(t, i);
          CanonFind(t.children[i], p[1..], split);
        case None =>
      }
    }
  }

  // ----- the image of a table of contents -----

  /** No name is longer than the format allows. */
  ghost predicate ShortNames(toc: seq<TocItem>) {
    forall i, j :: 0 <= i < |toc| && toc[i].entry.IsNode() && 0 <= j < |toc[i].entry.Path()| ==>
      |toc[i].entry.Path()[j]| <= MAX_NAME + 1
  }

  lemma NodeNameFits(e: TocEntry, data: Option<(nat, seq<Chunk>)>, ino: nat)
    requires e.Path() != [] && |e.Path()[|e.Path()| - 1]| <= MAX_NAME + 1
    ensures var n := Added(Filled(NodeOf(e, ino), data));
            n.inode.nameSize == |n.Name()| <= MAX_NAME + 1
  {
  }

  lemma ShortName(toc: seq<TocItem>, i: nat, j: nat)
    requires ShortNames(toc) && i < |toc| && toc[i].entry.IsNode() && j < |toc[i].entry.Path()|
    ensures |toc[i].entry.Path()[j]| <= MAX_NAME + 1
  {
  }

  lemma EntryNameFits(t: Tree, toc: seq<TocItem>, q: Path)
    requires TreeOf(t, toc) && ShortNames(toc) && q != [] && NodeAt(t, q).Some?
    ensures NodeAt(t, q).value.inode.nameSize == |NodeAt(t, q).value.Name()| <= MAX_NAME + 1
  {
    hide Shaped, NodeAt, ShortNames, Filled, DataOf, Added, NodeOf, EntryAt;
    assert FromEntry(t, toc, q);
    var n := NodeAt(t, q).value;
    if j :| 0 <= j < |toc| && toc[j].entry.IsNode() && q == toc[j].entry.Path() {
      assert EntryAt(t, toc, j);
      ListedNameFits(t, toc, j);
    } else {
      var j :| 0 <= j < |toc| && toc[j].entry.IsNode() && StrictPrefix(q, toc[j].entry.Path())
               && n == Added(NodeOf(NewDir(q, toc[j].entry), n.inode.ino));
      ShortName(toc, j, |q| - 1);
      DirNameFits(NewDir(q, toc[j].entry), n.inode.ino);
    }
  }

  lemma ListedNameFits(t: Tree, toc: seq<TocItem>, j: nat)
    requires j < |toc| && toc[j].entry.IsNode() && toc[j].entry.Path() != [] && EntryAt(t, toc, j) && ShortNames(toc)
    ensures var n := NodeAt(t, toc[j].entry.Path()).value; n.inode.nameSize == |n.Name()| <= MAX_NAME + 1
  {
    hide NodeAt, ShortNames, Filled, DataOf, Added, NodeOf;
    var e := toc[j].entry;
    ShortName(toc, j, |e.Path()| - 1);
    NodeNameFits(e, DataOf(toc, e), NodeAt(t, e.Path()).value.inode.ino);
  }

  lemma DirNameFits(e: TocEntry, ino: nat)
    requires e.Path() != [] && |e.Path()[|e.Path()| - 1]| <= MAX_NAME + 1
    ensures var n := Added(NodeOf(e, ino)); n.inode.nameSize == |n.Name()| <= MAX_NAME + 1
  {
    hide NodeOf, Added, Filled;
    FilledNone(NodeOf(e, ino));
    NodeNameFits(e, None, ino);
  }

  lemma FilledNone(n: Node)
    ensures Filled(n, None) == n
  {
  }

  lemma TocNamesFit(t: Tree, toc: seq<TocItem>, rootNode: Node)
    requires TreeOf(t, toc) && ShortNames(toc)
    requires rootNode.path == [] && rootNode.IsDir() && rootNode.inode.nameSize == 1
    ensures var r := Tree(rootNode, t.children); Shaped(r) && Everywhere(Canon(r, true), NameFits)
  {
    hide Shaped, Canon, TreeOf, NodeAt;
    var r := Tree(rootNode, t.children);
    TocTreeShape(t, toc);
    RootReplaced(TreeTrace([], [], map[]), t, r);
    forall q | NodeAt(r, q).Some?
      ensures NameFits(FileOf(Resplit(NodeAt(r, q).value)))
    {
      RootAt(r);
      if q != [] {
        NodeBelowRoot(t, r, q);
        EntryNameFits(t, toc, q);
      }
      ResplitName(NodeAt(r, q).value);
    }
    CanonEverywhere(r, NameFits);
  }

  /** The file of entry `i` in the image: re-split if large, and with its blob's index. */
  function EntryFile(toc: seq<TocItem>, i: nat, m: BlobMap): File
    requires i < |toc|
  {
    var e := toc[i].entry;
    IndexFile(FileOf(Resplit(Filled(NodeOf(e, 0), DataOf(toc, e)))), m)
  }

  /** The image's tree has every entry of the table at its path, and nothing else but the directories missing above
      them. */
  ghost predicate Describes(f: FileTree, toc: seq<TocItem>, m: BlobMap) {
    && (forall i :: 0 <= i < |toc| && toc[i].entry.IsNode() && toc[i].entry.Path() != [] ==>
          FindFile(f, toc[i].entry.Path()).Some? && FindFile(f, toc[i].entry.Path()).value.file == EntryFile(toc, i, m))
    && (forall q :: q != [] && FindFile(f, q).Some? ==> ListedOrAbove(f, toc, q))
  }

  ghost predicate ListedOrAbove(f: FileTree, toc: seq<TocItem>, q: Path)
    requires FindFile(f, q).Some?
  {
    exists j :: 0 <= j < |toc| && toc[j].entry.IsNode()
                && (q == toc[j].entry.Path()
                    || (FirstBelow(toc, j, q)
                        && FindFile(f, q).value.file == FileOf(NodeOf(NewDir(q, toc[j].entry), 0))))
  }

  /** A tree of the table, as an image's tree. */
  function ImageTree(t: Tree, rootNode: Node, m: BlobMap): FileTree {
    IndexTree(Canon(Tree(AsRoot(rootNode), t.children), true), m)
  }

  lemma ImageTreeFinds(t: Tree, toc: seq<TocItem>, rootNode: Node, m: BlobMap, q: Path)
    requires Shaped(t) && rootNode.path == t.node.path && rootNode.IsDir() && q != []
    ensures var r := FindFile(ImageTree(t, rootNode, m), q);
            match NodeAt(t, q)
            case Some(n) => r.Some? && r.value.file == IndexFile(FileOf(Resplit(n)), m)
            case None => r.None?
  {
    hide Shaped, CanonAll, SortByName, IndexFile, FileOf, Resplit;
    var root := Tree(AsRoot(rootNode), t.children);
    ShapedRenumbered(t, root);
    FindIndexed(Canon(root, true), m, q);
    CanonFind(root, q, true);
    assert Find(root, q) == Find(t, q) by { hide Canon; }
  }

  lemma ShapedRenumbered(t: Tree, r: Tree)
    requires Shaped(t) && r.children == t.children && r.node.path == t.node.path && r.node.IsDir()
    ensures Shaped(r)
  {
  }

  /** The inode number a table builder gives is not part of the file. */
  lemma FileIgnoresNumber(e: TocEntry, data: Option<(nat, seq<Chunk>)>, ino: nat)
    ensures FileOf(Resplit(Added(Filled(NodeOf(e, ino), data)))) == FileOf(Resplit(Filled(NodeOf(e, 0), data)))
  {
    assert NeedsSplit(Added(Filled(NodeOf(e, ino), data))) == NeedsSplit(Filled(NodeOf(e, 0), data));
  }

  lemma TocTreeDescribes(t: Tree, toc: seq<TocItem>, rootNode: Node, m: BlobMap)
    requires TreeOf(t, toc) && rootNode.path == [] && rootNode.IsDir()
    ensures Describes(ImageTree(t, rootNode, m), toc, m)
  {
    hide Shaped, NodeAt, FindFile, Find, ImageTree, FileOf, Resplit, IndexFile, DataOf;
    var f := ImageTree(t, rootNode, m);
    forall i | 0 <= i < |toc| && toc[i].entry.IsNode() && toc[i].entry.Path() != []
      ensures FindFile(f, toc[i].entry.Path()).Some?
                && FindFile(f, toc[i].entry.Path()).value.file == EntryFile(toc, i, m)
    {
      assert EntryAt(t, toc, i);
      ImageTreeFinds(t, toc, rootNode, m, toc[i].entry.Path());
      var n := NodeAt(t, toc[i].entry.Path()).value;
      FileIgnoresNumber(toc[i].entry, DataOf(toc, toc[i].entry), n.inode.ino);
    }
    forall q | q != [] && FindFile(f, q).Some?
      ensures ListedOrAbove(f, toc, q)
    {
      ImageTreeFinds(t, toc, rootNode, m, q);
      ListedOrLost(t, toc, q, m);
    }
  }

  lemma ListedOrLost(t: Tree, toc: seq<TocItem>, q: Path, m: BlobMap)
    requires TreeOf(t, toc) && q != [] && NodeAt(t, q).Some?
    ensures exists j :: 0 <= j < |toc| && toc[j].entry.IsNode()
                        && (q == toc[j].entry.Path()
                            || (FirstBelow(toc, j, q)
                                && IndexFile(FileOf(Resplit(NodeAt(t, q).value)), m)
                                   == FileOf(NodeOf(NewDir(q, toc[j].entry), 0))))
  {
    hide Shaped, NodeAt, NodeOf, NewDir, EntryAt, FileOf, Resplit, IndexFile, Added;
    assert FromEntry(t, toc, q);
    var n := NodeAt(t, q).value;
    var j :| 0 <= j < |toc| && toc[j].entry.IsNode()
             && (q == toc[j].entry.Path()
                 || (FirstBelow(toc, j, q) && n == Added(NodeOf(NewDir(q, toc[j].entry), n.inode.ino))));
    LostFile(q, toc[j].entry, n.inode.ino, m);
  }

  /** The file of a missing directory is the same wherever it is. */
  lemma LostFile(q: Path, e: TocEntry, ino: nat, m: BlobMap)
    ensures IndexFile(FileOf(Resplit(Added(NodeOf(NewDir(q, e), ino)))), m) == FileOf(NodeOf(NewDir(q, e), 0))
  {
    assert WithBlob([], BlobIndexOf(m, q)) == [];
  }

  // ----- the build, from table to image -----

  /** The root node of the file system, as `Node::new` makes it for `/`. */
  predicate IsRootNode(n: Node) {
    n.path == [] && n.IsDir() && n.inode.size < 0x20_0000_0000_0000 && n.inode.parent == 0 && n.inode.nameSize == 1
  }

  lemma FlatIsImage(t: Tree, toc: seq<TocItem>, rootNode: Node, flat: seq<Node>, m: BlobMap)
    requires TreeOf(t, toc) && ShortNames(toc) && IsRootNode(rootNode) && Size(t) < 0x4000_0000
    requires var r := Tree(AsRoot(rootNode), t.children); WellFormed(r) && Built([r.node], flat, r, true)
    ensures Image(IndexNodes(flat, m), ImageTree(t, rootNode, m))
    ensures Describes(ImageTree(t, rootNode, m), toc, m)
  {
    hide TreeOf, ShortNames, WellFormed, Built, Canon, Everywhere, Image, IndexTree, Describes, Shaped;
    var r := Tree(AsRoot(rootNode), t.children);
    TocNamesFit(t, toc, AsRoot(rootNode));
    BuiltIsImage(r, flat);
    ImageIndexed(flat, Canon(r, true), m);
    TocTreeDescribes(t, toc, rootNode, m);
  }

  /** Nodes know their positions, and no step of the build touches the root's digest. */
  lemma BuiltIndexes(rootNode: Node, t: Tree, flat: seq<Node>, m: BlobMap)
    requires var r := Tree(AsRoot(rootNode), t.children); Built([r.node], flat, r, true)
    ensures IndexNodes(flat, m) != [] && IndexNodes(flat, m)[0].inode.digest == rootNode.inode.digest
    ensures forall q :: 0 <= q < |flat| ==> IndexNodes(flat, m)[q].index == q + 1
  {
    hide Rep;
    forall q | 0 <= q < |flat|
      ensures flat[q].index == q + 1
    {
      if q > 0 { assert BuiltNode(flat[q], q); }
    }
  }

  /** `Bootstrap::build`, without the super block; `t` is the tree of the table. */
  method BuildImage(rootNode: Node, toc: seq<TocItem>, blobs: seq<Name>)
    returns (b: Bootstrap, ghost f: FileTree, ghost t: Tree)
    requires IsRootNode(rootNode)
    requires WellFormedToc(toc) && HasRoot(toc) && ShortNames(toc) && NodeBound(toc) + 2 < 0x4000_0000
    requires BlobsListed(toc, blobs)
    ensures Image(b.nodes, f)
    ensures b.blobIds == blobs && IsBlobMap(b.nodePathBlobIdMap, toc, blobs) && Describes(f, toc, b.nodePathBlobIdMap)
    ensures TreeOf(t, toc) && f == ImageTree(t, rootNode, b.nodePathBlobIdMap)
    ensures b.nodes != [] && b.nodes[0].inode.digest == rootNode.inode.digest && |b.inodeMap| == |b.nodes|
    ensures forall q :: 0 <= q < |b.nodes| ==> b.nodes[q].index == q + 1
  {
    hide WellFormedToc, HasRoot, ShortNames, NodeBound, IsBlobMap, Image, Describes, TreeOf, WellFormed, Built,
        ImageTree;
    b := new Bootstrap();
    t := b.BuildTree(rootNode, toc, blobs);
    ghost var r := Tree(AsRoot(rootNode), t.children);
    ghost var flat :| Built([r.node], flat, r, true) && b.nodes == IndexNodes(flat, b.nodePathBlobIdMap);
    FlatIsImage(t, toc, rootNode, flat, b.nodePathBlobIdMap);
    BuiltIndexes(rootNode, t, flat, b.nodePathBlobIdMap);
    f := ImageTree(t, rootNode, b.nodePathBlobIdMap);
  }

  // ----- reading a file of the table -----

  /** What a reader takes from an inode of the mapping for a range read. */
  function SourceOf(e: Entry, blobIds: seq<Name>): Source {
    Source(e.inode.kind, e.inode.HasHole(), e.chunks, blobIds, BLOCK_SIZE)
  }

  /** Entry `i` is a regular file of `size` bytes stored back to back from `offset` in its blob: it is empty, or one
      chunk that will be re-split, or already cut into 4 MiB chunks. */
  ghost predicate Contiguous(toc: seq<TocItem>, i: nat)
    requires i < |toc|
  {
    var e := toc[i].entry;
    && e.tocType.TocReg?
    && match DataOf(toc, e)
       case None => e.size == 0
       case Some((size, chunks)) =>
         && size == e.size
         && ((|chunks| == 1 && size > BLOCK_SIZE && chunks[0].compressOffset == e.offset)
             || ((|chunks| != 1 || size <= BLOCK_SIZE) && Uniform(WithBlob(chunks, 0), size, BLOCK_SIZE, e.offset, 0)))
  }

  /** A file whose only item is a regular entry without explicit chunks is stored contiguously. */
  lemma WholeFileIsContiguous(toc: seq<TocItem>, i: nat)
    requires i < |toc| && toc[i].entry.tocType.TocReg? && toc[i].entry.chunkOffset == 0
    requires toc[i].entry.chunkSize == 0 || toc[i].entry.chunkSize == toc[i].entry.size
    requires forall j ::
               0 <= j < |toc| && j != i && (toc[j].entry.tocType.TocReg? || toc[j].entry.tocType.TocChunk?) ==>
                 toc[j].entry.Path() != toc[i].entry.Path()
    ensures Contiguous(toc, i)
  {
    hide FileData;
    OneChunk(toc, i);
    var e := toc[i].entry;
    if 0 < e.size <= BLOCK_SIZE {
      assert Start(1, BLOCK_SIZE) == Start(0, BLOCK_SIZE) + BLOCK_SIZE;
    }
  }

  /** The pieces of a re-split file are its bytes, back to back. */
  lemma PiecesAreUniform(c: Chunk, size: nat, b: nat)
    requires BLOCK_SIZE < size < 0x20_0000_0000_0000
    ensures Uniform(WithBlob(Pieces(c, size), b), size, BLOCK_SIZE, c.compressOffset, b)
    ensures CeilDiv(size, BLOCK_SIZE) < U32
  {
    var chunks := WithBlob(Pieces(c, size), b);
    StartIsProduct(|chunks|, BLOCK_SIZE);
    forall i | 0 <= i < |chunks|
      ensures chunks[i].fileOffset == Start(i, BLOCK_SIZE) < size
      ensures chunks[i].decompressSize == Min(BLOCK_SIZE, size - Start(i, BLOCK_SIZE))
      ensures chunks[i].compressOffset == c.compressOffset + Start(i, BLOCK_SIZE)
    {
      StartIsProduct(i, BLOCK_SIZE);
    }
  }

  lemma UniformMoves(chunks: seq<Chunk>, size: nat, base: nat, b: nat)
    requires Uniform(WithBlob(chunks, 0), size, BLOCK_SIZE, base, 0)
    ensures Uniform(WithBlob(chunks, b), size, BLOCK_SIZE, base, b)
  {
    forall i | 0 <= i < |chunks|
      ensures WithBlob(chunks, b)[i] == WithBlob(chunks, 0)[i].(blobIndex := b)
    {
    }
  }

  /** The chunks an entry's file ends up with. */
  lemma EntryChunks(toc: seq<TocItem>, i: nat, m: BlobMap)
    requires i < |toc| && Contiguous(toc, i) && toc[i].entry.size < 0x20_0000_0000_0000 && |toc| < U32
    ensures var f, e := EntryFile(toc, i, m), toc[i].entry;
            && f.kind.Reg? && f.flags / 8 % 2 == 0
            && Uniform(f.chunks, e.size, BLOCK_SIZE, e.offset, BlobIndexOf(m, e.Path()))
            && |f.chunks| < U32
  {
    hide FileData, BlobIndexOf, Uniform, Pieces;
    var e := toc[i].entry;
    var b := BlobIndexOf(m, e.Path());
    match DataOf(toc, e) {
      case None =>
        assert Uniform([], 0, BLOCK_SIZE, e.offset, b) by { UniformNone(e.offset, b); }
      case Some((size, chunks)) =>
        DataCount(toc, e);
        if |chunks| == 1 && size > BLOCK_SIZE {
          PiecesAreUniform(chunks[0], size, b);
        } else {
          UniformMoves(chunks, size, e.offset, b);
        }
    }
  }

  lemma UniformNone(base: nat, b: nat)
    ensures Uniform([], 0, BLOCK_SIZE, base, b)
  {
  }

  lemma {:induction false} DataCount(toc: seq<TocItem>, e: TocEntry)
    ensures DataOf(toc, e).Some? ==> |DataOf(toc, e).value.1| <= |toc|
  {
    FileDataCount(toc, e.Path());
    FileDataCount(toc, e.linkName.comps);
  }

  lemma {:induction false} FileDataCount(toc: seq<TocItem>, p: Path)
    ensures FileData(toc, p).Some? ==> |FileData(toc, p).value.1| <= |toc|
  {
    if toc != [] { FileDataCount(toc[..|toc| - 1], p); }
  }

  /** End to end: in the image of a well-formed table, the path of a regular entry leads to an inode from which every
      range read gets exactly the bytes `[offset + off, offset + min(off + len, size))` of the entry's own blob, in
      order. */
  lemma ReadsOwnBytes(a: seq<Node>, f: FileTree, toc: seq<TocItem>, m: BlobMap, blobIds: seq<Name>, i: nat,
                      off: nat, len: nat, blobs: Blobs)
    requires Image(a, f) && Describes(f, toc, m) && IsBlobMap(m, toc, blobIds)
    requires WellFormedToc(toc) && i < |toc| && Contiguous(toc, i) && toc[i].entry.Path() != []
    requires forall j :: 0 <= j < |toc| && toc[j].entry.Path() == toc[i].entry.Path() ==>
               toc[j].entry.name == toc[i].entry.name && toc[j].blobId == toc[i].blobId
    requires !toc[i].entry.name.absolute || blobIds[0] == toc[i].blobId
    requires toc[i].blobId in blobs && toc[i].entry.offset + toc[i].entry.size <= |blobs[toc[i].blobId]|
    requires off + len < BLOCK_SIZE * (U32 - 1)
    ensures var e, mapping := toc[i].entry, Mapping(Views(a));
            var ino := mapping.InoFromPathSpec(true, e.Path());
            && ino.Ok? && 1 <= ino.value <= |a|
            && Delivers(blobs, AllocBioDescSpec(SourceOf(mapping.entries[ino.value - 1], blobIds), off, len),
                        toc[i].blobId, e.offset, e.size, off, len)
  {
    hide Image, IsBlobMap, Contiguous, Uniform, DataOf, AllocBioDescSpec, Delivers, EntryFile, BlobIndexOf, FindFile;
    var e := toc[i].entry;
    var q := LookupFinds(a, f, e.Path());
    OwnBlobIff(m, toc, blobIds, i);
    EntryChunks(toc, i, m);
    RegularEntry(toc, i);
    var s := SourceOf(View(a[q]), blobIds);
    FileSource(a[q], EntryFile(toc, i, m), blobIds);
    if len > 0 { WindowGuard(s, off + len); }
    ReadDelivers(s, e.size, e.offset, BlobIndexOf(m, e.Path()), off, len, blobs);
  }

  lemma RegularEntry(toc: seq<TocItem>, i: nat)
    requires i < |toc| && Contiguous(toc, i)
    ensures toc[i].entry.IsNode()
  {
  }

  lemma FileSource(n: Node, f: File, blobIds: seq<Name>)
    requires FileOf(n) == f
    ensures var s := SourceOf(View(n), blobIds);
            s.kind == f.kind && s.chunks == f.chunks && s.hasHole == (f.flags / 8 % 2 == 1) && s.blksize == BLOCK_SIZE
            && s.blobIds == blobIds
  {
  }
}
