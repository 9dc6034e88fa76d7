/** Which blob each file's chunks are in: the last pass of `Bootstrap::build_tree`. */
module BlobIndex {
  import opened Wrappers
  import opened Bytes
  import opened Nodes
  import opened Trees
  import opened Flatten
  import opened Layout
  import opened Readback
  import opened Toc

  /** `node_path_blob_id_map`: from names as the table writes them to positions in the blob table. */
  type BlobMap = map<RawName, nat>

  /** The lookup of `build_node_blob_index`: paths lose their leading `/`, and an unknown name reads as blob 0. */
  function BlobIndexOf(m: BlobMap, path: Path): nat {
    if RawName(false, path) in m then m[RawName(false, path)] else 0
  }

  function WithBlob(chunks: seq<Chunk>, b: nat): (r: seq<Chunk>)
    ensures |r| == |chunks|
  {
    seq(|chunks|, i requires 0 <= i < |chunks| => chunks[i].(blobIndex := b))
  }

  function IndexNode(n: Node, m: BlobMap): Node {
    n.(chunks := WithBlob(n.chunks, BlobIndexOf(m, n.path)))
  }

  function IndexNodes(a: seq<Node>, m: BlobMap): (b: seq<Node>)
    ensures |b| == |a|
  {
    seq(|a|, i requires 0 <= i < |a| => IndexNode(a[i], m))
  }

  function IndexFile(f: File, m: BlobMap): File {
    f.(chunks := WithBlob(f.chunks, BlobIndexOf(m, f.path)))
  }

  function IndexTree(f: FileTree, m: BlobMap): (g: FileTree)
    ensures FileSize(g) == FileSize(f)
    decreases f, 0
  {
    FileTree(IndexFile(f.file, m), IndexTrees(f.children, m))
  }

  function IndexTrees(fs: seq<FileTree>, m: BlobMap): (gs: seq<FileTree>)
    ensures |gs| == |fs| && FileSizeAll(gs) == FileSizeAll(fs)
    ensures forall i :: 0 <= i < |fs| ==> gs[i] == IndexTree(fs[i], m)
    decreases fs, 1
  {
    if fs == [] then []
    else
      var rest := IndexTrees(fs[1..], m);
      assert ([IndexTree(fs[0], m)] + rest)[1..] == rest;
      [IndexTree(fs[0], m)] + rest
  }

  lemma IndexCommutes(n: Node, m: BlobMap)
    ensures FileOf(IndexNode(n, m)) == IndexFile(FileOf(n), m)
    ensures IndexNode(n, m).inode == n.inode && IndexNode(n, m).path == n.path
    ensures |IndexFile(FileOf(n), m).chunks| == |n.chunks|
  {
  }

  lemma {:induction false} CountDirsIndexed(fs: seq<FileTree>, m: BlobMap)
    ensures CountDirs(IndexTrees(fs, m)) == CountDirs(fs)
  {
    if fs != [] {
      assert IndexTrees(fs, m)[1..] == IndexTrees(fs[1..], m);
      CountDirsIndexed(fs[1..], m);
    }
  }

  /** Setting blob indexes does not move anything. */
  lemma {:induction false} RepIndexed(a: seq<Node>, k: nat, f: FileTree, base: nat, m: BlobMap)
    requires Rep(a, k, f, base)
    ensures Rep(IndexNodes(a, m), k, IndexTree(f, m), base)
    decreases f, 0
  {
    hide IndexNode, IndexFile, FileOf, RepKids, CountDirs;
    IndexCommutes(a[k], m);
    FileKind(f.file, m);
    CountDirsIndexed(f.children, m);
    RepKidsIndexed(a, k, f.children, base, base + |f.children|, m);
  }

  lemma FileKind(f: File, m: BlobMap)
    ensures IndexFile(f, m).kind == f.kind && IndexFile(f, m).path == f.path && |IndexFile(f, m).chunks| == |f.chunks|
  {
  }

  lemma {:induction false} RepKidsIndexed(a: seq<Node>, k: nat, fs: seq<FileTree>, pos: nat, base: nat, m: BlobMap)
    requires RepKids(a, k, fs, pos, base) && k < |a|
    ensures RepKids(IndexNodes(a, m), k, IndexTrees(fs, m), pos, base)
    decreases fs, 1
  {
    hide IndexNode, IndexTree, Rep, FileOf;
    if fs != [] {
      IndexCommutes(a[k], m);
      IndexCommutes(a[pos], m);
      RepIndexed(a, pos, fs[0], base, m);
      RepKidsIndexed(a, k, fs[1..], pos + 1, base + FileSizeAll(fs[0].children), m);
      assert IndexTrees(fs, m)[1..] == IndexTrees(fs[1..], m);
      assert FileSizeAll(IndexTree(fs[0], m).children) == FileSizeAll(fs[0].children);
    }
  }

  lemma IndexName(f: FileTree, m: BlobMap)
    ensures var g := IndexTree(f, m);
            FileName(g.file) == FileName(f.file) && g.file.path == f.file.path && g.file.kind == f.file.kind
  {
  }

  lemma IndexParts(f: FileTree, m: BlobMap)
    ensures var g := IndexTree(f, m);
            |g.children| == |f.children| && forall i :: 0 <= i < |f.children| ==>
                g.children[i] == IndexTree(f.children[i], m)
  {
    hide IndexFile;
  }

  lemma {:induction false} OrderedIndexed(f: FileTree, m: BlobMap)
    requires Ordered(f)
    ensures Ordered(IndexTree(f, m))
    decreases f
  {
    hide FileName, IndexFile, Less, IndexTree, IndexTrees;
    var g := IndexTree(f, m);
    IndexName(f, m);
    IndexParts(f, m);
    forall i | 0 <= i < |g.children|
      ensures FileName(g.children[i].file) == FileName(f.children[i].file)
      ensures g.children[i].file.path == f.children[i].file.path && Ordered(g.children[i])
    {
      IndexName(f.children[i], m);
      OrderedIndexed(f.children[i], m);
    }
  }

  lemma {:induction false} ChildFileIndexed(fs: seq<FileTree>, m: BlobMap, name: Name)
    ensures ChildFile(IndexTrees(fs, m), name) == ChildFile(fs, name)
  {
    hide FileName, IndexTree, IndexFile;
    var gs := IndexTrees(fs, m);
    forall i | 0 <= i < |fs|
      ensures FileName(gs[i].file) == FileName(fs[i].file)
    {
      IndexName(fs[i], m);
    }
  }

  /** Files are found where they were, with their blob set. */
  lemma {:induction false} FindIndexed(f: FileTree, m: BlobMap, p: Path)
    ensures FindFile(IndexTree(f, m), p)
            == match FindFile(f, p) case Some(h) => Some(IndexTree(h, m)) case None => None
    decreases |p|
  {
    if p != [] {
      ChildFileIndexed(f.children, m, p[0]);
      match ChildFile(f.children, p[0]) {
        case Some(i) => FindIndexed(f.children[i], m, p[1..]);
        case None =>
      }
    }
  }

  /** An image stays one when its blob indexes are set. */
  lemma ImageIndexed(a: seq<Node>, f: FileTree, m: BlobMap)
    requires Image(a, f)
    ensures Image(IndexNodes(a, m), IndexTree(f, m))
  {
    hide Rep, Ordered, IndexTree;
    RepIndexed(a, 0, f, 1, m);
    OrderedIndexed(f, m);
    IndexName(f, m);
    forall q | 0 <= q < |a|
      ensures IndexNodes(a, m)[q].inode == a[q].inode && IndexNodes(a, m)[q].Name() == a[q].Name()
    {
      IndexCommutes(a[q], m);
    }
  }

  // ----- the map -----

  /** `blob_id_map`: the last position of a blob id. */
  function IndexOfBlob(blobIds: seq<Name>, id: Name): (r: Option<nat>)
    ensures r.Some? ==> r.value < |blobIds| && blobIds[r.value] == id
    ensures r.None? ==> id !in blobIds
  {
    if blobIds == [] then None
    else if blobIds[|blobIds| - 1] == id then Some(|blobIds| - 1)
    else IndexOfBlob(blobIds[..|blobIds| - 1], id)
  }

  /** The blob id the table gives to a name, by its last item of that name. */
  function BlobOf(toc: seq<TocItem>, name: RawName): Option<Name> {
    if toc == [] then None
    else if toc[|toc| - 1].entry.name == name then Some(toc[|toc| - 1].blobId)
    else BlobOf(toc[..|toc| - 1], name)
  }

  /** The map of `build_tree`. */
  ghost predicate IsBlobMap(m: BlobMap, toc: seq<TocItem>, blobIds: seq<Name>) {
    && (forall i :: 0 <= i < |toc| ==> toc[i].blobId in blobIds)
    && forall name ::
         match BlobOf(toc, name)
         case None => name !in m
         case Some(id) => name in m && Some(m[name]) == IndexOfBlob(blobIds, id)
  }

  /** Every item's blob is among the blobs of the image. */
  ghost predicate BlobsListed(toc: seq<TocItem>, blobIds: seq<Name>) {
    forall i :: 0 <= i < |toc| ==> toc[i].blobId in blobIds
  }

  method BuildBlobMap(toc: seq<TocItem>, blobIds: seq<Name>) returns (m: BlobMap)
    requires BlobsListed(toc, blobIds)
    ensures IsBlobMap(m, toc, blobIds)
  {
    var blobIdMap: map<Name, nat> := map[];
    for i := 0 to |blobIds|
      invariant forall id :: IndexOfBlob(blobIds[..i], id) == if id in blobIdMap then Some(blobIdMap[id]) else None
    {
      assert blobIds[..i + 1][..i] == blobIds[..i];
      blobIdMap := blobIdMap[blobIds[i] := i];
    }
    assert blobIds[..|blobIds|] == blobIds;
    m := map[];
    for i := 0 to |toc|
      invariant IsBlobMap(m, toc[..i], blobIds)
    {
      assert toc[..i + 1][..i] == toc[..i];
      assert IndexOfBlob(blobIds, toc[i].blobId).Some?;
      m := m[toc[i].entry.name := blobIdMap[toc[i].blobId]];
    }
    assert toc[..|toc|] == toc;
  }

  lemma {:induction false} BlobOfSame(toc: seq<TocItem>, i: nat)
    requires i < |toc|
    requires forall j :: 0 <= j < |toc| && toc[j].entry.name == toc[i].entry.name ==> toc[j].blobId == toc[i].blobId
    ensures BlobOf(toc, toc[i].entry.name) == Some(toc[i].blobId)
  {
    if i < |toc| - 1 {
      var front := toc[..|toc| - 1];
      assert forall j :: 0 <= j < |front| ==> front[j] == toc[j];
      BlobOfSame(front, i);
    }
  }

  lemma {:induction false} BlobOfNone(toc: seq<TocItem>, name: RawName)
    requires forall j :: 0 <= j < |toc| ==> toc[j].entry.name != name
    ensures BlobOf(toc, name) == None
  {
    if toc != [] { BlobOfNone(toc[..|toc| - 1], name); }
  }

  /** A file whose table items agree on its blob gets that blob exactly when its name is relative, or the first blob
      is its own anyway: the lookup strips the `/` that an absolute name keeps. */
  lemma OwnBlobIff(m: BlobMap, toc: seq<TocItem>, blobIds: seq<Name>, i: nat)
    requires IsBlobMap(m, toc, blobIds) && i < |toc|
    requires forall j :: 0 <= j < |toc| && toc[j].entry.Path() == toc[i].entry.Path() ==>
               toc[j].entry.name == toc[i].entry.name && toc[j].blobId == toc[i].blobId
    ensures BlobIndexOf(m, toc[i].entry.Path()) < |blobIds|
    ensures blobIds[BlobIndexOf(m, toc[i].entry.Path())] == toc[i].blobId
            <==> !toc[i].entry.name.absolute || blobIds[0] == toc[i].blobId
  {
    var e := toc[i].entry;
    assert toc[i].blobId in blobIds;
    BlobOfSame(toc, i);
    if e.name.absolute {
      BlobOfNone(toc, RawName(false, e.Path()));
      assert RawName(false, e.Path()) !in m;
    } else {
      assert e.name == RawName(false, e.Path());
    }
  }
}
