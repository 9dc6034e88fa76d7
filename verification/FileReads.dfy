/** The bootstrap file of a table of contents, and reading a file of the table from nothing but its bytes and the
    blobs. */
module FileReads {
  import opened Wrappers
  import opened Bytes
  import opened Nodes
  import opened Trees
  import opened Flatten
  import opened Layout
  import opened Direct
  import opened Readback
  import opened FastIndex
  import opened Toc
  import opened TocBuild
  import opened BlobIndex
  import opened Bootstrap
  import opened RangeRead
  import opened EndToEnd
  import opened ByteLayout
  import opened ImageFile
  import opened SuperBlock
  import opened Utf8

  // ----- what fits the format's fields -----

  predicate AttrsFit(a: Attrs) {
    a.uid < U32 && a.gid < U32 && a.projid < U32 && a.perm < 0x1000 && a.blocks < U64 && a.rdev < U32
  }

  /** A file without extended attributes whose fields fit the format. */
  ghost predicate FileFits(f: File) {
    && AttrsFit(f.attrs) && f.size < 0x20_0000_0000_0000
    && f.flags < U64 && f.flags / 4 % 2 == 0 && f.xattrs == []
    && (f.symlink.Some? <==> f.kind.Symlink?)
    && f.symlinkSize == (if f.symlink.Some? then |f.symlink.value| else 0) < 0x1_0000
    && (!f.kind.Reg? ==> f.chunks == []) && |f.chunks| < U32
    && forall i :: 0 <= i < |f.chunks| ==> OnDisk.ChunkFits(f.chunks[i])
  }

  lemma {:induction false} EachFits(vs: seq<nat>, ws: seq<nat>)
    requires |vs| == |ws| && forall k :: 0 <= k < |vs| ==> vs[k] < Pow256(ws[k])
    ensures OnDisk.AllFit(vs, ws)
  {
    hide Pow256;
    if vs != [] { EachFits(vs[1..], ws[1..]); }
  }

  /** The numbers the builder has given the node fit. */
  predicate NumbersFit(n: Node) {
    && n.inode.parent < U64 && n.inode.ino < U64 && n.inode.nlink < U32
    && n.inode.childIndex < U32 && n.inode.childCount < U32 && n.inode.nameSize == |n.Name()| < 0x1_0000
    && (!n.IsDir() ==> n.inode.childCount == |n.chunks|)
  }

  lemma InodeFieldsFit(n: Node)
    requires FileFits(FileOf(n)) && NumbersFit(n)
    ensures OnDisk.InodeFits(n.inode)
  {
    hide Pow256, OnDisk.AllFit, OnDisk.ChunkFits;
    Pow256Values();
    EachFits(OnDisk.InodeFields(n.inode), OnDisk.INODE_WIDTHS);
  }

  lemma FittingIsEncodable(n: Node)
    requires FileFits(FileOf(n)) && NumbersFit(n)
    ensures Encodable(n)
  {
    hide OnDisk.InodeFits, OnDisk.ChunkFits, AttrsFit;
    InodeFieldsFit(n);
    NoXattrs();
  }

  lemma NoXattrs()
    ensures XAttrs.Storable([]) && XAttrs.XattrSize([]) == 0
  {
  }

  /** Every node of an image whose files fit can be written. */
  lemma ImageEncodable(a: seq<Node>, f: FileTree)
    requires Image(a, f) && forall q :: 0 <= q < |a| ==> FileFits(FileOf(a[q]))
    ensures AllEncodable(a)
  {
    hide Image, FileFits, Encodable, GoodRange, WellPlaced;
    ImageWellPlaced(a, f);
    forall q | 0 <= q < |a|
      ensures Encodable(a[q])
    {
      assert q > 0 ==> WellPlaced(a, q);
      ChunksAreFew(FileOf(a[q]));
      PlacedNumbersFit(a, f, q);
      FittingIsEncodable(a[q]);
    }
  }

  lemma ChunksAreFew(f: File)
    requires FileFits(f)
    ensures |f.chunks| < U32
  {
  }

  lemma PlacedNumbersFit(a: seq<Node>, f: FileTree, q: nat)
    requires Image(a, f) && q < |a| && GoodRange(a, 0) && (q > 0 ==> WellPlaced(a, q))
    requires |FileOf(a[q]).chunks| < U32
    ensures NumbersFit(a[q])
  {
    hide Rep, Ordered;
  }

  // ----- tables whose files fit -----

  /** The numbers of an entry fit, with room for the largest file behind its offset, and it has no attributes. */
  predicate EntryFitsFields(e: TocEntry) {
    && e.uid < U32 && e.gid < U32 && e.size < 0x20_0000_0000_0000 && e.xattrs == []
    && e.offset + 0x20_0000_0000_0000 <= U64 && e.chunkOffset < U64
    && (e.tocType.TocSymlink? ==> |e.linkBytes| < 0x1_0000)
  }

  ghost predicate FieldsFit(toc: seq<TocItem>) {
    |toc| < U32 && forall i :: 0 <= i < |toc| ==> EntryFitsFields(toc[i].entry)
  }

  /** A chunk made from an entry, before blobs are known. */
  predicate FreshChunk(c: Chunk) {
    && c.blobIndex == c.flags == c.compressSize == c.decompressOffset == c.reserved == 0
    && c.decompressSize < U32 && c.compressOffset + 0x20_0000_0000_0000 <= U64 && c.fileOffset < U64
  }

  lemma {:induction false} DataIsFresh(toc: seq<TocItem>, p: Path)
    requires forall i :: 0 <= i < |toc| ==> EntryFitsFields(toc[i].entry)
    ensures FileData(toc, p).Some? ==>
              && FileData(toc, p).value.0 < 0x20_0000_0000_0000 && |FileData(toc, p).value.1| <= |toc|
              && forall i :: 0 <= i < |FileData(toc, p).value.1| ==> FreshChunk(FileData(toc, p).value.1[i])
  {
    if toc != [] {
      DataIsFresh(toc[..|toc| - 1], p);
      assert EntryFitsFields(toc[|toc| - 1].entry);
    }
  }

  lemma ChunkFieldsFit(c: Chunk)
    requires c.blobIndex < U32 && c.flags == c.compressSize == c.decompressOffset == c.reserved == 0
    requires c.decompressSize < U32 && c.compressOffset < U64 && c.fileOffset < U64
    ensures OnDisk.ChunkFits(c)
  {
    hide Pow256, OnDisk.AllFit;
    Pow256Values();
    EachFits(OnDisk.ChunkFields(c), OnDisk.CHUNK_WIDTHS);
  }

  /** The chunks of a file, cut or not, once their blob is set. */
  lemma IndexedChunksFit(n: Node, m: BlobMap)
    requires |n.chunks| < U32 && n.inode.size < 0x20_0000_0000_0000 && BlobIndexOf(m, n.path) < U32
    requires forall i :: 0 <= i < |n.chunks| ==> FreshChunk(n.chunks[i])
    ensures var r := IndexNode(Resplit(n), m);
            |r.chunks| < U32 && forall i :: 0 <= i < |r.chunks| ==> OnDisk.ChunkFits(r.chunks[i])
  {
    hide OnDisk.ChunkFits, BlobIndexOf;
    var r := IndexNode(Resplit(n), m);
    if NeedsSplit(n) { PiecesAreUniform(n.chunks[0], n.inode.size, 0); }
    forall i | 0 <= i < |r.chunks|
      ensures OnDisk.ChunkFits(r.chunks[i])
    {
      if NeedsSplit(n) { PieceBounds(n.chunks[0], n.inode.size, i); }
      ChunkFieldsFit(r.chunks[i]);
    }
  }

  lemma PieceBounds(c: Chunk, size: nat, i: nat)
    requires BLOCK_SIZE < size < 0x20_0000_0000_0000 && i < CeilDiv(size, BLOCK_SIZE)
    ensures i * BLOCK_SIZE <= size
    ensures var p := Pieces(c, size)[i];
            && p.compressOffset == c.compressOffset + i * BLOCK_SIZE && p.fileOffset == i * BLOCK_SIZE
            && p.decompressSize < U32
            && p == c.(decompressSize := p.decompressSize, compressOffset := p.compressOffset,
                       fileOffset := p.fileOffset)
  {
  }

  /** What a node of the tree is like, for its file to fit once it is flattened and indexed. */
  ghost predicate Prepared(n: Node) {
    && AttrsFit(n.inode.attrs) && n.inode.size < 0x20_0000_0000_0000
    && n.inode.flags < U64 && n.inode.flags / 4 % 2 == 0 && n.xattrs == []
    && (n.symlink.Some? <==> n.inode.kind.Symlink?)
    && n.inode.symlinkSize == (if n.symlink.Some? then |n.symlink.value| else 0) < 0x1_0000
    && (!n.inode.kind.Reg? ==> n.chunks == []) && |n.chunks| < U32
    && forall i :: 0 <= i < |n.chunks| ==> FreshChunk(n.chunks[i])
  }

  lemma PreparedFits(n: Node, m: BlobMap)
    requires Prepared(n) && BlobIndexOf(m, n.path) < U32
    ensures FileFits(IndexFile(FileOf(Resplit(n)), m))
  {
    hide OnDisk.ChunkFits, BlobIndexOf, Pieces, AttrsFit;
    IndexedChunksFit(n, m);
    IndexCommutes(Resplit(n), m);
    var r := IndexNode(Resplit(n), m);
    assert FileOf(r) == IndexFile(FileOf(Resplit(n)), m);
  }

  lemma ListedPrepared(t: Tree, toc: seq<TocItem>, j: nat)
    requires FieldsFit(toc) && j < |toc| && toc[j].entry.IsNode() && EntryAt(t, toc, j)
    ensures Prepared(NodeAt(t, toc[j].entry.Path()).value)
  {
    hide NodeAt, FileData, FreshChunk;
    var e := toc[j].entry;
    assert EntryFitsFields(e);
    DataIsFresh(toc, e.Path());
    DataIsFresh(toc, e.linkName.comps);
  }

  lemma DirPrepared(p: Path, e: TocEntry, ino: nat)
    requires EntryFitsFields(e)
    ensures Prepared(Added(NodeOf(NewDir(p, e), ino)))
  {
  }

  lemma NodePrepared(t: Tree, toc: seq<TocItem>, q: Path)
    requires FieldsFit(toc) && TreeOf(t, toc) && q != [] && NodeAt(t, q).Some?
    ensures Prepared(NodeAt(t, q).value)
  {
    hide Shaped, NodeAt, NodeOf, Filled, DataOf, Added, Prepared, EntryAt, EntryFitsFields;
    assert FromEntry(t, toc, q);
    var n := NodeAt(t, q).value;
    if j :| 0 <= j < |toc| && toc[j].entry.IsNode() && q == toc[j].entry.Path() {
      assert EntryAt(t, toc, j);
      ListedPrepared(t, toc, j);
    } else {
      var j :| 0 <= j < |toc| && toc[j].entry.IsNode() && StrictPrefix(q, toc[j].entry.Path())
               && n == Added(NodeOf(NewDir(q, toc[j].entry), n.inode.ino));
      DirPrepared(q, toc[j].entry, n.inode.ino);
    }
  }

  lemma {:induction false} IndexedEverywhere(f: FileTree, m: BlobMap)
    requires Everywhere(f, (g: File) => FileFits(IndexFile(g, m)))
    ensures Everywhere(IndexTree(f, m), FileFits)
    decreases f
  {
    hide FileFits, IndexFile;
    IndexParts(f, m);
    forall i | 0 <= i < |f.children|
      ensures Everywhere(IndexTree(f.children[i], m), FileFits)
    {
      IndexedEverywhere(f.children[i], m);
    }
  }

  lemma BlobIndexesFit(m: BlobMap, toc: seq<TocItem>, blobIds: seq<Name>, path: Path)
    requires IsBlobMap(m, toc, blobIds) && |blobIds| < U32
    ensures BlobIndexOf(m, path) < U32
  {
    var name := RawName(false, path);
    assert match BlobOf(toc, name)
           case None => name !in m
           case Some(id) => name in m && Some(m[name]) == IndexOfBlob(blobIds, id);
  }

  /** Every file of a table's image fits the format. */
  lemma ImageTreeFits(t: Tree, toc: seq<TocItem>, rootNode: Node, m: BlobMap, blobIds: seq<Name>)
    requires FieldsFit(toc) && TreeOf(t, toc) && IsBlobMap(m, toc, blobIds) && |blobIds| < U32
    requires rootNode.path == [] && rootNode.IsDir() && Prepared(rootNode)
    ensures Everywhere(ImageTree(t, rootNode, m), FileFits)
  {
    hide Shaped, Canon, TreeOf, NodeAt, FieldsFit, IsBlobMap, FileFits, Resplit, IndexFile, FileOf, BlobIndexOf,
        Everywhere;
    var r := Tree(AsRoot(rootNode), t.children);
    var p := (g: File) => FileFits(IndexFile(g, m));
    TocTreeShape(t, toc);
    RootReplaced(TreeTrace([], [], map[]), t, r);
    forall q | NodeAt(r, q).Some?
      ensures p(FileOf(Resplit(NodeAt(r, q).value)))
    {
      RootAt(r);
      if q == [] {
        RootPrepared(rootNode);
      } else {
        NodeBelowRoot(t, r, q);
        NodePrepared(t, toc, q);
      }
      var n := NodeAt(r, q).value;
      BlobIndexesFit(m, toc, blobIds, n.path);
      PreparedFits(n, m);
    }
    CanonEverywhere(r, p);
    IndexedEverywhere(Canon(r, true), m);
  }

  lemma RootPrepared(n: Node)
    requires Prepared(n)
    ensures Prepared(AsRoot(n))
  {
    hide AttrsFit, FreshChunk;
  }

  /** Every node that the build leaves for such a table can be written. */
  lemma BuiltEncodable(a: seq<Node>, t: Tree, toc: seq<TocItem>, rootNode: Node, m: BlobMap, blobIds: seq<Name>)
    requires FieldsFit(toc) && TreeOf(t, toc) && IsBlobMap(m, toc, blobIds) && |blobIds| < U32
    requires rootNode.path == [] && rootNode.IsDir() && Prepared(rootNode)
    requires Image(a, ImageTree(t, rootNode, m))
    ensures AllEncodable(a) && forall q :: 0 <= q < |a| ==> a[q].xattrs == []
  {
    hide FieldsFit, TreeOf, IsBlobMap, Prepared, ImageTree, Everywhere, FileFits, Encodable, Rep, Ordered;
    var f := ImageTree(t, rootNode, m);
    ImageTreeFits(t, toc, rootNode, m, blobIds);
    RepEverywhere(a, 0, f, 1, FileFits);
    forall q | 0 <= q < |a|
      ensures FileFits(FileOf(a[q])) && a[q].xattrs == []
    {
      FittingHasNoXattrs(a[q]);
    }
    ImageEncodable(a, f);
  }

  lemma FittingHasNoXattrs(n: Node)
    requires FileFits(FileOf(n))
    ensures n.xattrs == []
  {
    hide AttrsFit, OnDisk.ChunkFits;
  }

  // ----- the file -----

  function IdsOf(es: seq<BlobTable.BlobEntry>): (ids: seq<Name>)
    ensures |ids| == |es|
  {
    seq(|es|, i requires 0 <= i < |es| => es[i].blobId)
  }

  /** Blob ids as they are stored: ASCII text without NUL. */
  ghost predicate PlainId(id: Name) {
    id != [] && 0 !in id && Ascii(id)
  }

  /** The first `n` inodes as the mapped driver decodes them, or the first error. */
  function MappedEntries(image: seq<Byte>, data: seq<nat>, n: nat): Result<seq<Entry>> {
    if n == 0 then Ok([])
    else
      var front :- MappedEntries(image, data, n - 1);
      var last :- MappedEntry(image, data, n);
      Ok(front + [last])
  }

  /** What a reader has after loading a file through the mapped driver: the inodes, and the blob ids. The super block
      says how many inodes there are and where the tables are. */
  function Load(image: seq<Byte>): Result<(Mapping, seq<Name>)> {
    var sb :- LoadSuper(image);
    if !TablesInside(image, sb) then Err(Ebadf)
    else
      var es :- BlobTable.Parse(image[sb.blobTableOffset..][..sb.blobTableSize]);
      var entries :- MappedEntries(image, MappedTable(image, sb.inodeTableOffset, sb.inodeTableEntries),
                                   sb.inodeTableEntries);
      Ok((Mapping(entries), IdsOf(es)))
  }

  lemma {:induction false} AllMapped(image: seq<Byte>, data: seq<nat>, nodes: seq<Node>, n: nat)
    requires n <= |nodes| && forall i :: 0 <= i < n ==> MappedEntry(image, data, i + 1) == Ok(View(nodes[i]))
    ensures MappedEntries(image, data, n) == Ok(Views(nodes)[..n])
  {
    hide MappedEntry;
    if n > 0 {
      AllMapped(image, data, nodes, n - 1);
      assert Views(nodes)[..n] == Views(nodes)[..n - 1] + [View(nodes[n - 1])];
    }
  }

  lemma {:induction false} MappedEntriesAt(image: seq<Byte>, data: seq<nat>, n: nat, k: nat)
    requires MappedEntries(image, data, n).Ok? && k < n
    ensures |MappedEntries(image, data, n).value| == n
    ensures MappedEntry(image, data, k + 1) == Ok(MappedEntries(image, data, n).value[k])
  {
    hide MappedEntry;
    if k < n - 1 { MappedEntriesAt(image, data, n - 1, k); } else { MappedCount(image, data, n - 1); }
  }

  lemma {:induction false} MappedCount(image: seq<Byte>, data: seq<nat>, n: nat)
    requires MappedEntries(image, data, n).Ok?
    ensures |MappedEntries(image, data, n).value| == n
  {
    hide MappedEntry;
    if n > 0 { MappedCount(image, data, n - 1); }
  }

  /** What is loaded is in the file at these places: the super block says where the inode table and the blob table are,
      which lie in the file, and the inode table has an eighth of every record's place. */
  lemma LoadedAt(image: seq<Byte>, k: nat)
    requires Load(image).Ok?
    ensures 0x2000 <= |image| <= 0x8000_0000 && |image| % 8 == 0
    ensures var entries, n, at := Load(image).value.0.entries, U32At(image, 56), U64At(image, 32);
            && |entries| == n && 0x2000 <= at < |image| && at + 4 * n <= |image|
            && 0x2000 <= U64At(image, 48) < |image| && U64At(image, 48) + U32At(image, 64) <= |image|
            && (k < n ==>
                  && 0x2000 < 8 * U32At(image, at + 4 * k) <= |image|
                  && RecordAt(image[8 * U32At(image, at + 4 * k)..], entries[k]))
  {
    hide LoadSuper, MappedEntry, MappedEntries, RecordAt, BlobTable.Parse, MappedTable, U32At, U64At;
    LoadSuperIff(image);
    var sb := LoadSuper(image).value;
    var n, at := sb.inodeTableEntries, sb.inodeTableOffset;
    var data := MappedTable(image, at, n);
    MappedCount(image, data, n);
    if k < n {
      MappedEntriesAt(image, data, n, k);
      MappedAt(image, data, k + 1);
      TableAt(image, at, n, k);
    }
  }

  lemma TableAt(image: seq<Byte>, at: nat, n: nat, k: nat)
    requires |image| >= at + 4 * n && k < n
    ensures MappedTable(image, at, n)[k] == U32At(image, at + 4 * k)
  {
    ReadTableAt(image[at..], n, k);
  }

  /** The super block that `build_super_block` makes for these nodes and this blob table. */
  ghost predicate IsSuperOf(sb: OndiskSuperBlock, nodes: nat, blobSize: nat) {
    && sb.Valid() && sb.version == VERSION_V5 && sb.flags < KNOWN_FLAGS && SuperFits(sb)
    && sb.inodeTableEntries == nodes && sb.inodeTableOffset == SUPERBLOCK_SIZE
    && sb.blobTableOffset == SUPERBLOCK_SIZE + Align(4 * nodes) && sb.blobTableSize == blobSize % U32
  }

  lemma SuperLoads(image: seq<Byte>, sb: OndiskSuperBlock, rest: seq<Byte>, nodes: nat, blobSize: nat)
    requires IsSuperOf(sb, nodes, blobSize) && image == SuperBytes(sb) + rest
    ensures |SuperBytes(sb)| == SUPERBLOCK_SIZE && LoadSuper(image) == Ok(sb)
  {
    hide SuperFits, SuperBytes, SuperFrom, OnDisk.Unpack;
    SuperRoundTrip(sb, rest);
  }

  /** A file larger than a reader takes is refused. */
  lemma TooLarge(image: seq<Byte>, sb: OndiskSuperBlock)
    requires LoadSuper(image) == Ok(sb) && |image| > MAX_METADATA_SIZE
    ensures Load(image) == Err(Ebadf)
  {
    hide LoadSuper;
  }

  lemma NothingAfter(s: seq<Byte>)
    requires LoadRecords(s) != []
    ensures s != []
  {
    hide OnDisk.ReadInode, ReadRest;
    if s == [] { NothingToRead(); }
  }

  /** What was built is loaded. */
  lemma LoadsBack(image: seq<Byte>, sb: OndiskSuperBlock, nodes: seq<Node>, es: seq<BlobTable.BlobEntry>)
    requires IsSuperOf(sb, |nodes|, Align(BlobTable.JoinedSize(es))) && LoadSuper(image) == Ok(sb)
    requires ReadsBack(image, nodes, sb.blobTableOffset, es) && nodes != [] && |image| <= MAX_METADATA_SIZE
    ensures Load(image) == Ok((Mapping(Views(nodes)), IdsOf(es)))
  {
    hide MappedEntry, MappedTable, BlobTable.Parse, LoadRecords, Align, LoadSuper, SuperFits;
    AllMapped(image, MappedTable(image, SUPERBLOCK_SIZE, |nodes|), nodes, |nodes|);
    NothingAfter(image[sb.blobTableOffset..][Align(BlobTable.JoinedSize(es))..]);
    assert Views(nodes)[..|nodes|] == Views(nodes);
  }

  /** The blob table of `build_tree`. */
  method BlobTableOf(blobs: seq<Name>) returns (table: BlobTable.OndiskBlobTable)
    requires forall i :: 0 <= i < |blobs| ==> PlainId(blobs[i])
    ensures fresh(table) && IdsOf(table.entries) == blobs && BlobTable.Loadable(table.entries)
  {
    hide PlainId, BlobTable.Loadable;
    table := new BlobTable.OndiskBlobTable();
    for i := 0 to |blobs|
      invariant fresh(table) && |table.entries| == i
      invariant forall k :: 0 <= k < i ==> table.entries[k] == BlobTable.BlobEntry(blobs[k], 0, 0)
    {
      var _ := table.Add(blobs[i], 0, 0);
    }
    PlainIsLoadable(blobs, table.entries);
  }

  lemma PlainIsLoadable(blobs: seq<Name>, es: seq<BlobTable.BlobEntry>)
    requires |es| == |blobs| && forall i :: 0 <= i < |blobs| ==> PlainId(blobs[i])
    requires forall k :: 0 <= k < |es| ==> es[k] == BlobTable.BlobEntry(blobs[k], 0, 0)
    ensures BlobTable.Loadable(es)
  {
    ZeroIsText();
  }

  lemma ZeroIsText()
    ensures Ascii(Le(0, 4))
  {
    assert Le(0, 4) == [0] + Le(0, 3) && Le(0, 3) == [0] + Le(0, 2) && Le(0, 2) == [0] + Le(0, 1);
    assert Le(0, 1) == [0] + Le(0, 0);
  }

  /** The file of a table: what a reader loads from it is an image that describes the table, and the blob ids. */
  ghost predicate FileOfToc(image: seq<Byte>, toc: seq<TocItem>, blobIds: seq<Name>, nodes: seq<Node>, f: FileTree,
      m: BlobMap) {
    && Load(image) == Ok((Mapping(Views(nodes)), blobIds))
    && Image(nodes, f) && Describes(f, toc, m) && IsBlobMap(m, toc, blobIds)
  }

  /** `Bootstrap::build` and `dump`: a reader loads from the file exactly what was built, if it is not larger than a
      reader takes, and nothing otherwise. */
  method BuildFile(rootNode: Node, toc: seq<TocItem>, blobs: seq<Name>)
    returns (image: seq<Byte>, ghost nodes: seq<Node>, ghost f: FileTree, ghost m: BlobMap)
    requires IsRootNode(rootNode) && Prepared(rootNode)
    requires WellFormedToc(toc) && HasRoot(toc) && ShortNames(toc) && NodeBound(toc) + 2 < 0x4000_0000
    requires FieldsFit(toc) && |blobs| < U32 && forall i :: 0 <= i < |blobs| ==> PlainId(blobs[i])
    requires BlobsListed(toc, blobs)
    ensures |image| <= 0x8000_0000 ==> FileOfToc(image, toc, blobs, nodes, f, m)
    ensures |image| > 0x8000_0000 ==> Load(image) == Err(Ebadf)
  {
    hide WellFormedToc, HasRoot, ShortNames, NodeBound, FieldsFit, Prepared, Image, Describes, IsBlobMap, TreeOf,
        ImageTree, AllEncodable, Encodable, FileHead, ImageBytes, Offset, PlainId, BlobTable.Loadable, ReadsBack, Load,
        LoadSuper, SuperBytes, IsSuperOf;
    var table := BlobTableOf(blobs);
    var b;
    ghost var t;
    b, f, t := BuildImage(rootNode, toc, blobs);
    nodes, m := b.nodes, b.nodePathBlobIdMap;
    BuiltEncodable(nodes, t, toc, rootNode, m, blobs);
    ImageLength(nodes, f);
    var sb := BuildSuperBlock(|b.nodes|, |b.inodeMap|, table.Size());
    SuperIsOf(sb, |nodes|, table.Size());
    SuperLoads(SuperBytes(sb), sb, [], |nodes|, table.Size());
    var data;
    image, data := Dump(SuperBytes(sb), table, b.nodes, false);
    ImageStarts(image, sb, data, table.entries, nodes);
    if |image| <= MAX_METADATA_SIZE {
      BootstrapFileReadsBack(SuperBytes(sb), data, table.entries, nodes);
      BlobTableThere(sb, data, |nodes|, table.Size());
      LoadsBack(image, sb, nodes, table.entries);
    } else {
      TooLarge(image, sb);
    }
  }

  lemma ImageLength(a: seq<Node>, f: FileTree)
    requires Image(a, f)
    ensures |a| < 0x4000_0000
  {
    hide Rep, Ordered;
  }

  /** The super block that was built fits its fields and is valid. */
  lemma SuperIsOf(sb: OndiskSuperBlock, nodes: nat, blobSize: nat)
    requires 0 < nodes < 0x4000_0000
    requires sb.magic == 0x5241_4653 && sb.version == 0x500 && sb.sbSize == 0x2000 && sb.blockSize == 0x40_0000
    requires sb.flags == 0x19 && sb.inodesCount == nodes
    requires sb.inodeTableEntries == nodes % U32 && sb.blobTableSize == blobSize % U32
    requires sb.inodeTableOffset == SUPERBLOCK_SIZE && sb.prefetchTableEntries == 0
    requires sb.blobTableOffset == sb.prefetchTableOffset == SUPERBLOCK_SIZE + Align(4 * (nodes % U32))
    ensures IsSuperOf(sb, nodes, blobSize)
  {
    hide Pow256, OnDisk.AllFit;
    Pow256Values();
    EachFits(SuperFields(sb), SUPER_WIDTHS);
  }

  lemma ImageStarts(image: seq<Byte>, sb: OndiskSuperBlock, data: seq<nat>, es: seq<BlobTable.BlobEntry>,
      nodes: seq<Node>)
    requires AllEncodable(nodes) && image == ImageBytes(FileHead(SuperBytes(sb), data, es), nodes)
    requires exists n, size :: IsSuperOf(sb, n, size)
    ensures LoadSuper(image) == Ok(sb)
  {
    hide SuperBytes, LoadSuper, IsSuperOf, AllEncodable, AllNodes, TableBytes, BlobTable.TableBytes;
    var rest := (TableBytes(data) + BlobTable.TableBytes(es)) + AllNodes(nodes);
    assert image == SuperBytes(sb) + rest;
    var n, size :| IsSuperOf(sb, n, size);
    SuperLoads(image, sb, rest, n, size);
  }

  lemma BlobTableThere(sb: OndiskSuperBlock, data: seq<nat>, n: nat, blobSize: nat)
    requires IsSuperOf(sb, n, blobSize) && |data| == Align(4 * n) / 4
    ensures sb.blobTableOffset == BlobTableOffset(data)
  {
    hide SuperFits, Align;
    FourTimes(4 * n);
  }

  /** From the file's bytes and the blobs alone: the path of a regular entry leads to an inode from which every range
      read gets exactly the entry's bytes of its blob. */
  lemma ReadsFromFile(image: seq<Byte>, toc: seq<TocItem>, blobIds: seq<Name>, nodes: seq<Node>, f: FileTree,
      m: BlobMap, i: nat, off: nat, len: nat, blobs: Blobs)
    requires FileOfToc(image, toc, blobIds, nodes, f, m)
    requires WellFormedToc(toc) && i < |toc| && Contiguous(toc, i) && toc[i].entry.Path() != []
    requires forall j :: 0 <= j < |toc| && toc[j].entry.Path() == toc[i].entry.Path() ==>
               toc[j].entry.name == toc[i].entry.name && toc[j].blobId == toc[i].blobId
    requires !toc[i].entry.name.absolute || blobIds[0] == toc[i].blobId
    requires toc[i].blobId in blobs && toc[i].entry.offset + toc[i].entry.size <= |blobs[toc[i].blobId]|
    requires off + len < BLOCK_SIZE * (U32 - 1)
    ensures var loaded, e := Load(image), toc[i].entry;
            && loaded.Ok?
            && var (mapping, ids) := loaded.value;
               var ino := mapping.InoFromPathSpec(true, e.Path());
               && ino.Ok? && 1 <= ino.value <= |mapping.entries|
               && Delivers(blobs, AllocBioDescSpec(SourceOf(mapping.entries[ino.value - 1], ids), off, len),
                           toc[i].blobId, e.offset, e.size, off, len)
  {
    hide Image, Describes, IsBlobMap, WellFormedToc, Contiguous, Load, Delivers, AllocBioDescSpec;
    ReadsOwnBytes(nodes, f, toc, m, blobIds, i, off, len, blobs);
  }
}
