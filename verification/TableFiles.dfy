/** What a reader of a table's image sees of each entry, in the entry's own terms. */
module TableFiles {
  import opened Wrappers
  import opened Bytes
  import opened Nodes
  import opened Toc
  import opened TocData
  import opened TocBuild
  import opened Trees
  import opened Flatten
  import opened Layout
  import opened FastIndex
  import opened BlobIndex
  import opened RangeRead
  import opened Direct
  import opened Readback
  import opened EndToEnd
  import opened FileReads

  // ----- files cut into chunk entries -----

  ghost predicate Ascends(js: seq<nat>) {
    forall k, l :: 0 <= k < l < |js| ==> js[k] < js[l]
  }

  lemma LastIsLargest(js: seq<nat>)
    requires Ascends(js) && js != []
    ensures var m := |js| - 1;
            && Ascends(js[..m]) && (forall j :: j in js ==> j <= js[m])
            && forall j: nat :: j in js[..m] <==> j in js && j != js[m]
  {
    var m := |js| - 1;
    forall j: nat
      ensures j in js[..m] <==> j in js && j != js[m]
    {
      if j in js && j != js[m] {
        var k :| 0 <= k < |js| && js[k] == j;
        assert js[..m][k] == j;
      }
    }
  }

  /** Ascending sequences with the same members are the same. */
  lemma {:induction false} SameMembers(js: seq<nat>, ks: seq<nat>)
    requires Ascends(js) && Ascends(ks) && forall j: nat :: j in js <==> j in ks
    ensures js == ks
    decreases |js|
  {
    hide Ascends;
    assert js != [] ==> js[0] in ks;
    assert ks != [] ==> ks[0] in js;
    if js != [] {
      var m, n := |js| - 1, |ks| - 1;
      LastIsLargest(js);
      LastIsLargest(ks);
      assert js[m] in js && ks[n] in ks;
      SameMembers(js[..m], ks[..n]);
      assert js == js[..m] + [js[m]] && ks == ks[..n] + [ks[n]];
    }
  }

  /** Items `js` are all that the table has for the data of the regular entry `i`, which comes first: consecutive pieces
      of 4 MiB, the last of which may be shorter and may have its size left out. */
  ghost predicate CutEvenly(toc: seq<TocItem>, i: nat, js: seq<nat>) {
    && i < |toc| && js != [] && js[0] == i && Ascends(js)
    && var e, last := toc[i].entry, |js| - 1;
       && e.tocType.TocReg? && last * 0x40_0000 < e.size <= (last + 1) * 0x40_0000
       && (forall j: nat :: j in js <==> j < |toc| && toc[j].entry.name.comps == e.name.comps
                                         && (toc[j].entry.tocType.TocReg? || toc[j].entry.tocType.TocChunk?))
       && (forall k: nat :: k < |js| ==> js[k] < |toc| && PieceOf(toc[js[k]].entry, e, k, last))
       && (toc[js[last]].entry.chunkSize == 0 ==> forall r :: i < r < js[last] ==> !toc[r].entry.tocType.TocReg?)
  }

  /** Entry `c` is the `k`-th piece of the file of `e`, whose last piece is `last`. */
  ghost predicate PieceOf(c: TocEntry, e: TocEntry, k: nat, last: nat) {
    && c.chunkOffset == k * 0x40_0000 && c.offset == e.offset + k * 0x40_0000
    && (k > 0 ==> c.tocType.TocChunk? && c.size == 0)
    && (k < last ==> c.chunkSize == 0x40_0000)
    && (k == last ==> c.chunkSize == e.size - last * 0x40_0000 || c.chunkSize == 0)
  }

  /** Each piece describes its 4 MiB, or what is left. */
  lemma PieceSize(toc: seq<TocItem>, i: nat, js: seq<nat>, k: nat)
    requires CutEvenly(toc, i, js) && k < |js| && toc[i].entry.size < 0x20_0000_0000_0000
    ensures js[k] < |toc| && 0 <= k * 0x40_0000 < toc[i].entry.size
    ensures forall n: nat :: ItemSize(toc, js[k], n) <==> n == Min(0x40_0000, toc[i].entry.size - k * 0x40_0000)
  {
    var e, c, last := toc[i].entry, toc[js[k]].entry, |js| - 1;
    assert PieceOf(c, e, k, last);
    if k < last { assert (k + 1) * 0x40_0000 <= last * 0x40_0000; }
    if k > 0 && c.chunkSize == 0 {
      assert js[0] < js[k];
      assert RegBefore(toc, js[k], i);
      forall r: nat | RegBefore(toc, js[k], r)
        ensures r == i
      {
      }
    }
  }

  /** They are the data items of the path. */
  lemma PiecesAreItems(toc: seq<TocItem>, i: nat, js: seq<nat>)
    requires CutEvenly(toc, i, js) && toc[i].entry.size < 0x20_0000_0000_0000
    ensures DataItems(toc, toc[i].entry.Path(), js)
  {
    hide ItemSize, PieceOf;
    forall k: nat | k < |js|
      ensures js[k] < |toc| && DataItem(toc, js[k], toc[i].entry.Path())
    {
      PieceSize(toc, i, js, k);
      assert js[k] in js;
    }
  }

  lemma OneList(toc: seq<TocItem>, p: Path, js: seq<nat>, ks: seq<nat>)
    requires DataItems(toc, p, js) && DataItems(toc, p, ks)
    ensures js == ks
  {
    hide DataItem;
    SameMembers(js, ks);
  }

  /** The numbers of the chunks of a path, from its data items. */
  lemma ChunksOf(toc: seq<TocItem>, p: Path, js: seq<nat>)
    requires DataItems(toc, p, js)
    ensures FileData(toc, p).None? <==> js == []
    ensures js != [] ==> var (size, chunks) := FileData(toc, p).value; DataOfItems(toc, js, size, chunks)
  {
    hide DataItems, DataOfItems, FileData;
    var ks := ChunksInOrder(toc, p);
    OneList(toc, p, js, ks);
  }

  lemma PieceChunk(toc: seq<TocItem>, i: nat, js: seq<nat>, k: nat, c: Chunk)
    requires CutEvenly(toc, i, js) && k < |js| && toc[i].entry.size < 0x20_0000_0000_0000
    requires ChunkOfItem(toc, js[k], c)
    ensures var e := toc[i].entry;
            && c.fileOffset == Start(k, BLOCK_SIZE) < e.size && c.compressOffset == e.offset + Start(k, BLOCK_SIZE)
            && c.decompressSize == Min(BLOCK_SIZE, e.size - Start(k, BLOCK_SIZE)) && c.blobIndex == 0
  {
    hide ItemSize;
    PieceSize(toc, i, js, k);
    StartIsProduct(k, BLOCK_SIZE);
    assert PieceOf(toc[js[k]].entry, toc[i].entry, k, |js| - 1);
  }

  lemma CutSize(toc: seq<TocItem>, i: nat, js: seq<nat>, size: nat, chunks: seq<Chunk>)
    requires CutEvenly(toc, i, js) && DataOfItems(toc, js, size, chunks)
    ensures size == toc[i].entry.size && |chunks| == |js| && (size > BLOCK_SIZE ==> |chunks| > 1)
    ensures size <= Start(|chunks|, BLOCK_SIZE)
  {
    forall k: nat | 0 < k < |js|
      ensures js[k] < |toc| && !toc[js[k]].entry.tocType.TocReg?
    {
      assert PieceOf(toc[js[k]].entry, toc[i].entry, k, |js| - 1);
    }
    assert js[0] in js;
    assert LastRegItem(toc, js, 0);
    StartIsProduct(|chunks|, BLOCK_SIZE);
  }

  /** A file that is cut evenly is stored contiguously. */
  lemma CutIsContiguous(toc: seq<TocItem>, i: nat, js: seq<nat>)
    requires CutEvenly(toc, i, js) && toc[i].entry.size < 0x20_0000_0000_0000
    ensures Contiguous(toc, i)
  {
    hide FileData, DataItems, ChunkOfItem, Start, CutEvenly;
    CutIsRegular(toc, i, js);
    var e := toc[i].entry;
    PiecesAreItems(toc, i, js);
    ChunksOf(toc, e.Path(), js);
    var (size, chunks) := FileData(toc, e.Path()).value;
    CutSize(toc, i, js, size, chunks);
    forall k | 0 <= k < |chunks|
      ensures var c := WithBlob(chunks, 0)[k];
              && c.fileOffset == Start(k, BLOCK_SIZE) < size
              && c.decompressSize == Min(BLOCK_SIZE, size - Start(k, BLOCK_SIZE))
              && c.compressOffset == e.offset + Start(k, BLOCK_SIZE) && c.blobIndex == 0
    {
      PieceChunk(toc, i, js, k, chunks[k]);
    }
  }

  lemma CutIsRegular(toc: seq<TocItem>, i: nat, js: seq<nat>)
    requires CutEvenly(toc, i, js)
    ensures i < |toc| && toc[i].entry.tocType.TocReg? && js != []
  {
  }

  // ----- what an inode says of its entry -----

  /** The owner, the permission bits, the kind, the link and the attributes are those of the entry. */
  ghost predicate Shows(i: Inode, symlink: Option<Name>, xattrs: seq<(Name, seq<Byte>)>, e: TocEntry) {
    && i.attrs.uid == e.uid && i.attrs.gid == e.gid && i.attrs.perm == e.mode % 0x1000
    && i.attrs.projid == 0 && i.attrs.blocks == 0 && i.attrs.rdev == 0xFFFF_FFFF
    && (i.kind.Dir? <==> e.tocType.TocDir?) && (i.kind.Symlink? <==> e.tocType.TocSymlink?)
    && (e.tocType.TocSymlink? ==> symlink == Some(e.linkBytes) && i.symlinkSize == |e.linkBytes| % 0x1_0000)
    && (!e.tocType.TocSymlink? ==> symlink == None && i.symlinkSize == 0)
    && (i.flags % 2 == 1 <==> e.tocType.TocSymlink?) && (i.flags / 2 % 2 == 1 <==> e.tocType.TocHardlink?)
    && (i.flags / 4 % 2 == 1 <==> e.xattrs != []) && i.flags < 8
    && xattrs == e.xattrs
  }

  /** A directory that no entry describes: mode 0755, the owner of the first entry below it, and nothing else. */
  ghost predicate ShowsMissing(i: Inode, symlink: Option<Name>, xattrs: seq<(Name, seq<Byte>)>, below: TocEntry) {
    && i.kind.Dir? && i.attrs.perm == 0x1ED && i.attrs.uid == below.uid && i.attrs.gid == below.gid
    && i.attrs.projid == 0 && i.attrs.blocks == 0 && i.attrs.rdev == 0xFFFF_FFFF
    && i.size == 0 && i.flags == 0 && symlink == None && i.symlinkSize == 0 && xattrs == []
  }

  /** The path whose data items an entry's data comes from. */
  function DataPath(e: TocEntry): Path {
    if e.tocType.TocHardlink? then e.linkName.comps else e.name.comps
  }

  /** The size and the chunks of an entry in the tree. */
  ghost predicate ShowsData(size: nat, chunks: seq<Chunk>, toc: seq<TocItem>, e: TocEntry) {
    && (e.tocType.TocSymlink? ==> size == |e.linkBytes| % 0x1_0000 && chunks == [])
    && (e.tocType.TocDir? ==> size == e.size && chunks == [])
    && (e.tocType.TocReg? || e.tocType.TocHardlink? ==>
          forall js :: DataItems(toc, DataPath(e), js) ==>
            if js == [] then size == e.size && chunks == [] else DataOfItems(toc, js, size, chunks))
  }

  /** In the image, a file of more than 4 MiB in one chunk is cut into pieces of 4 MiB; every chunk has the file's
      blob. */
  ghost predicate InImage(raw: seq<Chunk>, size: nat, chunks: seq<Chunk>, b: nat) {
    if |raw| == 1 && size > 0x40_0000 then
      && (|chunks| - 1) * 0x40_0000 < size <= |chunks| * 0x40_0000
      && forall k :: 0 <= k < |chunks| ==>
           0 <= size - k * 0x40_0000
           && chunks[k] == raw[0].(blobIndex := b, fileOffset := k * 0x40_0000,
                                   compressOffset := raw[0].compressOffset + k * 0x40_0000,
                                   decompressSize := Min(0x40_0000, size - k * 0x40_0000))
    else |chunks| == |raw| && forall k :: 0 <= k < |chunks| ==> chunks[k] == raw[k].(blobIndex := b)
  }

  /** The size and the chunks of an entry in the image. */
  ghost predicate ShowsChunks(size: nat, chunks: seq<Chunk>, toc: seq<TocItem>, e: TocEntry, b: nat) {
    exists raw :: ShowsData(size, raw, toc, e) && InImage(raw, size, chunks, b)
  }

  lemma NodeShows(e: TocEntry, ino: nat, data: Option<(nat, seq<Chunk>)>)
    requires e.IsNode()
    ensures var n := Added(Filled(NodeOf(e, ino), data));
            && Shows(n.inode, n.symlink, n.xattrs, e) && n.path == e.name.comps && n.inode.nlink == e.numLink
            && n.overlay.UpperAddition? && n.inode.ino == n.realIno == ino && n.dev == 0xFFFF_FFFF_FFFF_FFFF
            && (n.path != [] ==> n.inode.nameSize == |n.path[|n.path| - 1]| % 0x1_0000)
  {
  }

  lemma NodeData(toc: seq<TocItem>, e: TocEntry, ino: nat)
    requires e.IsNode()
    ensures var n := Filled(NodeOf(e, ino), DataOf(toc, e)); ShowsData(n.inode.size, n.chunks, toc, e)
  {
    hide FileData, DataItems, DataOfItems;
    var n := Filled(NodeOf(e, ino), DataOf(toc, e));
    forall js | (e.tocType.TocReg? || e.tocType.TocHardlink?) && DataItems(toc, DataPath(e), js)
      ensures if js == [] then n.inode.size == e.size && n.chunks == []
              else DataOfItems(toc, js, n.inode.size, n.chunks)
    {
      ChunksOf(toc, DataPath(e), js);
    }
  }

  /** In the tree of a table, the node at an entry's path is that entry's. */
  lemma TreeShows(t: Tree, toc: seq<TocItem>, i: nat)
    requires TreeOf(t, toc) && i < |toc| && toc[i].entry.IsNode() && toc[i].entry.Path() != []
    ensures var e := toc[i].entry;
            && NodeAt(t, e.name.comps).Some?
            && var n := NodeAt(t, e.name.comps).value;
               && Shows(n.inode, n.symlink, n.xattrs, e) && ShowsData(n.inode.size, n.chunks, toc, e)
               && n.path == e.name.comps && n.inode.nlink == e.numLink && n.overlay.UpperAddition?
  {
    hide NodeAt, Shaped, NodeOf, Filled, DataOf, ShowsData, Shows;
    var e := toc[i].entry;
    assert EntryAt(t, toc, i);
    var n := NodeAt(t, e.Path()).value;
    NodeShows(e, n.inode.ino, DataOf(toc, e));
    NodeData(toc, e, n.inode.ino);
  }

  ghost predicate Listed(toc: seq<TocItem>, q: Path) {
    exists j :: 0 <= j < |toc| && toc[j].entry.IsNode() && toc[j].entry.name.comps == q
  }

  lemma DirShows(q: Path, e: TocEntry, ino: nat)
    ensures var n := Added(NodeOf(NewDir(q, e), ino));
            && ShowsMissing(n.inode, n.symlink, n.xattrs, e) && n.chunks == []
            && n.path == q && n.inode.nlink == 2 && n.overlay.UpperAddition?
  {
  }

  /** Any other node of the tree is a directory made for the first entry below it. */
  lemma TreeShowsMissing(t: Tree, toc: seq<TocItem>, q: Path) returns (j: nat)
    requires TreeOf(t, toc) && q != [] && NodeAt(t, q).Some? && !Listed(toc, q)
    ensures FirstBelow(toc, j, q)
    ensures var n := NodeAt(t, q).value;
            && ShowsMissing(n.inode, n.symlink, n.xattrs, toc[j].entry) && n.chunks == []
            && n.path == q && n.inode.nlink == 2 && n.overlay.UpperAddition?
  {
    hide NodeAt, Shaped, NodeOf, NewDir, EntryAt, ShowsMissing, Added;
    assert FromEntry(t, toc, q);
    var n := NodeAt(t, q).value;
    j :| 0 <= j < |toc| && toc[j].entry.IsNode()
         && (q == toc[j].entry.Path()
             || (FirstBelow(toc, j, q) && n == Added(NodeOf(NewDir(q, toc[j].entry), n.inode.ino))));
    DirShows(q, toc[j].entry, n.inode.ino);
  }

  lemma {:induction false} PrefixFound(t: Tree, p: Path, l: nat)
    requires l <= |p| && Find(t, p).Some?
    ensures Find(t, p[..l]).Some?
    decreases |p|
  {
    if l > 0 {
      assert p[..l][0] == p[0] && p[..l][1..] == p[1..][..l - 1];
      PrefixFound(t.children[ChildNamed(t.children, p[0]).value], p[1..], l - 1);
    }
  }

  /** The tree has nodes at the paths of the entries, at the paths above them, and nowhere else. */
  lemma TreePaths(t: Tree, toc: seq<TocItem>, q: Path)
    requires TreeOf(t, toc) && q != []
    ensures NodeAt(t, q).Some? <==> Listed(toc, q) || exists j :: FirstBelow(toc, j, q)
  {
    hide Find, Shaped, NodeOf;
    if NodeAt(t, q).Some? && !Listed(toc, q) {
      var j := TreeShowsMissing(t, toc, q);
    }
    if Listed(toc, q) {
      var j :| 0 <= j < |toc| && toc[j].entry.IsNode() && toc[j].entry.name.comps == q;
      assert EntryAt(t, toc, j);
    }
    if j: nat :| FirstBelow(toc, j, q) {
      assert EntryAt(t, toc, j);
      PrefixFound(t, toc[j].entry.Path(), |q|);
    }
  }

  // ----- in the image -----

  lemma PiecesInImage(c: Chunk, size: nat, b: nat)
    requires 0x40_0000 < size < 0x20_0000_0000_0000
    ensures InImage([c], size, WithBlob(Pieces(c, size), b), b)
  {
    var chunks := WithBlob(Pieces(c, size), b);
    forall k | 0 <= k < |chunks|
      ensures chunks[k] == c.(blobIndex := b, fileOffset := k * 0x40_0000,
                              compressOffset := c.compressOffset + k * 0x40_0000,
                              decompressSize := Min(0x40_0000, size - k * 0x40_0000))
    {
    }
  }

  lemma ResplitInImage(n: Node, m: BlobMap)
    requires n.inode.size < 0x20_0000_0000_0000 && (n.IsDir() ==> n.chunks == [])
    ensures InImage(n.chunks, n.inode.size, IndexFile(FileOf(Resplit(n)), m).chunks, BlobIndexOf(m, n.path))
  {
    hide Pieces, BlobIndexOf;
    if NeedsSplit(n) {
      PiecesInImage(n.chunks[0], n.inode.size, BlobIndexOf(m, n.path));
      assert n.chunks == [n.chunks[0]];
    }
  }

  lemma FilledSize(toc: seq<TocItem>, e: TocEntry)
    requires forall i :: 0 <= i < |toc| ==> toc[i].entry.size < 0x20_0000_0000_0000
    requires e.size < 0x20_0000_0000_0000
    ensures var n := Filled(NodeOf(e, 0), DataOf(toc, e));
            n.inode.size < 0x20_0000_0000_0000 && (n.IsDir() ==> n.chunks == [])
  {
    hide FileData;
    FileDataFits(toc, e.Path());
    FileDataFits(toc, e.linkName.comps);
  }

  lemma FileShows(toc: seq<TocItem>, i: nat, m: BlobMap)
    requires WellFormedToc(toc) && i < |toc| && toc[i].entry.IsNode()
    ensures var f, e := EntryFile(toc, i, m), toc[i].entry;
            ShowsChunks(f.size, f.chunks, toc, e, BlobIndexOf(m, e.Path()))
  {
    hide DataOf, ShowsData, InImage, NodeOf, BlobIndexOf, WellFormedToc;
    var e := toc[i].entry;
    var n := Filled(NodeOf(e, 0), DataOf(toc, e));
    SizesFit(toc);
    FilledSize(toc, e);
    NodeShows(e, 0, DataOf(toc, e));
    NodeData(toc, e, 0);
    ResplitInImage(n, m);
  }

  lemma FileShowsEntry(n: Node, toc: seq<TocItem>, i: nat, m: BlobMap)
    requires i < |toc| && toc[i].entry.IsNode() && FileOf(n) == EntryFile(toc, i, m)
    ensures Shows(n.inode, n.symlink, n.xattrs, toc[i].entry)
    ensures n.path == toc[i].entry.name.comps
    ensures n.inode.size == EntryFile(toc, i, m).size && n.chunks == EntryFile(toc, i, m).chunks
  {
    hide DataOf;
    NodeShows(toc[i].entry, 0, DataOf(toc, toc[i].entry));
  }

  /** In the image of a table, the path of an entry leads to an inode that is that entry's. */
  lemma ImageShows(a: seq<Node>, f: FileTree, toc: seq<TocItem>, m: BlobMap, i: nat) returns (q: nat)
    requires Image(a, f) && Describes(f, toc, m)
    requires WellFormedToc(toc) && i < |toc| && toc[i].entry.IsNode() && toc[i].entry.Path() != []
    ensures Mapping(Views(a)).InoFromPathSpec(true, toc[i].entry.name.comps) == Ok(q + 1) && q < |a|
    ensures var e, n := toc[i].entry, a[q];
            && Shows(n.inode, n.symlink, n.xattrs, e) && n.path == e.name.comps
            && ShowsChunks(n.inode.size, n.chunks, toc, e, BlobIndexOf(m, e.name.comps))
  {
    hide Image, WellFormedToc, EntryFile, Shows, ShowsChunks, FindFile, BlobIndexOf;
    q := LookupFinds(a, f, toc[i].entry.Path());
    FileShowsEntry(a[q], toc, i, m);
    FileShows(toc, i, m);
  }

  /** Any other inode below the root is that of a directory made for the first entry below it. */
  lemma ImageShowsMissing(a: seq<Node>, f: FileTree, toc: seq<TocItem>, m: BlobMap, p: Path) returns (q: nat, j: nat)
    requires Image(a, f) && Describes(f, toc, m) && p != [] && !Listed(toc, p)
    requires Mapping(Views(a)).InoFromPathSpec(true, p).Ok?
    ensures Mapping(Views(a)).InoFromPathSpec(true, p) == Ok(q + 1) && q < |a| && FirstBelow(toc, j, p)
    ensures var n := a[q];
            ShowsMissing(n.inode, n.symlink, n.xattrs, toc[j].entry) && n.chunks == [] && n.path == p
  {
    hide Image, ShowsMissing, FindFile, NodeOf, NewDir, FileOf;
    q := LookupFinds(a, f, p);
    assert ListedOrAbove(f, toc, p);
    j :| 0 <= j < |toc| && toc[j].entry.IsNode()
         && (p == toc[j].entry.Path()
             || (FirstBelow(toc, j, p) && FindFile(f, p).value.file == FileOf(NodeOf(NewDir(p, toc[j].entry), 0))));
    FileShowsMissing(a[q], p, toc[j].entry);
  }

  lemma FileShowsMissing(n: Node, p: Path, e: TocEntry)
    requires FileOf(n) == FileOf(NodeOf(NewDir(p, e), 0))
    ensures ShowsMissing(n.inode, n.symlink, n.xattrs, e) && n.chunks == [] && n.path == p
  {
  }

  // ----- from the file's bytes -----

  /** What a reader loads from a table's bootstrap file has every entry at its path, and the missing directories. */
  lemma LoadedShows(image: seq<Byte>, toc: seq<TocItem>, blobIds: seq<Name>, nodes: seq<Node>, f: FileTree, m: BlobMap,
      i: nat)
    requires FileOfToc(image, toc, blobIds, nodes, f, m)
    requires WellFormedToc(toc) && i < |toc| && toc[i].entry.IsNode() && toc[i].entry.Path() != []
    ensures Load(image).Ok?
    ensures var mapping, e := Load(image).value.0, toc[i].entry;
            var ino := mapping.InoFromPathSpec(true, e.name.comps);
            && ino.Ok? && 1 <= ino.value <= |mapping.entries|
            && var r := mapping.entries[ino.value - 1];
               && Shows(r.inode, r.symlink, r.xattrs, e) && r.name == e.name.comps[|e.name.comps| - 1]
               && ShowsChunks(r.inode.size, r.chunks, toc, e, BlobIndexOf(m, e.name.comps))
  {
    hide Load, Image, Describes, IsBlobMap, WellFormedToc, Shows, ShowsChunks;
    var q := ImageShows(nodes, f, toc, m, i);
  }

  lemma {:induction false} AboveIsFound(f: FileTree, p: Path, l: nat)
    requires l <= |p| && FindFile(f, p).Some?
    ensures FindFile(f, p[..l]).Some?
    decreases |p|
  {
    if l > 0 {
      assert p[..l][0] == p[0] && p[..l][1..] == p[1..][..l - 1];
      AboveIsFound(f.children[ChildFile(f.children, p[0]).value], p[1..], l - 1);
    }
  }

  lemma FoundIff(f: FileTree, toc: seq<TocItem>, m: BlobMap, p: Path)
    requires Describes(f, toc, m) && p != []
    ensures FindFile(f, p).Some? <==> Listed(toc, p) || exists j :: FirstBelow(toc, j, p)
  {
    hide FindFile, EntryFile, NodeOf;
    if FindFile(f, p).Some? { assert ListedOrAbove(f, toc, p); }
    if Listed(toc, p) {
      var j :| 0 <= j < |toc| && toc[j].entry.IsNode() && toc[j].entry.name.comps == p;
      assert FindFile(f, toc[j].entry.Path()).Some?;
    }
    if j: nat :| FirstBelow(toc, j, p) {
      AboveIsFound(f, toc[j].entry.Path(), |p|);
    }
  }

  /** The inode at `p` is that of a directory made for the first entry below it. */
  ghost predicate IsMissing(mapping: Mapping, ino: nat, toc: seq<TocItem>, p: Path) {
    && 1 <= ino <= |mapping.entries|
    && var r := mapping.entries[ino - 1];
       && r.chunks == []
       && exists j: nat :: FirstBelow(toc, j, p) && ShowsMissing(r.inode, r.symlink, r.xattrs, toc[j].entry)
  }

  /** A reader finds the paths of the entries and the paths above them, and no others. What is not listed is a missing
      directory. */
  lemma LoadedPaths(image: seq<Byte>, toc: seq<TocItem>, blobIds: seq<Name>, nodes: seq<Node>, f: FileTree, m: BlobMap,
      p: Path)
    requires FileOfToc(image, toc, blobIds, nodes, f, m) && p != []
    ensures Load(image).Ok?
    ensures var mapping := Load(image).value.0;
            var ino := mapping.InoFromPathSpec(true, p);
            && (ino.Ok? <==> Listed(toc, p) || exists j :: FirstBelow(toc, j, p))
            && (ino.Ok? && !Listed(toc, p) ==> IsMissing(mapping, ino.value, toc, p))
  {
    hide Load, Image, Describes, IsBlobMap, ShowsMissing, FindFile, FirstBelow, Listed;
    FoundIff(f, toc, m, p);
    var q := LookupFinds(nodes, f, p);
    if FindFile(f, p).Some? && !Listed(toc, p) {
      var q', j := ImageShowsMissing(nodes, f, toc, m, p);
      assert IsMissing(Mapping(Views(nodes)), q' + 1, toc, p);
    }
  }

  /** The first inode is the root: a directory named `/`, number 1, without a parent. */
  lemma LoadedRoot(image: seq<Byte>, toc: seq<TocItem>, blobIds: seq<Name>, nodes: seq<Node>, f: FileTree, m: BlobMap)
    requires FileOfToc(image, toc, blobIds, nodes, f, m)
    ensures Load(image).Ok?
    ensures var mapping := Load(image).value.0;
            && |mapping.entries| > 0 && mapping.entries[0].name == [47] && mapping.entries[0].inode.kind.Dir?
            && mapping.entries[0].inode.ino == 1 && mapping.entries[0].inode.parent == 0
            && mapping.InoFromPathSpec(true, []) == Ok(1)
  {
    hide Load, Describes, IsBlobMap, RepKids, Ordered;
    RootOfImage(nodes, f);
    var q := LookupFinds(nodes, f, []);
  }

  lemma RootOfImage(a: seq<Node>, f: FileTree)
    requires Image(a, f)
    ensures |a| > 0 && a[0].path == [] && a[0].IsDir() && a[0].inode.ino == 1 && a[0].inode.parent == 0
  {
    hide RepKids, Ordered;
    assert FileOf(a[0]).path == a[0].path && FileOf(a[0]).kind == a[0].inode.kind;
  }
}
