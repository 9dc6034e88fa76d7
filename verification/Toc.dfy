/** Stargz tables of contents, and the file data they describe. */
module Toc {
  import opened Wrappers
  import opened Bytes
  import opened Nodes
  import opened FastIndex

  datatype TocType = TocDir | TocReg | TocSymlink | TocHardlink | TocChunk | TocOther

  /** An entry name as written, which may or may not start at `/`. */
  datatype RawName = RawName(absolute: bool, comps: Path)

  /** `TocEntry`; `blockId` stands for the digest of its JSON text and blob id. */
  datatype TocEntry = TocEntry(
    name: RawName,
    tocType: TocType,
    size: nat,
    linkName: RawName,
    linkBytes: Name,
    uid: nat,
    gid: nat,
    mode: nat,
    numLink: nat,
    offset: nat,
    xattrs: seq<(Name, seq<Byte>)>,
    chunkOffset: nat,
    chunkSize: nat,
    blockId: RafsDigest)
  {
    /** `path`: the name joined to `/`. */
    function Path(): Path { name.comps }

    predicate IsSupported() { !tocType.TocOther? }

    /** The entry becomes a node of its own. */
    predicate IsNode() { IsSupported() && !tocType.TocChunk? }

    /** `mode`, as the file kind it selects. */
    function Kind(): Kind {
      match tocType
      case TocDir => Dir
      case TocSymlink => Symlink
      case _ => Reg
    }
  }

  datatype TocItem = TocItem(blobId: Name, entry: TocEntry)

  /** `new_dir`: the entry of a directory that is missing from the table. */
  function NewDir(path: Path, e: TocEntry): TocEntry {
    TocEntry(RawName(true, path), TocDir, 0, RawName(false, []), [],
             e.uid, e.gid, 0x1ED, 2, 0, [], 0, 0, Zeros(DIGEST_SIZE))
  }

  /** `parse_node`, with the inode number `ino`. */
  function NodeOf(e: TocEntry, ino: nat): Node {
    var symlinkSize := if e.tocType.TocSymlink? then |e.linkBytes| % 0x1_0000 else 0;
    var flags := (if e.tocType.TocSymlink? then 1 else 0)
                 + (if e.xattrs != [] then 4 else 0)
                 + (if e.tocType.TocHardlink? then 2 else 0);
    var nameSize := if e.Path() == [] then 1 else |e.Path()[|e.Path()| - 1]| % 0x1_0000;
    Node(0, ino, U64 - 1, UpperAddition, e.Path(),
         Inode(Zeros(DIGEST_SIZE), 0, ino, Attrs(e.uid, e.gid, 0, e.mode % 0x1000, 0, U32 - 1), e.Kind(),
               if e.tocType.TocSymlink? then symlinkSize else e.size, flags,
               e.numLink, 0, 0, nameSize, symlinkSize),
         [], if e.tocType.TocSymlink? then Some(e.linkBytes) else None, e.xattrs)
  }

  // ----- chunks -----

  /** The last regular entry among `items`. */
  function LastReg(items: seq<TocItem>): Option<TocEntry> {
    if items == [] then None
    else if items[|items| - 1].entry.tocType.TocReg? then Some(items[|items| - 1].entry)
    else LastReg(items[..|items| - 1])
  }

  /** The size of the data an entry describes: for a last chunk of unknown size, what is left of its file; for a
      regular entry without chunk size, the whole file. The subtraction wraps. */
  function DecompressSize(lastReg: Option<TocEntry>, e: TocEntry): nat {
    if e.chunkSize == 0 && e.size != 0 then e.size
    else if e.tocType.TocChunk? && e.chunkSize == 0 && lastReg.Some? then
      (lastReg.value.size - e.chunkOffset) % U64
    else e.chunkSize
  }

  function ChunkOf(e: TocEntry, decompressSize: nat): Chunk {
    Chunk(e.blockId, 0, 0, 0, decompressSize % U32, e.offset, 0, e.chunkOffset, 0)
  }

  predicate HasData(lastReg: Option<TocEntry>, e: TocEntry) {
    (e.tocType.TocReg? || e.tocType.TocChunk?) && DecompressSize(lastReg, e) != 0
  }

  /** The size and chunks that the entries of path `p` give it. */
  function FileData(items: seq<TocItem>, p: Path): Option<(nat, seq<Chunk>)> {
    if items == [] then None
    else
      var front, e := items[..|items| - 1], items[|items| - 1].entry;
      if HasData(LastReg(front), e) && e.Path() == p then
        Some(AddChunk(FileData(front, p), e, ChunkOf(e, DecompressSize(LastReg(front), e))))
      else FileData(front, p)
  }

  function AddChunk(data: Option<(nat, seq<Chunk>)>, e: TocEntry, chunk: Chunk): (nat, seq<Chunk>) {
    match data
    case Some((size, chunks)) => (if e.tocType.TocReg? then e.size else size, chunks + [chunk])
    case None => (if e.tocType.TocReg? then e.size else 0, [chunk])
  }

  /** The node with its file's data. */
  function Filled(n: Node, data: Option<(nat, seq<Chunk>)>): Node {
    match data
    case Some((size, chunks)) => n.(chunks := chunks, inode := n.inode.(childCount := |chunks| % U32, size := size))
    case None => n
  }

  // ----- well-formed tables -----

  /** Entries `i` and `j` may stand in one table, in that order. */
  ghost predicate Compatible(e: TocEntry, f: TocEntry) {
    && (e.IsNode() && f.IsNode() ==>
          && (e.Path() == f.Path() ==> e.Path() == [])
          && (StrictPrefix(e.Path(), f.Path()) ==> e.tocType.TocDir?)
          && (StrictPrefix(f.Path(), e.Path()) ==> f.Path() == []))
    && (e.tocType.TocChunk? && f.IsNode() ==> ChunkFits(e, f))
    && (e.IsNode() && f.tocType.TocChunk? ==> ChunkFits(f, e))
  }

  /** A chunk's path is no directory's and no symbolic link's. */
  ghost predicate ChunkFits(c: TocEntry, e: TocEntry) {
    && (c.Path() == e.Path() ==> e.tocType.TocReg?)
    && !StrictPrefix(c.Path(), e.Path())
  }

  /** Paths are distinct except for the root's, only directories have entries below them, explicit directories come
      before what they contain, and chunks belong to regular files. */
  ghost predicate WellFormedToc(toc: seq<TocItem>) {
    && (forall i, j :: 0 <= i < j < |toc| ==> Compatible(toc[i].entry, toc[j].entry))
    && (forall i :: 0 <= i < |toc| && toc[i].entry.IsNode() && toc[i].entry.Path() == [] ==>
        toc[i].entry.tocType.TocDir?)
    && (forall i :: 0 <= i < |toc| ==> toc[i].entry.size < 0x20_0000_0000_0000)
    && |toc| < U32
  }

  ghost predicate HasRoot(toc: seq<TocItem>) {
    exists i :: 0 <= i < |toc| && toc[i].entry.IsNode() && toc[i].entry.Path() == []
  }

  // ----- what the scan of the table has collected -----

  /** Node `n` was made from entry `e`. */
  predicate Matches(n: Node, e: TocEntry) {
    n == NodeOf(e, n.inode.ino) && n.realIno == n.inode.ino
  }

  /** Node `n` was made from one of the first `i` entries, or is a missing directory, made for the first entry below it,
      which is one of the first `h`. */
  ghost predicate Origin(toc: seq<TocItem>, i: nat, h: nat, n: Node, known: set<Path>)
    requires i <= h <= |toc|
  {
    || (exists j :: 0 <= j < i && toc[j].entry.IsNode() && Matches(n, toc[j].entry)
                    && (n.path in known || toc[j].entry.tocType.TocHardlink?))
    || (exists j :: 0 <= j < h && FirstBelow(toc, j, n.path) && n.path in known
                    && Matches(n, NewDir(n.path, toc[j].entry)))
  }

  /** Entry `j` is the first whose path is below `q`. */
  ghost predicate FirstBelow(toc: seq<TocItem>, j: nat, q: Path) {
    && j < |toc| && toc[j].entry.IsNode() && StrictPrefix(q, toc[j].entry.Path())
    && forall i :: 0 <= i < j && toc[i].entry.IsNode() ==> !StrictPrefix(q, toc[i].entry.Path())
  }

  ghost predicate AncestorsIn(p: Path, known: set<Path>) {
    forall q :: StrictPrefix(q, p) ==> q in known
  }

  /** After `i` entries, and the missing directories of the first `h`: parents come first, the known paths are closed
      under parents, and every node has an origin and every entry a node. */
  ghost predicate Scanned(toc: seq<TocItem>, i: nat, h: nat, nodes: seq<Node>, known: set<Path>) {
    && i <= h <= |toc|
    && ParentsFirst(nodes)
    && (forall p :: p in known ==> exists k :: 0 <= k < |nodes| && nodes[k].path == p)
    && (forall p :: p in known && p != [] ==> Parent(p) in known)
    && (forall k :: 0 <= k < |nodes| ==> Origin(toc, i, h, nodes[k], known))
    && (forall j :: 0 <= j < i && toc[j].entry.IsNode() ==>
        exists k :: 0 <= k < |nodes| && Matches(nodes[k], toc[j].entry))
    && (forall j :: 0 <= j < i && toc[j].entry.IsNode() ==> AncestorsIn(toc[j].entry.Path(), known))
  }
}
