/** The builder's file nodes: on-disk inode fields, chunk records and the bookkeeping around them. */
module Nodes {
  import opened Wrappers
  import opened Bytes

  /** An absolute path, as its components below `/`; the root is the empty sequence. */
  type Path = seq<Name>

  ghost predicate StrictPrefix(p: Path, q: Path) {
    |p| < |q| && p == q[..|p|]
  }

  const ROOT_NAME: Name := ['/' as int]

  /** `DEFAULT_BLOCK_SIZE`, 4 MiB: the chunk size of stargz images. */
  const BLOCK_SIZE: nat := 0x40_0000

  /** The file kinds a table of contents can introduce. */
  datatype Kind = Dir | Reg | Symlink

  datatype Overlay = Lower | UpperAddition | UpperOpaque | UpperRemoval | UpperModification

  /** `OndiskChunkInfo`. */
  datatype Chunk = Chunk(
    blockId: RafsDigest,
    blobIndex: nat,
    flags: nat,
    compressSize: nat,
    decompressSize: nat,
    compressOffset: nat,
    decompressOffset: nat,
    fileOffset: nat,
    reserved: nat)

  /** Owner, permission and device fields, which the builders copy and never compute with. */
  datatype Attrs = Attrs(uid: nat, gid: nat, projid: nat, perm: nat, blocks: nat, rdev: nat)

  /** `OndiskInode`; the `i_mode` format bits are `kind` and its permission bits `attrs.perm`. */
  datatype Inode = Inode(
    digest: RafsDigest,
    parent: nat,
    ino: nat,
    attrs: Attrs,
    kind: Kind,
    size: nat,
    flags: nat,
    nlink: nat,
    childIndex: Word,
    childCount: nat,
    nameSize: nat,
    symlinkSize: nat)
  {
    predicate HasXattr() { flags / 4 % 2 == 1 }
    predicate HasHole() { flags / 8 % 2 == 1 }
  }

  /** `Node`, for the builders that take their files from a table of contents (`source` is `/`). */
  datatype Node = Node(
    index: nat,
    realIno: nat,
    dev: nat,
    overlay: Overlay,
    path: Path,
    inode: Inode,
    chunks: seq<Chunk>,
    symlink: Option<Name>,
    xattrs: seq<(Name, seq<Byte>)>)
  {
    predicate IsDir() { inode.kind.Dir? }

    /** `Node::is_reg` tests one mode bit that symbolic links carry as well. */
    predicate IsReg() { !inode.kind.Dir? }

    function Name(): Name {
      if path == [] then ROOT_NAME else path[|path| - 1]
    }
  }

  /** What a node says about its file, apart from every number the builders assign. */
  datatype File = File(
    path: Path,
    kind: Kind,
    attrs: Attrs,
    size: nat,
    flags: nat,
    nameSize: nat,
    symlinkSize: nat,
    chunks: seq<Chunk>,
    symlink: Option<Name>,
    xattrs: seq<(Name, seq<Byte>)>)

  function FileOf(n: Node): File {
    File(n.path, n.inode.kind, n.inode.attrs, n.inode.size, n.inode.flags, n.inode.nameSize,
         n.inode.symlinkSize, n.chunks, n.symlink, n.xattrs)
  }

  // ----- re-splitting of large single-chunk files -----

  function CeilDiv(a: nat, b: nat): nat
    requires b > 0
  {
    if a % b == 0 then a / b else a / b + 1
  }

  /** The `i`-th of `count` pieces of a file of `size` bytes stored as the one chunk `c`. */
  function Piece(c: Chunk, size: nat, count: nat, i: nat): Chunk
    requires i < count && (count - 1) * BLOCK_SIZE <= size
  {
    assert i * BLOCK_SIZE <= size;
    c.(decompressSize := (if i == count - 1 then size - i * BLOCK_SIZE else BLOCK_SIZE) % U32,
       compressOffset := c.compressOffset + i * BLOCK_SIZE,
       fileOffset := i * BLOCK_SIZE)
  }

  predicate NeedsSplit(n: Node) {
    n.IsReg() && n.inode.size > BLOCK_SIZE && |n.chunks| == 1
  }

  function Pieces(c: Chunk, size: nat): (p: seq<Chunk>)
    ensures |p| == CeilDiv(size, BLOCK_SIZE)
  {
    var count := CeilDiv(size, BLOCK_SIZE);
    seq(count, i requires 0 <= i < count => Piece(c, size, count, i))
  }

  /** The node as `Bootstrap` stores it. */
  function Resplit(n: Node): (r: Node)
    ensures r.(chunks := n.chunks, inode := r.inode.(childCount := n.inode.childCount)) == n
  {
    if NeedsSplit(n) then
      n.(chunks := Pieces(n.chunks[0], n.inode.size),
         inode := n.inode.(childCount := CeilDiv(n.inode.size, BLOCK_SIZE) % U32))
    else n
  }

  /** The loop of `Bootstrap::build_rafs` that cuts a large file into 4 MiB chunks. */
  method SplitChunks(n: Node) returns (r: Node)
    requires n.inode.size < 0x20_0000_0000_0000
    ensures r == Resplit(n)
  {
    r := n;
    if n.IsReg() && n.inode.size > BLOCK_SIZE && |n.chunks| == 1 {
      var origin := n.chunks[0];
      var count := CeilDiv(n.inode.size, BLOCK_SIZE);
      var chunks := [];
      for i := 0 to count
        invariant chunks == Pieces(origin, n.inode.size)[..i]
      {
        var offset := i * BLOCK_SIZE;
        var chunkSize := if i == count - 1 then n.inode.size - offset else BLOCK_SIZE;
        chunks := chunks + [origin.(decompressSize := chunkSize % U32,
                                    compressOffset := origin.compressOffset + offset,
                                    fileOffset := offset)];
      }
      r := n.(chunks := chunks, inode := n.inode.(childCount := count % U32));
    }
  }
}
