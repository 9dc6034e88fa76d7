/** Inode digests: the builder's two passes over the array, and the reader's check of the digest tree. */
module Digest {
  import opened Wrappers
  import opened Bytes
  import opened Nodes
  import opened Trees
  import opened Flatten
  import opened Layout
  import opened Direct
  import opened Readback

  /** A hash function; a hasher that is fed several pieces hashes their concatenation. */
  type Hash = seq<Byte> -> RafsDigest

  function BlockIds(chunks: seq<Chunk>): seq<Byte> {
    if chunks == [] then [] else BlockIds(chunks[..|chunks| - 1]) + chunks[|chunks| - 1].blockId
  }

  // ----- strings of digests -----

  /** `s` is the digests `ds` one after the other, 32 bytes each. */
  ghost predicate Strung(s: seq<Byte>, ds: seq<RafsDigest>) {
    |s| == 32 * |ds| && forall i :: 0 <= i < |ds| ==> s[32 * i..32 * i + 32] == ds[i]
  }

  /** There is one such string. */
  lemma StrungOnce(s: seq<Byte>, t: seq<Byte>, ds: seq<RafsDigest>)
    requires Strung(s, ds) && Strung(t, ds)
    ensures s == t
  {
    forall j | 0 <= j < |s|
      ensures s[j] == t[j]
    {
      var i := j / 32;
      assert s[32 * i..32 * i + 32] == ds[i] == t[32 * i..32 * i + 32];
      assert s[j] == s[32 * i..32 * i + 32][j - 32 * i] && t[j] == t[32 * i..32 * i + 32][j - 32 * i];
    }
  }

  lemma StrungMore(s: seq<Byte>, ds: seq<RafsDigest>, d: RafsDigest)
    requires Strung(s, ds)
    ensures Strung(s + d, ds + [d])
  {
    var t, es := s + d, ds + [d];
    forall i | 0 <= i < |es|
      ensures t[32 * i..32 * i + 32] == es[i]
    {
      if i < |ds| { assert t[32 * i..32 * i + 32] == s[32 * i..32 * i + 32]; }
    }
  }

  /** The digests of a file's chunks. */
  function ChunkDigests(chunks: seq<Chunk>): seq<RafsDigest> {
    seq(|chunks|, i requires 0 <= i < |chunks| => chunks[i].blockId)
  }

  /** The digests of the `n` inodes from `lo`. */
  function InodeDigests(es: seq<Entry>, lo: nat, n: nat): seq<RafsDigest>
    requires lo + n <= |es|
  {
    seq<RafsDigest>(n, i requires 0 <= i < n => es[lo + i].inode.digest)
  }

  lemma {:induction false} BlockIdsStrung(chunks: seq<Chunk>)
    ensures Strung(BlockIds(chunks), ChunkDigests(chunks))
  {
    hide Strung;
    if chunks == [] {
      StrungNone();
    } else {
      var front, last := chunks[..|chunks| - 1], chunks[|chunks| - 1];
      BlockIdsStrung(front);
      StrungMore(BlockIds(front), ChunkDigests(front), last.blockId);
      assert ChunkDigests(chunks) == ChunkDigests(front) + [last.blockId];
    }
  }

  lemma StrungNone()
    ensures forall ds: seq<RafsDigest> :: ds == [] ==> Strung([], ds)
  {
  }

  lemma {:induction false} StoredStrung(es: seq<Entry>, lo: nat, n: nat)
    requires lo + n <= |es|
    ensures Strung(StoredDigests(es, lo, lo + n), InodeDigests(es, lo, n))
    decreases n
  {
    hide Strung;
    if n == 0 {
      StrungNone();
    } else {
      StoredStrung(es, lo, n - 1);
      var d := es[lo + n - 1].inode.digest;
      StrungMore(StoredDigests(es, lo, lo + (n - 1)), InodeDigests(es, lo, n - 1), d);
      assert InodeDigests(es, lo, n) == InodeDigests(es, lo, n - 1) + [d];
    }
  }

  // ----- the builder -----

  /** The digest of a node after `dump_blob`: an upper node has the SHA-256 of its chunks' digests, whatever digest
      algorithm the image is built with; a node of a lower layer keeps the one it came with. */
  function NodeDigest(n: Node, sha256: Hash): RafsDigest {
    if n.overlay.Lower? then n.inode.digest else sha256(BlockIds(n.chunks))
  }

  /** A node after `dump_blob`: an upper node also has the blob's index in its chunks. */
  function Dumped(n: Node, blobIndex: nat, sha256: Hash): Node {
    if n.overlay.Lower? then n
    else n.(chunks := seq(|n.chunks|, i requires 0 <= i < |n.chunks| => n.chunks[i].(blobIndex := blobIndex)),
            inode := n.inode.(digest := sha256(BlockIds(n.chunks))))
  }

  /** A lower node is as it was. An upper node has the blob in its chunks, and the hash of its chunks' digests. */
  ghost predicate DumpedRight(n: Node, m: Node, blobIndex: nat, sha256: Hash) {
    && (n.overlay.Lower? ==> m == n)
    && (!n.overlay.Lower? ==>
          && (forall s :: Strung(s, ChunkDigests(n.chunks)) ==> m.inode.digest == sha256(s))
          && |m.chunks| == |n.chunks|
          && (forall k :: 0 <= k < |n.chunks| ==> m.chunks[k] == n.chunks[k].(blobIndex := blobIndex))
          && m.(chunks := n.chunks, inode := m.inode.(digest := n.inode.digest)) == n)
  }

  lemma DumpedIsRight(n: Node, blobIndex: nat, sha256: Hash)
    ensures DumpedRight(n, Dumped(n, blobIndex, sha256), blobIndex, sha256)
  {
    hide Strung, BlockIds;
    BlockIdsStrung(n.chunks);
    forall s | Strung(s, ChunkDigests(n.chunks))
      ensures s == BlockIds(n.chunks)
    {
      StrungOnce(s, BlockIds(n.chunks), ChunkDigests(n.chunks));
    }
  }

  /** `dump_blob`, for images whose data is already in blobs. */
  method DumpBlob(nodes: array<Node>, blobIndex: nat, sha256: Hash)
    modifies nodes
    ensures forall i :: 0 <= i < nodes.Length ==> nodes[i] == Dumped(old(nodes[i]), blobIndex, sha256)
    ensures forall i :: 0 <= i < nodes.Length ==> DumpedRight(old(nodes[i]), nodes[i], blobIndex, sha256)
  {
    for k := 0 to nodes.Length
      invariant forall i :: 0 <= i < k ==> nodes[i] == Dumped(old(nodes[i]), blobIndex, sha256)
      invariant forall i :: k <= i < nodes.Length ==> nodes[i] == old(nodes[i])
    {
      var node := nodes[k];
      if node.overlay.Lower? {
        continue;
      }
      var hashed := [];
      var chunks := node.chunks;
      for i := 0 to |chunks|
        invariant |chunks| == |node.chunks| && hashed == BlockIds(node.chunks[..i])
        invariant forall j :: 0 <= j < i ==> chunks[j] == node.chunks[j].(blobIndex := blobIndex)
        invariant forall j :: i <= j < |chunks| ==> chunks[j] == node.chunks[j]
      {
        assert node.chunks[..i + 1][..i] == node.chunks[..i];
        chunks := chunks[i := chunks[i].(blobIndex := blobIndex)];
        hashed := hashed + chunks[i].blockId;
      }
      assert node.chunks[..|chunks|] == node.chunks;
      nodes[k] := node.(chunks := chunks, inode := node.inode.(digest := sha256(hashed)));
      assert nodes[k].chunks == Dumped(node, blobIndex, sha256).chunks;
    }
    forall i | 0 <= i < nodes.Length
      ensures DumpedRight(old(nodes[i]), nodes[i], blobIndex, sha256)
    {
      DumpedIsRight(old(nodes[i]), blobIndex, sha256);
    }
  }

  /** Every directory's child range lies after it, inside the array. */
  ghost predicate RangesAhead(a: seq<Node>) {
    forall k :: 0 <= k < |a| && a[k].IsDir() ==>
      k + 1 < a[k].inode.childIndex && a[k].inode.childIndex - 1 + a[k].inode.childCount <= |a|
  }

  /** The digest the reverse pass leaves at position `k`. */
  ghost function DigestAt(a: seq<Node>, k: nat, h: Hash): RafsDigest
    requires RangesAhead(a) && k < |a|
    decreases |a| - k, 0
  {
    if !a[k].IsDir() then a[k].inode.digest
    else h(DigestsOf(a, k, a[k].inode.childIndex - 1, a[k].inode.childIndex - 1 + a[k].inode.childCount, h))
  }

  /** The digests of positions `lo .. hi`, all after `k`, one after the other. */
  ghost function DigestsOf(a: seq<Node>, k: nat, lo: nat, hi: nat, h: Hash): seq<Byte>
    requires RangesAhead(a) && k < lo && hi <= |a| && k < |a|
    decreases |a| - k - 1, hi
  {
    if lo >= hi then [] else DigestsOf(a, k, lo, hi - 1, h) + DigestAt(a, hi - 1, h)
  }

  function WithDigest(n: Node, digest: RafsDigest): Node {
    n.(inode := n.inode.(digest := digest))
  }

  /** `digest_node`: the digest of the node at `idx`, once every later node of the array `a` has its own. */
  method DigestNode(nodes: array<Node>, idx: nat, h: Hash, ghost a: seq<Node>) returns (digest: RafsDigest)
    requires RangesAhead(a) && idx < nodes.Length == |a|
    requires nodes[idx] == a[idx] && forall i :: idx < i < |a| ==> nodes[i].inode.digest == DigestAt(a, i, h)
    ensures digest == DigestAt(a, idx, h)
  {
    var node := nodes[idx];
    if !node.IsDir() {
      return node.inode.digest;
    }
    var hashed := [];
    var first := node.inode.childIndex;
    for i := first to first + node.inode.childCount
      invariant hashed == DigestsOf(a, idx, first - 1, i - 1, h)
    {
      hashed := hashed + nodes[i - 1].inode.digest;
    }
    digest := h(hashed);
  }

  /** The pass of `dump_to_file` that sets every digest, from the last node to the first. */
  method DigestNodes(nodes: array<Node>, h: Hash)
    requires RangesAhead(nodes[..])
    modifies nodes
    ensures RangesAhead(old(nodes[..]))
    ensures forall i :: 0 <= i < nodes.Length ==> nodes[i] == WithDigest(old(nodes[i]), DigestAt(old(nodes[..]), i, h))
  {
    hide RangesAhead, DigestAt;
    ghost var a := nodes[..];
    var idx := nodes.Length;
    while idx > 0
      invariant 0 <= idx <= nodes.Length == |a|
      invariant forall i :: 0 <= i < idx ==> nodes[i] == a[i]
      invariant forall i :: idx <= i < |a| ==> nodes[i] == WithDigest(a[i], DigestAt(a, i, h))
    {
      idx := idx - 1;
      var digest := DigestNode(nodes, idx, h, a);
      nodes[idx] := WithDigest(nodes[idx], digest);
    }
  }

  // ----- the digest tree -----

  /** The digest of a tree: for a file, the digest `leaf` has for it; for a directory, the image's hash of its
      children's digests in order. */
  function Merkle(f: FileTree, leaf: File -> RafsDigest, h: Hash): RafsDigest
    decreases f, 0
  {
    if f.file.kind.Dir? then h(MerkleAll(f.children, leaf, h)) else leaf(f.file)
  }

  function MerkleAll(fs: seq<FileTree>, leaf: File -> RafsDigest, h: Hash): seq<Byte>
    decreases fs, 1
  {
    if fs == [] then [] else Merkle(fs[0], leaf, h) + MerkleAll(fs[1..], leaf, h)
  }

  /** `leaf` knows the digest each file of the array will have. */
  ghost predicate Leaves(l: seq<Node>, leaf: File -> RafsDigest, sha256: Hash) {
    forall q :: 0 <= q < |l| && !l[q].IsDir() ==> leaf(FileOf(l[q])) == NodeDigest(l[q], sha256)
  }

  /** Without a lower layer every file's digest is that of its chunks. */
  lemma UpperLeaves(l: seq<Node>, sha256: Hash)
    requires forall q :: 0 <= q < |l| ==> !l[q].overlay.Lower?
    ensures Leaves(l, (f: File) => sha256(BlockIds(f.chunks)), sha256)
  {
    hide BlockIds;
    forall q | 0 <= q < |l| && !l[q].IsDir()
      ensures sha256(BlockIds(FileOf(l[q]).chunks)) == NodeDigest(l[q], sha256)
    {
    }
  }

  /** The digest of the first node with the path `p`. */
  function DigestByPath(l: seq<Node>, p: Path, sha256: Hash): RafsDigest {
    if l == [] then Zeros(DIGEST_SIZE)
    else if l[0].path == p then NodeDigest(l[0], sha256)
    else DigestByPath(l[1..], p, sha256)
  }

  lemma {:induction false} FirstByPath(l: seq<Node>, q: nat, sha256: Hash)
    requires q < |l| && forall i :: 0 <= i < q ==> l[i].path != l[q].path
    ensures DigestByPath(l, l[q].path, sha256) == NodeDigest(l[q], sha256)
  {
    hide NodeDigest;
    if q > 0 { FirstByPath(l[1..], q - 1, sha256); }
  }

  /** Every file has the digest that `dump_blob` gives it. */
  ghost predicate FilesDigested(a: seq<Node>, sha256: Hash) {
    forall q :: 0 <= q < |a| && !a[q].IsDir() ==> a[q].inode.digest == NodeDigest(a[q], sha256)
  }

  /** The same directories with the same children, and files of the same digests. */
  ghost predicate SameShape(m: Node, n: Node, sha256: Hash) {
    && m.inode.kind == n.inode.kind && m.inode.childIndex == n.inode.childIndex
    && m.inode.childCount == n.inode.childCount && NodeDigest(m, sha256) == NodeDigest(n, sha256)
  }

  lemma {:induction false} DigestsOfPrepend(a: seq<Node>, k: nat, lo: nat, hi: nat, h: Hash)
    requires RangesAhead(a) && k < lo < hi <= |a|
    ensures DigestsOf(a, k, lo, hi, h) == DigestAt(a, lo, h) + DigestsOf(a, k, lo + 1, hi, h)
    decreases hi
  {
    hide RangesAhead, DigestAt;
    if lo + 1 < hi {
      DigestsOfPrepend(a, k, lo, hi - 1, h);
    } else {
      assert DigestsOf(a, k, lo, lo, h) == [] && DigestsOf(a, k, lo + 1, hi, h) == [];
    }
  }

  /** One reverse pass over `a`, which has the layout of `l`, gives every directory the digest of its whole subtree. */
  lemma {:induction false} PassIsMerkle(l: seq<Node>, a: seq<Node>, k: nat, f: FileTree, base: nat,
      leaf: File -> RafsDigest, sha256: Hash, h: Hash)
    requires Rep(l, k, f, base) && RangesAhead(a) && FilesDigested(a, sha256) && Leaves(l, leaf, sha256)
    requires |a| == |l| && forall q :: 0 <= q < |a| ==> SameShape(l[q], a[q], sha256)
    ensures DigestAt(a, k, h) == Merkle(f, leaf, h)
    decreases f, 0
  {
    hide RepKids, BlockIds, NodeDigest;
    assert FileOf(l[k]).kind == f.file.kind;
    assert SameShape(l[k], a[k], sha256);
    if f.file.kind.Dir? {
      KidsAreMerkle(l, a, k, f.children, base, base + |f.children|, leaf, sha256, h);
    }
  }

  lemma NoDigests(a: seq<Node>, k: nat, lo: nat, h: Hash)
    requires RangesAhead(a) && k < lo <= |a|
    ensures DigestsOf(a, k, lo, lo, h) == []
  {
    hide RangesAhead;
  }

  lemma FirstKid(l: seq<Node>, k: nat, fs: seq<FileTree>, pos: nat, base: nat)
    requires RepKids(l, k, fs, pos, base) && fs != []
    ensures pos < |l| && Rep(l, pos, fs[0], base) && RepKids(l, k, fs[1..], pos + 1, base + FileSizeAll(fs[0].children))
  {
    hide Rep;
  }

  lemma {:induction false} KidsAreMerkle(l: seq<Node>, a: seq<Node>, k: nat, fs: seq<FileTree>, pos: nat, base: nat,
      leaf: File -> RafsDigest, sha256: Hash, h: Hash)
    requires RepKids(l, k, fs, pos, base) && RangesAhead(a) && FilesDigested(a, sha256) && Leaves(l, leaf, sha256)
    requires |a| == |l| && forall q :: 0 <= q < |a| ==> SameShape(l[q], a[q], sha256)
    requires k < pos && pos + |fs| <= |a|
    ensures DigestsOf(a, k, pos, pos + |fs|, h) == MerkleAll(fs, leaf, h)
    decreases fs, 1
  {
    hide RangesAhead, FilesDigested, Leaves, Rep, RepKids, SameShape, DigestAt, DigestsOf, Merkle;
    if fs == [] {
      NoDigests(a, k, pos, h);
    } else {
      FirstKid(l, k, fs, pos, base);
      PassIsMerkle(l, a, pos, fs[0], base, leaf, sha256, h);
      KidsAreMerkle(l, a, k, fs[1..], pos + 1, base + FileSizeAll(fs[0].children), leaf, sha256, h);
      DigestsOfPrepend(a, k, pos, pos + |fs|, h);
    }
  }

  // ----- the reader -----

  /** What the reader hashes for an inode that is no directory: a link's target, or a file's chunk digests. */
  function Content(e: Entry): seq<Byte> {
    if e.inode.kind.Symlink? then (if e.symlink.Some? then e.symlink.value else [])
    else BlockIds(e.chunks)
  }

  /** Every inode can be read: ranges and validation hold, and directories carry their index as their number. */
  ghost predicate Readable(a: seq<Node>) {
    && 1 <= |a| && GoodRange(a, 0)
    && (forall q :: 1 <= q < |a| ==> WellPlaced(a, q))
    && (forall q :: 0 <= q < |a| ==> ValidInode(a[q].inode, |a|) && (a[q].IsDir() ==> a[q].inode.ino == q + 1))
  }

  /** The digests stored at positions `lo .. hi`. */
  function StoredDigests(es: seq<Entry>, lo: nat, hi: nat): seq<Byte>
    requires hi <= |es|
    decreases hi
  {
    if lo >= hi then [] else StoredDigests(es, lo, hi - 1) + es[hi - 1].inode.digest
  }

  /** The stored digest of position `pos` is that of what it holds. */
  ghost predicate DigestMatches(es: seq<Entry>, pos: nat, h: Hash)
    requires pos < |es|
  {
    var e := es[pos];
    e.inode.digest == if e.inode.kind.Dir? then
                        (if e.inode.childIndex >= 1 && e.inode.childIndex - 1 + e.inode.childCount <= |es| then
                           h(StoredDigests(es, e.inode.childIndex - 1, e.inode.childIndex - 1 + e.inode.childCount))
                         else h([]))
                      else h(Content(e))
  }

  /** The bytes `s` are what inode `e` has its digest of: the digests of its children in order, the target of a link, or
      the digests of a file's chunks in order. */
  ghost predicate DigestedBytes(es: seq<Entry>, e: Entry, s: seq<Byte>) {
    match e.inode.kind
    case Dir =>
      && e.inode.childIndex >= 1 && e.inode.childIndex - 1 + e.inode.childCount <= |es|
      && Strung(s, InodeDigests(es, e.inode.childIndex - 1, e.inode.childCount))
    case Symlink => e.symlink == Some(s)
    case Reg => Strung(s, ChunkDigests(e.chunks))
  }

  /** The reader compares the stored digest with the hash of those bytes. */
  lemma DigestMatchesIff(es: seq<Entry>, pos: nat, s: seq<Byte>, h: Hash)
    requires pos < |es| && DigestedBytes(es, es[pos], s)
    ensures DigestMatches(es, pos, h) <==> es[pos].inode.digest == h(s)
  {
    hide Strung, BlockIds, StoredDigests;
    var e := es[pos];
    if e.inode.kind.Dir? {
      StoredStrung(es, e.inode.childIndex - 1, e.inode.childCount);
      StrungOnce(s, StoredDigests(es, e.inode.childIndex - 1, e.inode.childIndex - 1 + e.inode.childCount),
                 InodeDigests(es, e.inode.childIndex - 1, e.inode.childCount));
    } else if e.inode.kind.Reg? {
      BlockIdsStrung(e.chunks);
      StrungOnce(s, BlockIds(e.chunks), ChunkDigests(e.chunks));
    }
  }

  /** What a file is digested from has that form, and an upper file agrees if the hash of its chunks' digests is the
      reader's hash of those bytes. */
  lemma FileAgreesIff(n: Node, s: seq<Byte>, t: seq<Byte>, sha256: Hash, h: Hash)
    requires !n.IsDir() && !n.overlay.Lower? && DigestedBytes([], View(n), s) && Strung(t, ChunkDigests(n.chunks))
    ensures FileAgrees(n, sha256, h) <==> sha256(t) == h(s)
  {
    hide Strung, BlockIds;
    BlockIdsStrung(n.chunks);
    StrungOnce(t, BlockIds(n.chunks), ChunkDigests(n.chunks));
    if n.inode.kind.Reg? { StrungOnce(s, BlockIds(n.chunks), ChunkDigests(n.chunks)); }
  }

  /** `digest_validate` accepts position `pos`: its digest matches, and so do its children's, those of directories only
      if `recursive`. */
  ghost predicate Accepts(a: seq<Node>, pos: nat, recursive: bool, h: Hash)
    requires Readable(a) && pos < |a|
    decreases |a| - pos
  {
    ReadableAt(a, pos);
    var inode := a[pos].inode;
    && DigestMatches(Views(a), pos, h)
    && (inode.kind.Dir? ==>
          forall c ::
            inode.childIndex - 1 <= c < inode.childIndex - 1 + inode.childCount && (recursive || !a[c].IsDir()) ==>
            Accepts(a, c, recursive, h))
  }

  lemma ReadableAt(a: seq<Node>, pos: nat)
    requires Readable(a) && pos < |a|
    ensures GoodRange(a, pos) && ValidInode(a[pos].inode, |a|) && (a[pos].IsDir() ==> a[pos].inode.ino == pos + 1)
    ensures a[pos].IsDir() ==>
              pos + 1 < a[pos].inode.childIndex && a[pos].inode.childIndex - 1 + a[pos].inode.childCount <= |a|
    ensures !a[pos].IsDir() ==> a[pos].inode.childCount == |a[pos].chunks|
  {
    assert pos > 0 ==> WellPlaced(a, pos);
  }

  /** No two nodes of a readable array have the same path. */
  lemma {:induction false} PathsDiffer(a: seq<Node>, q: nat, r: nat)
    requires Readable(a) && a[0].path == [] && q < r < |a|
    ensures a[q].path != a[r].path
    decreases q + r
  {
    hide Readable, ValidInode, Less;
    var p := PlaceOf(a, r);
    if q > 0 {
      var o := PlaceOf(a, q);
      if a[q].path == a[r].path {
        assert a[o].path == a[q].path[..|a[q].path| - 1] && a[p].path == a[r].path[..|a[r].path| - 1];
        if o < p { PathsDiffer(a, o, p); }
        if p < o { PathsDiffer(a, p, o); }
        SiblingsDiffer(a, p, q, r);
      }
    }
  }

  /** The directory that a node other than the root is placed in. */
  lemma PlaceOf(a: seq<Node>, q: nat) returns (p: nat)
    requires Readable(a) && 0 < q < |a|
    ensures p < q && a[q].path == a[p].path + [a[q].Name()] && a[p].IsDir()
    ensures a[p].inode.childIndex <= q + 1 < a[p].inode.childIndex + a[p].inode.childCount
  {
    hide GoodRange, ValidInode;
    assert WellPlaced(a, q);
    p := a[q].inode.parent - 1;
  }

  lemma SiblingsDiffer(a: seq<Node>, p: nat, q: nat, r: nat)
    requires Readable(a) && q < r < |a| && p < |a| && a[p].IsDir()
    requires a[p].inode.childIndex <= q + 1 && r + 1 < a[p].inode.childIndex + a[p].inode.childCount
    ensures a[q].Name() != a[r].Name()
  {
    hide Readable, ValidInode, Less;
    ReadableAt(a, p);
    LessIrreflexive(a[q].Name());
  }

  /** The digests of the files of any readable array, of whatever layers, are a function of its files. */
  lemma LeavesExist(a: seq<Node>, sha256: Hash)
    requires Readable(a) && a[0].path == []
    ensures Leaves(a, (f: File) => DigestByPath(a, f.path, sha256), sha256)
  {
    hide Readable, NodeDigest, DigestByPath;
    forall q | 0 <= q < |a| && !a[q].IsDir()
      ensures DigestByPath(a, FileOf(a[q]).path, sha256) == NodeDigest(a[q], sha256)
    {
      forall i | 0 <= i < q
        ensures a[i].path != a[q].path
      {
        PathsDiffer(a, i, q);
      }
      FirstByPath(a, q, sha256);
    }
  }

  /** Directories carry their index as their number. */
  predicate DirsOwnNumber(m: Mapping) {
    forall q :: 0 <= q < |m.entries| && m.entries[q].inode.kind.Dir? ==> m.entries[q].inode.ino == q + 1
  }

  /** The mapping is that of the readable array `a`. */
  ghost predicate ImageOf(m: Mapping, a: seq<Node>) {
    m == Mapping(Views(a)) && Readable(a)
  }

  /** The children `lo .. hi` of a directory that the check descends into are accepted. */
  ghost predicate AllAccepted(a: seq<Node>, lo: nat, hi: nat, recursive: bool, h: Hash)
    requires Readable(a) && hi <= |a|
  {
    forall c :: lo <= c < hi && (recursive || !a[c].IsDir()) ==> Accepts(a, c, recursive, h)
  }

  lemma ChildIsRead(m: Mapping, a: seq<Node>, pos: nat, idx: nat)
    requires ImageOf(m, a) && pos < |a| && a[pos].IsDir() && idx < a[pos].inode.childCount
    ensures m.GetChildByIndex(pos, idx) == Ok(a[pos].inode.childIndex - 1 + idx)
    ensures a[pos].inode.childIndex - 1 + a[pos].inode.childCount <= |a| == |m.entries|
  {
    hide ValidInode, GoodRange, Readable;
    ReadableAt(a, pos);
    ReadableAt(a, a[pos].inode.childIndex - 1 + idx);
  }

  lemma ChildIsLater(m: Mapping, pos: nat, idx: nat)
    requires pos < |m.entries| && ValidInode(m.entries[pos].inode, |m.entries|) && DirsOwnNumber(m)
    requires m.GetChildByIndex(pos, idx).Ok?
    ensures var child := m.GetChildByIndex(pos, idx).value;
            pos < child < |m.entries| && ValidInode(m.entries[child].inode, |m.entries|)
  {
  }

  /** The first `idx` children of the directory at `pos` are hashed and accepted. */
  ghost predicate SoFar(m: Mapping, a: seq<Node>, pos: nat, idx: nat, hashed: seq<Byte>, recursive: bool, h: Hash) {
    && ImageOf(m, a) && pos < |a| && a[pos].IsDir() && idx <= a[pos].inode.childCount
    && var lo := a[pos].inode.childIndex - 1;
       && 0 <= lo && lo + a[pos].inode.childCount <= |a|
       && hashed == StoredDigests(m.entries, lo, lo + idx) && AllAccepted(a, lo, lo + idx, recursive, h)
  }

  /** The check looks into the child. */
  predicate Checked(kind: Kind, recursive: bool) {
    kind.Reg? || kind.Symlink? || (recursive && kind.Dir?)
  }

  lemma OneMoreChild(m: Mapping, a: seq<Node>, pos: nat, idx: nat, hashed: seq<Byte>, recursive: bool, h: Hash)
    requires SoFar(m, a, pos, idx, hashed, recursive, h) && idx < a[pos].inode.childCount
    ensures var child := a[pos].inode.childIndex - 1 + idx;
            && m.GetChildByIndex(pos, idx) == Ok(child) && m.entries[child].inode == a[child].inode
            && if Checked(a[child].inode.kind, recursive) && !Accepts(a, child, recursive, h)
               then !AllAccepted(a, a[pos].inode.childIndex - 1, a[pos].inode.childIndex - 1 + a[pos].inode.childCount,
                   recursive, h)
               else SoFar(m, a, pos, idx + 1, hashed + a[child].inode.digest, recursive, h)
  {
    hide Readable, Accepts, Mapping.GetChildByIndex;
    ChildIsRead(m, a, pos, idx);
  }

  lemma NoneSoFar(m: Mapping, a: seq<Node>, pos: nat, recursive: bool, h: Hash)
    requires ImageOf(m, a) && pos < |a| && a[pos].IsDir()
    ensures SoFar(m, a, pos, 0, [], recursive, h)
  {
    hide Readable, Accepts;
    ReadableAt(a, pos);
  }

  lemma AllSoFar(m: Mapping, a: seq<Node>, pos: nat, hashed: seq<Byte>, recursive: bool, h: Hash)
    requires ImageOf(m, a) && pos < |a| && SoFar(m, a, pos, a[pos].inode.childCount, hashed, recursive, h)
    ensures var lo, hi := a[pos].inode.childIndex - 1, a[pos].inode.childIndex - 1 + a[pos].inode.childCount;
            && 0 <= lo <= hi <= |a| && AllAccepted(a, lo, hi, recursive, h)
                && hashed == StoredDigests(m.entries, lo, hi)
  {
    hide AllAccepted, Readable;
  }

  /** The loop over the children of a directory in `digest_validate`: the bytes to hash, or none if a child is not
      accepted. */
  method ValidateChildren(m: Mapping, pos: nat, recursive: bool, h: Hash,
      ghost a: seq<Node>) returns (r: Result<Option<seq<Byte>>>)
    requires pos < |m.entries| && ValidInode(m.entries[pos].inode, |m.entries|) && DirsOwnNumber(m)
    requires m.entries[pos].inode.kind.Dir?
    ensures ImageOf(m, a) ==>
              && r.Ok?
              && var lo, hi := a[pos].inode.childIndex - 1, a[pos].inode.childIndex - 1 + a[pos].inode.childCount;
                 && 0 <= lo <= hi <= |a|
                 && (r.value.Some? <==> AllAccepted(a, lo, hi, recursive, h))
                 && (r.value.Some? ==> r.value.value == StoredDigests(m.entries, lo, hi))
    decreases |m.entries| - pos, 0
  {
    hide GoodRange, ValidInode, Readable, Mapping.GetChildByIndex, Accepts, DirsOwnNumber, SoFar, AllAccepted;
    var inode := m.entries[pos].inode;
    var hashed := [];
    ghost var sound := ImageOf(m, a);
    if sound { NoneSoFar(m, a, pos, recursive, h); }
    for idx := 0 to inode.childCount
      invariant sound ==> SoFar(m, a, pos, idx, hashed, recursive, h)
    {
      if sound { OneMoreChild(m, a, pos, idx, hashed, recursive, h); }
      var child :- m.GetChildByIndex(pos, idx);
      ChildIsLater(m, pos, idx);
      if Checked(m.entries[child].inode.kind, recursive) {
        var accepted :- DigestValidate(m, child, recursive, h, a);
        if !accepted {
          if sound { ReadableAt(a, pos); }
          return Ok(None);
        }
      }
      hashed := hashed + m.entries[child].inode.digest;
    }
    if sound { AllSoFar(m, a, pos, hashed, recursive, h); }
    r := Ok(Some(hashed));
  }

  /** The loop over the chunks of a file in `digest_validate`. */
  method HashChunks(e: Entry) returns (r: Result<seq<Byte>>)
    ensures e.inode.childCount == |e.chunks| ==> r == Ok(BlockIds(e.chunks))
    ensures e.inode.childCount == |e.chunks| ==> r.Ok? && Strung(r.value, ChunkDigests(e.chunks))
    ensures r.Ok? <==> e.inode.childCount <= |e.chunks|
  {
    BlockIdsStrung(e.chunks);
    var hashed := [];
    for idx := 0 to e.inode.childCount
      invariant idx <= |e.chunks|
      invariant e.inode.childCount == |e.chunks| ==> hashed == BlockIds(e.chunks[..idx])
    {
      if idx >= |e.chunks| {
        return Err(Enoent);
      }
      assert e.chunks[..idx + 1][..idx] == e.chunks[..idx];
      hashed := hashed + e.chunks[idx].blockId;
    }
    assert e.inode.childCount == |e.chunks| ==> e.chunks[..e.inode.childCount] == e.chunks;
    r := Ok(hashed);
  }

  /** `digest_validate`, for the inode at position `pos`. */
  method DigestValidate(m: Mapping, pos: nat, recursive: bool, h: Hash, ghost a: seq<Node>) returns (r: Result<bool>)
    requires pos < |m.entries| && ValidInode(m.entries[pos].inode, |m.entries|) && DirsOwnNumber(m)
    ensures ImageOf(m, a) ==> r == Ok(Accepts(a, pos, recursive, h))
    decreases |m.entries| - pos, 1
  {
    hide GoodRange, ValidInode, Readable, DirsOwnNumber, Accepts;
    var e := m.entries[pos];
    if ImageOf(m, a) { AcceptsWhen(m, a, pos, recursive, h); }
    var hashed := [];
    if e.inode.kind.Symlink? {
      hashed := if e.symlink.Some? then e.symlink.value else [];
    } else if e.inode.kind.Dir? {
      var children :- ValidateChildren(m, pos, recursive, h, a);
      if children.None? {
        return Ok(false);
      }
      hashed := children.value;
    } else {
      hashed :- HashChunks(e);
    }
    r := Ok(e.inode.digest == h(hashed));
  }

  lemma AcceptsWhen(m: Mapping, a: seq<Node>, pos: nat, recursive: bool, h: Hash)
    requires ImageOf(m, a) && pos < |a|
    ensures var e := m.entries[pos];
            var lo, hi := e.inode.childIndex - 1, e.inode.childIndex - 1 + e.inode.childCount;
            && (e.inode.kind.Dir? ==>
                  && 0 <= lo <= hi <= |a|
                  && (Accepts(a, pos, recursive, h) <==>
                        AllAccepted(a, lo, hi, recursive, h) && e.inode.digest == h(StoredDigests(m.entries, lo, hi))))
            && (!e.inode.kind.Dir? ==>
                  (Accepts(a, pos, recursive, h) <==> e.inode.digest == h(Content(e)))
                      && e.inode.childCount == |e.chunks|)
  {
    hide GoodRange, ValidInode, Readable;
    ReadableAt(a, pos);
  }

  // ----- what the builder writes, the reader accepts -----

  /** A node of the finished image. */
  ghost predicate Finished(a: seq<Node>, b: seq<Node>, h: Hash)
    requires RangesAhead(a) && |b| == |a|
  {
    forall q :: 0 <= q < |a| ==> b[q] == WithDigest(a[q], DigestAt(a, q, h))
  }

  lemma FinishedAt(a: seq<Node>, b: seq<Node>, q: nat, h: Hash)
    requires RangesAhead(a) && |b| == |a| && Finished(a, b, h) && q < |a|
    ensures b[q].inode.digest == DigestAt(a, q, h) && b[q].inode.kind == a[q].inode.kind && b[q].chunks == a[q].chunks
    ensures b[q].inode.childIndex == a[q].inode.childIndex && b[q].inode.childCount == a[q].inode.childCount
    ensures a[q].IsDir() ==>
              q + 1 < a[q].inode.childIndex && a[q].inode.childIndex - 1 + a[q].inode.childCount <= |a|
  {
    hide DigestAt;
  }

  lemma {:induction false} StoredAreComputed(a: seq<Node>, b: seq<Node>, k: nat, lo: nat, hi: nat, h: Hash)
    requires RangesAhead(a) && |b| == |a| && Finished(a, b, h) && k < lo && hi <= |a| && k < |a|
    ensures StoredDigests(Views(b), lo, hi) == DigestsOf(a, k, lo, hi, h)
    decreases hi
  {
    hide RangesAhead, DigestAt, Finished;
    if lo < hi {
      StoredAreComputed(a, b, k, lo, hi - 1, h);
      FinishedAt(a, b, hi - 1, h);
    }
  }

  /** In a finished image every directory's digest matches, and a file's does exactly when the digest it was given is
      what the reader computes. */
  lemma DigestsMatch(a: seq<Node>, b: seq<Node>, q: nat, sha256: Hash, h: Hash)
    requires RangesAhead(a) && |b| == |a| && Finished(a, b, h) && FilesDigested(a, sha256) && q < |b|
    ensures b[q].IsDir() ==> DigestMatches(Views(b), q, h)
    ensures !b[q].IsDir() ==> (DigestMatches(Views(b), q, h) <==> NodeDigest(b[q], sha256) == h(Content(View(b[q]))))
  {
    hide RangesAhead, Finished, BlockIds, Content, DigestsOf, StoredDigests;
    FinishedAt(a, b, q, h);
    if b[q].IsDir() {
      StoredAreComputed(a, b, q, a[q].inode.childIndex - 1, a[q].inode.childIndex - 1 + a[q].inode.childCount, h);
    } else {
      FinishedDigest(a, b, q, sha256, h);
    }
  }

  lemma FinishedDigest(a: seq<Node>, b: seq<Node>, q: nat, sha256: Hash, h: Hash)
    requires RangesAhead(a) && |b| == |a| && Finished(a, b, h) && FilesDigested(a, sha256) && q < |b| && !b[q].IsDir()
    ensures NodeDigest(b[q], sha256) == NodeDigest(a[q], sha256) == b[q].inode.digest
  {
    hide RangesAhead, BlockIds;
  }

  /** The digest a file was given is what the reader computes for it. */
  ghost predicate FileAgrees(n: Node, sha256: Hash, h: Hash) {
    !n.IsDir() ==> NodeDigest(n, sha256) == h(Content(View(n)))
  }

  /** An inode is accepted, with all below, if every digest from it on matches. */
  lemma {:induction false} MatchingIsAccepted(b: seq<Node>, pos: nat, h: Hash)
    requires Readable(b) && pos < |b| && forall q :: 0 <= q < |b| ==> DigestMatches(Views(b), q, h)
    ensures Accepts(b, pos, true, h)
    decreases |b| - pos
  {
    hide Readable, GoodRange, ValidInode, DigestMatches;
    ReadableAt(b, pos);
    if b[pos].IsDir() {
      forall c | b[pos].inode.childIndex - 1 <= c < b[pos].inode.childIndex - 1 + b[pos].inode.childCount
        ensures Accepts(b, c, true, h)
      {
        MatchingIsAccepted(b, c, h);
      }
    }
  }

  /** Whatever lies below an accepted directory is accepted. */
  lemma {:induction false} AcceptedBelow(b: seq<Node>, pos: nat, h: Hash)
    requires Readable(b) && pos < |b| && Accepts(b, 0, true, h)
    ensures Accepts(b, pos, true, h)
    decreases pos
  {
    hide Readable, GoodRange, ValidInode, DigestMatches;
    if pos > 0 {
      var p := ParentOf(b, pos);
      AcceptedBelow(b, p, h);
      ReadableAt(b, p);
    }
  }

  lemma ReadableHasRoot(b: seq<Node>)
    requires Readable(b)
    ensures 0 < |b|
  {
  }

  lemma ParentOf(b: seq<Node>, pos: nat) returns (p: nat)
    requires Readable(b) && 0 < pos < |b|
    ensures p < pos && b[p].IsDir()
    ensures b[p].inode.childIndex - 1 <= pos < b[p].inode.childIndex - 1 + b[p].inode.childCount
  {
    hide GoodRange, ValidInode;
    assert WellPlaced(b, pos);
    p := b[pos].inode.parent - 1;
  }

  /** The recursive check accepts the root of an image exactly when every stored digest matches. */
  lemma RootAcceptedIffAllMatch(b: seq<Node>, h: Hash)
    requires Readable(b)
    ensures 0 < |b| && (Accepts(b, 0, true, h) <==> forall q :: 0 <= q < |b| ==> DigestMatches(Views(b), q, h))
  {
    hide Readable, GoodRange, ValidInode, DigestMatches;
    ReadableHasRoot(b);
    if Accepts(b, 0, true, h) {
      forall q | 0 <= q < |b|
        ensures DigestMatches(Views(b), q, h)
      {
        AcceptedBelow(b, q, h);
      }
    }
    if forall q :: 0 <= q < |b| ==> DigestMatches(Views(b), q, h) {
      MatchingIsAccepted(b, 0, h);
    }
  }

  /** The recursive check of a finished image accepts its root exactly when, for every file, the digest it was given
      (by an upper layer the SHA-256 of its chunk digests) is what the image's own hash makes of its content. */
  lemma RootAcceptedIff(a: seq<Node>, b: seq<Node>, sha256: Hash, h: Hash)
    requires RangesAhead(a) && |b| == |a| && Finished(a, b, h) && FilesDigested(a, sha256) && Readable(b)
    ensures 0 < |b| && (Accepts(b, 0, true, h) <==> forall q :: 0 <= q < |b| ==> FileAgrees(b[q], sha256, h))
  {
    hide Finished, FilesDigested, Readable, DigestMatches, Content, NodeDigest, Accepts, RangesAhead;
    RootAcceptedIffAllMatch(b, h);
    forall q | 0 <= q < |b|
      ensures DigestMatches(Views(b), q, h) <==> FileAgrees(b[q], sha256, h)
    {
      DigestsMatch(a, b, q, sha256, h);
    }
  }

  /** For an image whose own hash is SHA-256 the check accepts, if no symbolic link comes from an upper layer and the
      files of lower layers came with digests that agree. */
  lemma WithoutSymlinksAccepted(a: seq<Node>, b: seq<Node>, sha256: Hash)
    requires RangesAhead(a) && |b| == |a| && Finished(a, b, sha256) && FilesDigested(a, sha256) && Readable(b)
    requires forall q :: 0 <= q < |b| ==>
               if b[q].overlay.Lower? then FileAgrees(b[q], sha256, sha256) else !b[q].inode.kind.Symlink?
    ensures 0 < |b| && Accepts(b, 0, true, sha256)
  {
    hide Finished, FilesDigested, Readable, Accepts;
    RootAcceptedIff(a, b, sha256, sha256);
  }

  /** A symbolic link of an upper layer, whose digest is that of empty input, makes the check fail unless the image's
      hash of the target is the same. */
  lemma SymlinkRefused(a: seq<Node>, b: seq<Node>, q: nat, sha256: Hash, h: Hash)
    requires RangesAhead(a) && |b| == |a| && Finished(a, b, h) && FilesDigested(a, sha256) && Readable(b)
    requires q < |b| && b[q].inode.kind.Symlink? && b[q].symlink.Some? && b[q].chunks == [] && !b[q].overlay.Lower?
    requires sha256([]) != h(b[q].symlink.value)
    ensures 0 < |b| && !Accepts(b, 0, true, h)
  {
    hide Finished, FilesDigested, Readable, Accepts;
    RootAcceptedIff(a, b, sha256, h);
    assert !FileAgrees(b[q], sha256, h);
  }

  /** An image whose root has an empty digest, as images have before any digest pass, is refused unless the hash of the
      digests below is that very value. */
  lemma UndigestedRefused(a: seq<Node>, h: Hash)
    requires Readable(a) && a[0].IsDir() && a[0].inode.digest == Zeros(DIGEST_SIZE)
    requires var lo, hi := a[0].inode.childIndex - 1, a[0].inode.childIndex - 1 + a[0].inode.childCount;
             0 <= lo <= hi <= |a| && h(StoredDigests(Views(a), lo, hi)) != Zeros(DIGEST_SIZE)
    ensures !Accepts(a, 0, false, h) && !Accepts(a, 0, true, h)
  {
    hide Readable, StoredDigests;
  }

  // ----- both passes together -----

  lemma {:induction false} BlockIdsSame(c: seq<Chunk>, d: seq<Chunk>)
    requires |c| == |d| && forall i :: 0 <= i < |c| ==> c[i].blockId == d[i].blockId
    ensures BlockIds(c) == BlockIds(d)
  {
    if c != [] { BlockIdsSame(c[..|c| - 1], d[..|d| - 1]); }
  }

  lemma DumpedNode(n: Node, blobIndex: nat, sha256: Hash)
    ensures var m := Dumped(n, blobIndex, sha256);
            && SameShape(n, m, sha256) && m.inode.digest == NodeDigest(m, sha256)
            && |m.chunks| == |n.chunks| && SameButDigest(n, m) && SameContent(n, m, sha256)
  {
    BlockIdsSame(n.chunks, Dumped(n, blobIndex, sha256).chunks);
  }

  /** Nothing the reader validates has changed. */
  ghost predicate SameButDigest(m: Node, n: Node) {
    m.path == n.path && |m.chunks| == |n.chunks| && n.inode.(digest := m.inode.digest) == m.inode
  }

  lemma StaysReadable(a: seq<Node>, b: seq<Node>)
    requires Readable(a) && |b| == |a| && forall q :: 0 <= q < |a| ==> SameButDigest(a[q], b[q])
    ensures Readable(b)
  {
    hide ValidInode, Less, WellPlaced, GoodRange;
    forall q | 0 <= q < |a|
      ensures GoodRange(b, q) && (q > 0 ==> WellPlaced(b, q)) && ValidInode(b[q].inode, |b|)
                && (b[q].IsDir() ==> b[q].inode.ino == q + 1)
    {
      ReadableAt(a, q);
      RangeStays(a, b, q);
      if q > 0 { PlaceStays(a, b, q); }
      assert SameButDigest(a[q], b[q]);
      ValidStays(a[q].inode, b[q].inode, |a|);
    }
  }

  lemma ValidStays(m: Inode, n: Inode, max: nat)
    requires ValidInode(m, max) && n.(digest := m.digest) == m
    ensures ValidInode(n, max)
  {
  }

  lemma SubdirsStay(a: seq<Node>, b: seq<Node>, lo: int, hi: int)
    requires |b| == |a| && forall q :: 0 <= q < |a| ==> SameButDigest(a[q], b[q])
    ensures Subdirs(b, lo, hi) == Subdirs(a, lo, hi)
  {
    forall c | 0 <= c < |a|
      ensures a[c].IsDir() <==> b[c].IsDir()
    {
      assert SameButDigest(a[c], b[c]);
    }
  }

  lemma RangeStays(a: seq<Node>, b: seq<Node>, q: nat)
    requires GoodRange(a, q) && |b| == |a| && forall q :: 0 <= q < |a| ==> SameButDigest(a[q], b[q])
    ensures GoodRange(b, q)
  {
    hide Less;
    assert SameButDigest(a[q], b[q]);
    if a[q].IsDir() {
      SubdirsStay(a, b, a[q].inode.childIndex - 1, a[q].inode.childIndex - 1 + a[q].inode.childCount);
      var lo, hi := a[q].inode.childIndex - 1, a[q].inode.childIndex - 1 + a[q].inode.childCount;
      forall i, j | lo <= i < j < hi
        ensures Less(b[i].Name(), b[j].Name())
      {
        assert SameButDigest(a[i], b[i]) && SameButDigest(a[j], b[j]);
      }
      forall i | lo <= i < hi
        ensures b[i].inode.parent == b[q].inode.ino
      {
        assert SameButDigest(a[i], b[i]);
      }
    }
  }

  lemma PlaceStays(a: seq<Node>, b: seq<Node>, q: nat)
    requires WellPlaced(a, q) && |b| == |a| && GoodRange(b, q) && forall q :: 0 <= q < |a| ==> SameButDigest(a[q], b[q])
    ensures WellPlaced(b, q)
  {
    hide GoodRange;
    var p := a[q].inode.parent - 1;
    assert SameButDigest(a[q], b[q]) && SameButDigest(a[p], b[p]);
  }

  lemma ReadableAhead(a: seq<Node>)
    requires Readable(a)
    ensures RangesAhead(a)
  {
    hide Readable, GoodRange, ValidInode;
    forall k | 0 <= k < |a| && a[k].IsDir()
      ensures k + 1 < a[k].inode.childIndex && a[k].inode.childIndex - 1 + a[k].inode.childCount <= |a|
    {
      ReadableAt(a, k);
    }
  }

  /** What the check compares for a file has not changed. */
  ghost predicate SameContent(m: Node, n: Node, sha256: Hash) {
    m.inode.kind == n.inode.kind && NodeDigest(m, sha256) == NodeDigest(n, sha256)
        && Content(View(m)) == Content(View(n))
  }

  lemma SameAgreement(m: Node, n: Node, sha256: Hash, h: Hash)
    requires SameContent(m, n, sha256)
    ensures FileAgrees(m, sha256, h) <==> FileAgrees(n, sha256, h)
  {
  }

  /** The digest passes of `dump_to_file` on a readable array that lays out `f`, nodes of lower layers included: the
      root's digest is that of the tree, and the reader's recursive check accepts exactly when every file agrees. */
  method FinishDigests(nodes: array<Node>, blobIndex: nat, sha256: Hash, h: Hash, ghost f: FileTree,
      ghost leaf: File -> RafsDigest)
    requires Readable(nodes[..]) && Rep(nodes[..], 0, f, 1) && Leaves(nodes[..], leaf, sha256)
    modifies nodes
    ensures Readable(nodes[..]) && nodes.Length > 0 && nodes[0].inode.digest == Merkle(f, leaf, h)
    ensures Accepts(nodes[..], 0, true, h) <==>
            forall q :: 0 <= q < nodes.Length ==> FileAgrees(old(nodes[q]), sha256, h)
    ensures forall q :: 0 <= q < nodes.Length ==>
              nodes[q] == WithDigest(Dumped(old(nodes[q]), blobIndex, sha256), nodes[q].inode.digest)
    ensures forall q :: 0 <= q < nodes.Length ==>
              if nodes[q].IsDir() then
                forall s :: DigestedBytes(Views(nodes[..]), View(nodes[q]), s) ==> nodes[q].inode.digest == h(s)
              else DumpedRight(old(nodes[q]), nodes[q], blobIndex, sha256)
  {
    hide DigestedBytes, DumpedRight, DigestMatches;
    hide Readable, Rep, Dumped, FileAgrees, SameShape, SameButDigest, DigestAt, Accepts, BlockIds, SameContent,
        NodeDigest;
    ghost var l := nodes[..];
    DumpBlob(nodes, blobIndex, sha256);
    ghost var a := nodes[..];
    forall q | 0 <= q < |l|
      ensures SameShape(l[q], a[q], sha256) && SameButDigest(l[q], a[q])
                && a[q].inode.digest == NodeDigest(a[q], sha256)
      ensures SameContent(l[q], a[q], sha256)
    {
      DumpedNode(l[q], blobIndex, sha256);
    }
    StaysReadable(l, a);
    ReadableAhead(a);
    ReadableHasRoot(a);
    DigestNodes(nodes, h);
    ghost var b := nodes[..];
    forall q | 0 <= q < |a|
      ensures SameButDigest(a[q], b[q]) && (FileAgrees(l[q], sha256, h) <==> FileAgrees(b[q], sha256, h))
    {
      WithDigestSame(a[q], DigestAt(a, q, h));
      AgreesStill(a, b, q, sha256, h);
      SameAgreement(l[q], a[q], sha256, h);
    }
    StaysReadable(a, b);
    PassIsMerkle(l, a, 0, f, 1, leaf, sha256, h);
    RootAcceptedIff(a, b, sha256, h);
    forall q | 0 <= q < |b|
      ensures if b[q].IsDir() then
                forall s :: DigestedBytes(Views(b), View(b[q]), s) ==> b[q].inode.digest == h(s)
              else DumpedRight(l[q], b[q], blobIndex, sha256)
    {
      DigestIsRight(l, a, b, q, blobIndex, sha256, h);
    }
  }

  lemma DigestIsRight(l: seq<Node>, a: seq<Node>, b: seq<Node>, q: nat, blobIndex: nat, sha256: Hash, h: Hash)
    requires RangesAhead(a) && |b| == |a| == |l| && Finished(a, b, h) && FilesDigested(a, sha256) && q < |b|
    requires DumpedRight(l[q], a[q], blobIndex, sha256)
    ensures if b[q].IsDir() then
              forall s :: DigestedBytes(Views(b), View(b[q]), s) ==> b[q].inode.digest == h(s)
            else DumpedRight(l[q], b[q], blobIndex, sha256)
  {
    hide RangesAhead, DigestMatches, DigestedBytes, DumpedRight, FilesDigested;
    FinishedAt(a, b, q, h);
    if b[q].IsDir() {
      DigestsMatch(a, b, q, sha256, h);
      forall s | DigestedBytes(Views(b), View(b[q]), s)
        ensures b[q].inode.digest == h(s)
      {
        DigestMatchesIff(Views(b), q, s, h);
      }
    } else {
      FileUntouched(a, b, q, h);
    }
  }

  lemma FileUntouched(a: seq<Node>, b: seq<Node>, q: nat, h: Hash)
    requires RangesAhead(a) && |b| == |a| && Finished(a, b, h) && q < |b| && !b[q].IsDir()
    ensures b[q] == a[q]
  {
    hide RangesAhead;
  }

  lemma AgreesStill(a: seq<Node>, b: seq<Node>, q: nat, sha256: Hash, h: Hash)
    requires RangesAhead(a) && |b| == |a| && FilesDigested(a, sha256) && Finished(a, b, h) && q < |a|
    ensures FileAgrees(a[q], sha256, h) <==> FileAgrees(b[q], sha256, h)
  {
    hide RangesAhead, BlockIds;
    if !a[q].IsDir() { FinishedDigest(a, b, q, sha256, h); }
  }

  lemma WithDigestSame(n: Node, digest: RafsDigest)
    ensures SameButDigest(n, WithDigest(n, digest))
  {
  }

  /** The array of an image without hard links is readable. */
  lemma ImageIsReadable(a: seq<Node>, f: FileTree)
    requires Image(a, f)
    ensures Readable(a)
  {
    hide Rep, Less, ValidInode, WellPlaced, GoodRange;
    ImageWellPlaced(a, f);
    ImageIsSound(a, f);
    forall q | 0 <= q < |a|
      ensures ValidInode(a[q].inode, |a|)
    {
      assert Mapping(Views(a)).Searchable(q);
      assert Mapping(Views(a)).entries[q].inode == a[q].inode;
    }
  }
}
