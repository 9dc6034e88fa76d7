/** The image as bytes: where each node is written, where the inode table says it is, and what the two readers find. */
module ByteLayout {
  import opened Wrappers
  import opened Bytes
  import opened Nodes
  import opened XAttrs
  import opened OnDisk
  import opened Direct

  // ----- one node -----

  /** The bytes of `s`, padded to the alignment of the size field `n`. */
  function Padded(s: seq<Byte>, n: nat): (b: seq<Byte>)
    requires |s| <= Align(n)
    ensures |b| == Align(n)
  {
    s + Zeros(Align(n) - |s|)
  }

  /** A node whose record is consistent and fits the format. */
  ghost predicate Encodable(n: Node) {
    && InodeFits(n.inode)
    && n.inode.nameSize == |n.Name()|
    && (n.symlink.Some? <==> n.inode.kind.Symlink?)
    && n.inode.symlinkSize == (if n.symlink.Some? then |n.symlink.value| else 0)
    && (n.inode.HasXattr() <==> n.xattrs != []) && Storable(n.xattrs) && XattrSize(n.xattrs) < U64
    && (!n.inode.kind.Reg? ==> n.chunks == [])
    && (!n.inode.kind.Dir? ==> |n.chunks| == n.inode.childCount)
    && (forall i :: 0 <= i < |n.chunks| ==> ChunkFits(n.chunks[i]))
  }

  ghost function LinkBytes(n: Node): (b: seq<Byte>)
    requires Encodable(n)
    ensures |b| == Align(n.inode.symlinkSize)
  {
    if n.symlink.Some? then Padded(n.symlink.value, n.inode.symlinkSize) else []
  }

  /** What `dump_bootstrap` writes for a node. */
  ghost function NodeBytes(n: Node): seq<Byte>
    requires Encodable(n)
  {
    InodeBytes(n.inode) + (Padded(n.Name(), n.inode.nameSize)
        + (LinkBytes(n) + (XattrBytes(n.xattrs) + AllChunks(n.chunks))))
  }

  /** `OndiskInode::size`. */
  function InodeSize(i: Inode): nat {
    INODE_SIZE + (Align(i.nameSize) + Align(i.symlinkSize))
  }

  /** The size the offset pass accounts for: with extended attributes, as `Builder::dump_to_file` does, or without
      them, as `Bootstrap::dump` does. */
  function Accounted(n: Node, countXattrs: bool): nat {
    InodeSize(n.inode)
    + (if countXattrs && n.inode.HasXattr() && n.xattrs != [] then 8 + Align(XattrSize(n.xattrs)) else 0)
    + (if n.IsReg() then n.inode.childCount * CHUNK_SIZE else 0)
  }

  /** The written size is what is accounted for with attributes, a multiple of 8; without, the attributes are
      missing. */
  lemma NodeLength(n: Node)
    requires Encodable(n)
    ensures |NodeBytes(n)| == Accounted(n, true) == Accounted(n, false) + |XattrBytes(n.xattrs)|
    ensures |NodeBytes(n)| % ALIGNMENT == 0 && |NodeBytes(n)| >= INODE_SIZE
    ensures |XattrBytes(n.xattrs)| > 0 <==> n.xattrs != []
  {
    hide InodeFits, InodeBytes, XattrBytes, Storable, ChunkFits, AllChunks, Padded, LinkBytes, Encodable, Align;
    EncodableSizes(n);
    XattrLength(n.xattrs);
    AlignIsAligned(n.inode.nameSize);
    AlignIsAligned(n.inode.symlinkSize);
    AlignIsAligned(XattrSize(n.xattrs));
  }

  lemma AlignIsAligned(n: nat)
    ensures Align(n) % ALIGNMENT == 0
  {
  }

  lemma EncodableSizes(n: Node)
    requires Encodable(n)
    ensures |InodeBytes(n.inode)| == INODE_SIZE
    ensures n.inode.nameSize == |n.Name()| <= Align(n.inode.nameSize)
    ensures |Padded(n.Name(), n.inode.nameSize)| == Align(n.inode.nameSize)
              && |LinkBytes(n)| == Align(n.inode.symlinkSize)
    ensures |AllChunks(n.chunks)| == CHUNK_SIZE * |n.chunks|
    ensures n.inode.HasXattr() <==> n.xattrs != []
    ensures if n.IsReg() then |n.chunks| == n.inode.childCount else n.chunks == []
  {
    hide InodeFits, InodeBytes, XattrBytes, XattrSize, Storable, ChunkFits, AllChunks;
    InodeRoundTrip(n.inode, []);
    ChunksRoundTrip(n.chunks, []);
  }

  lemma XattrLength(ps: seq<Pair>)
    ensures |XattrBytes(ps)| == if ps == [] then 0 else 8 + Align(XattrSize(ps))
  {
  }

  method StoreChunks(b: seq<Byte>, chunks: seq<Chunk>) returns (b': seq<Byte>)
    ensures b' == b + AllChunks(chunks)
  {
    hide ChunkBytes, AllChunks;
    b' := b;
    NoChunks();
    for i := 0 to |chunks|
      invariant b' == b + AllChunks(chunks[..i])
    {
      assert chunks[..i + 1] == chunks[..i] + [chunks[i]];
      AllChunksAppend(chunks[..i], chunks[i]);
      b' := b' + ChunkBytes(chunks[i]);
    }
    assert chunks[..|chunks|] == chunks;
  }

  /** `dump_bootstrap`. A regular file or symbolic link whose chunk count is off is an error. */
  method DumpBootstrap(n: Node) returns (r: Result<seq<Byte>>)
    requires |n.Name()| <= Align(n.inode.nameSize)
               && (n.symlink.Some? ==> |n.symlink.value| <= Align(n.inode.symlinkSize))
    ensures r.Ok? <==> n.IsReg() ==> n.inode.childCount == |n.chunks|
    ensures r.Ok? && Encodable(n) ==> r.value == NodeBytes(n)
  {
    hide InodeBytes, XattrBytes, AllChunks, InodeFits, Storable, ChunkFits, Padded, XattrSize, Align;
    var b := InodeBytes(n.inode);
    b := b + Padded(n.Name(), n.inode.nameSize);
    var link := if n.symlink.Some? then Padded(n.symlink.value, n.inode.symlinkSize) else [];
    b := b + link;
    XattrLength(n.xattrs);
    if n.xattrs != [] {
      var xattrs, size := StoreXattrs(n.xattrs);
      b := b + xattrs;
    }
    if n.IsReg() && n.inode.childCount != |n.chunks| {
      return Err(Other);
    }
    b := StoreChunks(b, n.chunks);
    r := Ok(b);
  }

  lemma NoChunks()
    ensures AllChunks([]) == []
  {
  }

  lemma {:induction false} AllChunksAppend(cs: seq<Chunk>, c: Chunk)
    ensures AllChunks(cs + [c]) == AllChunks(cs) + ChunkBytes(c)
  {
    hide ChunkBytes;
    if cs == [] {
      assert cs + [c] == [c] && [c][1..] == [];
      assert AllChunks([c]) == ChunkBytes(c) + AllChunks([]);
    } else {
      assert (cs + [c])[1..] == cs[1..] + [c];
      AllChunksAppend(cs[1..], c);
    }
  }

  // ----- reading one node -----

  /** `n` bytes from the start of `s`, and what follows their padding. */
  function TakePadded(s: seq<Byte>, n: nat): Option<(seq<Byte>, seq<Byte>)> {
    if |s| < Align(n) then None else Some((s[..n], s[Align(n)..]))
  }

  /** The extended attributes at the start of `s`, and what follows. */
  function TakeXattrs(s: seq<Byte>, present: bool): Option<(seq<Pair>, seq<Byte>)> {
    if !present then Some(([], s))
    else if |s| < 8 then None
    else
      var size := FromLe(s[..8]);
      if |s| - 8 < Align(size) then None
      else match XAttrs.Parse(s[8..][..size])
           case Ok(pairs) => Some((pairs, s[8 + Align(size)..]))
           case Err(_) => None
  }

  /** The record at the start of `s`: what either reader makes of it, and what follows; none if the data ends inside it
      or is of a kind the model does not have. */
  function ReadRecord(s: seq<Byte>): Option<(Entry, seq<Byte>)> {
    if |s| < INODE_SIZE then None
    else match ReadInode(s)
         case None => None
         case Some(inode) => ReadRest(inode, s[INODE_SIZE..])
  }

  function ReadRest(inode: Inode, s: seq<Byte>): Option<(Entry, seq<Byte>)> {
    match TakePadded(s, inode.nameSize)
    case None => None
    case Some((name, s1)) =>
      match TakePadded(s1, inode.symlinkSize)
      case None => None
      case Some((link, s2)) =>
        match TakeXattrs(s2, inode.HasXattr())
        case None => None
        case Some((xattrs, s3)) =>
          match ReadChunks(s3, if inode.kind.Reg? then inode.childCount else 0)
          case None => None
          case Some((chunks, rest)) =>
            Some((Entry(inode, name, if inode.kind.Symlink? then Some(link) else None, chunks, xattrs), rest))
  }

  lemma TakePaddedBack(x: seq<Byte>, n: nat, rest: seq<Byte>)
    requires |x| == n
    ensures TakePadded(Padded(x, n) + rest, n) == Some((x, rest))
  {
    var s := Padded(x, n) + rest;
    assert s[..n] == x && s[Align(n)..] == rest;
  }

  lemma TakeXattrsBack(ps: seq<Pair>, rest: seq<Byte>)
    requires Storable(ps) && XattrSize(ps) < U64
    ensures TakeXattrs(XattrBytes(ps) + rest, ps != []) == Some((ps, rest))
  {
    hide AllPairs, XAttrs.Parse, FromLe, Le, Storable;
    if ps == [] {
      assert XattrBytes(ps) + rest == rest;
    } else {
      StoredSize(ps);
      ParseStored(ps);
      var b := XattrBytes(ps);
      assert (b + rest)[..8] == b[..8];
      assert (b + rest)[8..][..XattrSize(ps)] == b[8..][..XattrSize(ps)];
      assert (b + rest)[8 + Align(XattrSize(ps))..] == rest;
    }
  }

  /** A written node reads back as its own view, and exactly its bytes are consumed. */
  lemma RecordRoundTrip(n: Node, rest: seq<Byte>)
    requires Encodable(n)
    ensures ReadRecord(NodeBytes(n) + rest) == Some((View(n), rest))
  {
    hide InodeFits, InodeBytes, XattrBytes, Storable, ChunkFits, AllChunks, Padded, TakePadded, TakeXattrs, ReadChunks,
         ReadInode;
    var s4 := AllChunks(n.chunks) + rest;
    var s3 := XattrBytes(n.xattrs) + s4;
    var s2 := LinkBytes(n) + s3;
    var s1 := Padded(n.Name(), n.inode.nameSize) + s2;
    InodeRoundTrip(n.inode, s1);
    assert NodeBytes(n) + rest == InodeBytes(n.inode) + s1;
    assert (InodeBytes(n.inode) + s1)[INODE_SIZE..] == s1;
    TakePaddedBack(n.Name(), n.inode.nameSize, s2);
    LinkBack(n, s3);
    TakeXattrsBack(n.xattrs, s4);
    ChunksRoundTrip(n.chunks, rest);
  }

  lemma LinkBack(n: Node, rest: seq<Byte>)
    requires Encodable(n)
    ensures var s := TakePadded(LinkBytes(n) + rest, n.inode.symlinkSize);
            s.Some? && s.value.1 == rest && (n.symlink.Some? ==> s.value.0 == n.symlink.value)
  {
    hide InodeFits, XattrSize, Storable, ChunkFits;
    if n.symlink.Some? {
      TakePaddedBack(n.symlink.value, n.inode.symlinkSize, rest);
    } else {
      assert LinkBytes(n) + rest == rest;
    }
  }

  // ----- the places in a record -----

  /** Rounded up to a multiple of eight. */
  function Up8(n: nat): nat {
    (n + 7) / 8 * 8
  }

  lemma AlignIsUp8(n: nat)
    ensures Align(n) == Up8(n)
  {
  }

  /** Where the link of a record starts, and where what follows it does. */
  function LinkStart(i: Inode): nat {
    128 + Up8(i.nameSize)
  }

  function XattrStart(i: Inode): nat {
    LinkStart(i) + Up8(i.symlinkSize)
  }

  /** Where the chunks of a record start: after the attributes and their length, if there are any. */
  function ChunkStart(b: seq<Byte>, i: Inode): nat {
    if i.flags / 4 % 2 == 0 || XattrStart(i) + 8 > |b| then XattrStart(i)
    else XattrStart(i) + 8 + Up8(U64At(b, XattrStart(i)))
  }

  /** The name and the link of a record, from their places. */
  ghost predicate NamesAt(b: seq<Byte>, e: Entry) {
    && 128 + e.inode.nameSize <= LinkStart(e.inode)
    && LinkStart(e.inode) + e.inode.symlinkSize <= XattrStart(e.inode) <= |b|
    && e.name == b[128..128 + e.inode.nameSize]
    && (e.inode.kind.Symlink? ==>
          e.symlink == Some(b[LinkStart(e.inode)..LinkStart(e.inode) + e.inode.symlinkSize]))
    && (!e.inode.kind.Symlink? ==> e.symlink == None)
  }

  /** What a reader finds at which place of a record: the inode, the name, the link and the chunks. */
  ghost predicate RecordAt(b: seq<Byte>, e: Entry) {
    && |b| >= 128 && InodeAt(b, e.inode) && NamesAt(b, e)
    && |e.chunks| == (if e.inode.kind.Reg? then e.inode.childCount else 0)
    && forall k :: 0 <= k < |e.chunks| ==>
         && ChunkStart(b, e.inode) + 80 * k + 80 <= |b|
         && ChunkAt(b[ChunkStart(b, e.inode) + 80 * k..], e.chunks[k])
  }

  lemma {:induction false} ChunksAt(s: seq<Byte>, count: nat, k: nat)
    requires ReadChunks(s, count).Some? && k < count
    ensures |ReadChunks(s, count).value.0| == count && 80 * k + 80 <= |s|
    ensures ReadChunks(s, count).value.0[k] == ReadChunk(s[80 * k..])
    decreases count
  {
    hide ReadChunk;
    if k > 0 {
      ChunksAt(s[CHUNK_SIZE..], count - 1, k - 1);
      assert s[CHUNK_SIZE..][80 * (k - 1)..] == s[80 * k..];
    } else {
      assert s[0..] == s;
      ChunkCount(s, count);
    }
  }

  lemma {:induction false} ChunkCount(s: seq<Byte>, count: nat)
    requires ReadChunks(s, count).Some?
    ensures |ReadChunks(s, count).value.0| == count
    decreases count
  {
    hide ReadChunk;
    if count > 0 { ChunkCount(s[CHUNK_SIZE..], count - 1); }
  }

  lemma TailAt(b: seq<Byte>, i: Inode, xattrs: seq<Pair>, rest: seq<Byte>)
    requires XattrStart(i) <= |b| && TakeXattrs(b[XattrStart(i)..], i.HasXattr()) == Some((xattrs, rest))
    ensures ChunkStart(b, i) <= |b| && rest == b[ChunkStart(b, i)..]
  {
    hide XAttrs.Parse, Up8, Align;
    var x := XattrStart(i);
    if i.HasXattr() {
      FromLeAt(b, x);
      assert b[x..][..8] == b[x..x + 8];
      AlignIsUp8(U64At(b, x));
    }
  }

  lemma TakenAt(b: seq<Byte>, at: nat, n: nat)
    requires at <= |b| && TakePadded(b[at..], n).Some?
    ensures at + n <= at + Up8(n) <= |b| && TakePadded(b[at..], n) == Some((b[at..at + n], b[at + Up8(n)..]))
  {
    AlignIsUp8(n);
    assert b[at..][..n] == b[at..at + n] && b[at..][Up8(n)..] == b[at + Up8(n)..];
  }

  /** A record is read part by part. */
  lemma RecordParts(b: seq<Byte>, e: Entry, rest: seq<Byte>) returns (tail: seq<Byte>)
    requires ReadRecord(b) == Some((e, rest))
    ensures |b| >= 128 && ReadInode(b) == Some(e.inode) && NamesAt(b, e)
    ensures XattrStart(e.inode) <= |b|
              && TakeXattrs(b[XattrStart(e.inode)..], e.inode.HasXattr()) == Some((e.xattrs, tail))
    ensures ReadChunks(tail, if e.inode.kind.Reg? then e.inode.childCount else 0) == Some((e.chunks, rest))
  {
    hide ReadInode, TakePadded, TakeXattrs, ReadChunks, Up8;
    var i := ReadInode(b).value;
    TakenAt(b, 128, i.nameSize);
    TakenAt(b, LinkStart(i), i.symlinkSize);
    tail := TakeXattrs(b[XattrStart(i)..], i.HasXattr()).value.1;
  }

  /** Every part of a record is read from its place. */
  lemma ReadRecordAt(b: seq<Byte>)
    requires ReadRecord(b).Some?
    ensures RecordAt(b, ReadRecord(b).value.0)
  {
    hide ReadRecord, ReadInode, TakeXattrs, ReadChunks, InodeAt, ChunkAt, Up8, ReadChunk, ChunkStart, NamesAt,
        XattrStart;
    var (e, rest) := ReadRecord(b).value;
    var tail := RecordParts(b, e, rest);
    ReadInodeAt(b);
    TailAt(b, e.inode, e.xattrs, tail);
    var count := if e.inode.kind.Reg? then e.inode.childCount else 0;
    ChunkCount(tail, count);
    var start := ChunkStart(b, e.inode);
    forall k | 0 <= k < |e.chunks|
      ensures start + 80 * k + 80 <= |b| && ChunkAt(b[start + 80 * k..], e.chunks[k])
    {
      ChunksAt(tail, count, k);
      DropTwice(b, start, 80 * k);
      ReadChunkAt(tail[80 * k..]);
    }
  }

  /** A padded name or link ends in zeros. */
  lemma FillIsZero(n: Node)
    requires Encodable(n)
    ensures forall k :: n.inode.nameSize <= k < Align(n.inode.nameSize) ==> Padded(n.Name(), n.inode.nameSize)[k] == 0
    ensures forall k :: n.inode.symlinkSize <= k < Align(n.inode.symlinkSize) ==> LinkBytes(n)[k] == 0
  {
    hide InodeFits, Storable, XattrSize, ChunkFits, Align;
  }

  /** A node is written with every part at its place and zeros between them, and its attributes as a stored list. */
  lemma NodeBytesAt(n: Node)
    requires Encodable(n)
    ensures var b, x := NodeBytes(n), XattrStart(n.inode);
            && RecordAt(b, View(n)) && x + |XattrBytes(n.xattrs)| <= |b|
            && b[x..x + |XattrBytes(n.xattrs)|] == XattrBytes(n.xattrs)
            && (forall k :: 128 + n.inode.nameSize <= k < LinkStart(n.inode) ==> b[k] == 0)
            && (forall k :: LinkStart(n.inode) + n.inode.symlinkSize <= k < x ==> b[k] == 0)
  {
    hide ReadRecord, RecordAt, Encodable, InodeBytes, XattrBytes, AllChunks, Padded, LinkBytes, Up8;
    FillIsZero(n);
    RecordRoundTrip(n, []);
    assert NodeBytes(n) + [] == NodeBytes(n);
    ReadRecordAt(NodeBytes(n));
    EncodableSizes(n);
    AlignIsUp8(n.inode.nameSize);
    AlignIsUp8(n.inode.symlinkSize);
  }

  // ----- the inode table -----

  const SUPERBLOCK_SIZE := 8192

  class OndiskInodeTable {
    var data: seq<nat>

    /** `new`: room for the entries, rounded up to the alignment. */
    constructor (entries: nat)
      ensures |data| == Align(entries * 4) / 4 >= entries && forall i :: 0 <= i < |data| ==> data[i] == 0
    {
      data := seq(Align(entries * 4) / 4, _ => 0);
    }

    /** `set`: the offset in units of eight bytes. */
    method Set(ino: nat, inodeOffset: nat) returns (r: Result<()>)
      requires ino > 0
      modifies this
      ensures ino > |old(data)| ==> r == Err(Einval) && data == old(data)
      ensures ino <= |old(data)| ==> r == Ok(()) && data == old(data)[ino - 1 := inodeOffset / 8]
    {
      if ino > |data| {
        return Err(Einval);
      }
      data := data[ino - 1 := inodeOffset / 8];
      r := Ok(());
    }
  }

  /** `OndiskInodeTable::get`. */
  function TableGet(data: seq<nat>, ino: nat): Result<nat>
    requires ino > 0
  {
    if ino > |data| then Err(Enoent)
    else if data[ino - 1] <= SUPERBLOCK_SIZE / 8 || data[ino - 1] >= 0x2000_0000 then Err(Einval)
    else Ok(data[ino - 1] * 8)
  }

  /** The offset accounted for node `i`, if the first is at `start`. */
  function Offset(ns: seq<Node>, i: nat, start: nat, countXattrs: bool): nat
    requires i <= |ns|
  {
    if i == 0 then start else Offset(ns, i - 1, start, countXattrs) + Accounted(ns[i - 1], countXattrs)
  }

  /** The offset pass of both dumps. An inode offset that does not fit 32 bits is left out of the model. */
  method SetOffsets(table: OndiskInodeTable, nodes: seq<Node>, start: nat, countXattrs: bool)
    requires |nodes| <= |table.data| && forall i :: 0 <= i < |nodes| ==> nodes[i].index == i + 1
    modifies table
    ensures |table.data| == |old(table.data)|
    ensures forall i :: 0 <= i < |nodes| ==> table.data[i] == Offset(nodes, i, start, countXattrs) / 8
  {
    hide Accounted;
    var inodeOffset := start;
    for k := 0 to |nodes|
      invariant inodeOffset == Offset(nodes, k, start, countXattrs)
      invariant |table.data| == |old(table.data)|
      invariant forall i :: 0 <= i < k ==> table.data[i] == Offset(nodes, i, start, countXattrs) / 8
    {
      var r := table.Set(nodes[k].index, inodeOffset);
      inodeOffset := inodeOffset + Accounted(nodes[k], countXattrs);
    }
  }

  // ----- the image -----

  ghost predicate AllEncodable(ns: seq<Node>) {
    forall i :: 0 <= i < |ns| ==> Encodable(ns[i])
  }

  /** The nodes one after the other. */
  ghost function AllNodes(ns: seq<Node>): seq<Byte>
    requires AllEncodable(ns)
  {
    if ns == [] then [] else NodeBytes(ns[0]) + AllNodes(ns[1..])
  }

  /** What comes before the nodes, and the nodes. */
  ghost function ImageBytes(head: seq<Byte>, ns: seq<Node>): seq<Byte>
    requires AllEncodable(ns)
  {
    head + AllNodes(ns)
  }

  lemma OffsetStep(ns: seq<Node>, i: nat, start: nat)
    requires AllEncodable(ns) && i < |ns|
    ensures Offset(ns, i + 1, start, true) == Offset(ns, i, start, true) + |NodeBytes(ns[i])|
    ensures Offset(ns, i + 1, start, false) == Offset(ns, i + 1, start, true) - |XattrBytes(ns[i].xattrs)|
                                               + (Offset(ns, i, start, false) - Offset(ns, i, start, true))
    ensures |NodeBytes(ns[i])| % ALIGNMENT == 0 && |NodeBytes(ns[i])| > 0
    ensures |XattrBytes(ns[i].xattrs)| == 0 <==> ns[i].xattrs == []
  {
    hide Encodable, Accounted, XattrBytes, NodeBytes;
    NodeLength(ns[i]);
  }

  /** Offsets that count extended attributes are where the nodes are. */
  lemma {:induction false} NodesFrom(ns: seq<Node>, i: nat, start: nat)
    requires AllEncodable(ns) && i <= |ns|
    ensures start <= Offset(ns, i, start, true) <= start + |AllNodes(ns)|
    ensures AllNodes(ns)[Offset(ns, i, start, true) - start..] == AllNodes(ns[i..])
    decreases i
  {
    hide Encodable, NodeBytes, Offset, XattrBytes;
    if i == 0 {
      FirstOffset(ns, start, true);
      assert ns[0..] == ns;
    } else {
      NodesFrom(ns, i - 1, start);
      OffsetStep(ns, i - 1, start);
      var before := Offset(ns, i - 1, start, true) - start;
      assert ns[i - 1..][1..] == ns[i..] && ns[i - 1..][0] == ns[i - 1];
      assert AllNodes(ns[i - 1..]) == NodeBytes(ns[i - 1]) + AllNodes(ns[i..]);
      DropTwice(AllNodes(ns), before, |NodeBytes(ns[i - 1])|);
    }
  }

  lemma FirstOffset(ns: seq<Node>, start: nat, countXattrs: bool)
    ensures Offset(ns, 0, start, countXattrs) == start
  {
  }

  lemma {:induction false} OffsetAligned(ns: seq<Node>, i: nat, start: nat)
    requires AllEncodable(ns) && i <= |ns| && start % ALIGNMENT == 0
    ensures Offset(ns, i, start, true) % ALIGNMENT == 0
    decreases i
  {
    hide Encodable, NodeBytes, Offset, XattrBytes;
    if i == 0 {
      FirstOffset(ns, start, true);
    } else {
      OffsetAligned(ns, i - 1, start);
      OffsetStep(ns, i - 1, start);
    }
  }

  lemma DropTwice(s: seq<Byte>, a: nat, b: nat)
    requires a + b <= |s|
    ensures s[a..][b..] == s[a + b..]
  {
  }

  /** Node `i` of the image starts at its offset, and all of it lies inside the image. */
  lemma NodeIsThere(head: seq<Byte>, ns: seq<Node>, i: nat)
    requires AllEncodable(ns) && i < |ns|
    ensures var off := Offset(ns, i, |head|, true);
            && off + |NodeBytes(ns[i])| <= |ImageBytes(head, ns)|
            && ImageBytes(head, ns)[off..] == NodeBytes(ns[i]) + AllNodes(ns[i + 1..])
  {
    hide Encodable, NodeBytes, Offset;
    NodesFrom(ns, i, |head|);
    var off := Offset(ns, i, |head|, true);
    assert ns[i..][1..] == ns[i + 1..] && ns[i..][0] == ns[i];
    assert AllNodes(ns[i..]) == NodeBytes(ns[i]) + AllNodes(ns[i + 1..]);
    assert ImageBytes(head, ns)[off..] == AllNodes(ns)[off - |head|..];
  }

  /** The head of an image: a super block, an inode table and a blob table, aligned. */
  ghost predicate IsHead(head: seq<Byte>) {
    |head| > SUPERBLOCK_SIZE && |head| % ALIGNMENT == 0
  }

  /** What the memory-mapped driver finds for an inode number: the entry in the table, then the record at that offset
      if it is aligned and inside the image. */
  function MappedEntry(image: seq<Byte>, data: seq<nat>, ino: nat): Result<Entry>
    requires ino > 0
  {
    var off :- TableGet(data, ino);
    if off > |image| || off % ALIGNMENT != 0 then Err(Einval)
    else match ReadRecord(image[off..])
         case Some((e, _)) => Ok(e)
         case None => Err(Einval)
  }

  /** Whatever the driver finds is the record at eight times the table's entry, behind the super block. */
  lemma MappedAt(image: seq<Byte>, data: seq<nat>, ino: nat)
    requires ino > 0 && MappedEntry(image, data, ino).Ok?
    ensures ino <= |data| && 0x2000 < 8 * data[ino - 1] <= |image| && data[ino - 1] < 0x2000_0000
    ensures RecordAt(image[8 * data[ino - 1]..], MappedEntry(image, data, ino).value)
  {
    hide ReadRecord, RecordAt;
    ReadRecordAt(image[8 * data[ino - 1]..]);
  }

  /** An aligned offset beyond the super block survives the table's `>> 3` and `<< 3`. */
  lemma TableCoding(data: seq<nat>, i: nat, off: nat)
    requires i < |data| && data[i] == off / 8
    requires off % ALIGNMENT == 0 && SUPERBLOCK_SIZE < off < U32
    ensures TableGet(data, i + 1) == Ok(off)
  {
  }

  /** With offsets that count extended attributes, the memory-mapped driver finds every node where it was written. */
  lemma MappingFinds(head: seq<Byte>, ns: seq<Node>, data: seq<nat>, i: nat)
    requires AllEncodable(ns) && IsHead(head) && |ImageBytes(head, ns)| < U32
    requires i < |ns| <= |data| && data[i] == Offset(ns, i, |head|, true) / 8
    ensures MappedEntry(ImageBytes(head, ns), data, i + 1) == Ok(View(ns[i]))
    ensures TableGet(data, i + 1) == Ok(Offset(ns, i, |head|, true)) && Offset(ns, i, |head|, true) % ALIGNMENT == 0
  {
    hide AllEncodable, Encodable, NodeBytes, ReadRecord, Offset, TableGet, ImageBytes, AllNodes;
    var off := Offset(ns, i, |head|, true);
    EncodableAt(ns, i);
    NodesFrom(ns, i, |head|);
    OffsetAligned(ns, i, |head|);
    NodeIsThere(head, ns, i);
    NodeLength(ns[i]);
    TableCoding(data, i, off);
    RecordRoundTrip(ns[i], AllNodes(ns[i + 1..]));
  }

  lemma EncodableAt(ns: seq<Node>, i: nat)
    requires AllEncodable(ns) && i < |ns|
    ensures Encodable(ns[i]) && AllEncodable(ns[i + 1..])
  {
    hide Encodable;
  }

  /** Leaving extended attributes out of the offsets, as `Bootstrap::dump` does, puts the offset of node `i` short by
      the attributes of the nodes before it. */
  lemma {:induction false} OffsetsFallShort(ns: seq<Node>, i: nat, start: nat)
    requires AllEncodable(ns) && i <= |ns|
    ensures Offset(ns, i, start, false) <= Offset(ns, i, start, true)
    ensures Offset(ns, i, start, false) == Offset(ns, i, start, true) <==> forall j :: 0 <= j < i ==> ns[j].xattrs == []
    decreases i
  {
    hide Encodable, Offset, XattrBytes, NodeBytes;
    if i == 0 {
      FirstOffset(ns, start, true);
      FirstOffset(ns, start, false);
    } else {
      OffsetsFallShort(ns, i - 1, start);
      OffsetStep(ns, i - 1, start);
    }
  }

  /** Node `i` is written where `Bootstrap::dump` says it is. */
  ghost predicate OffsetRight(ns: seq<Node>, i: nat, start: nat)
    requires i < |ns|
  {
    Offset(ns, i, start, false) == Offset(ns, i, start, true)
  }

  /** The offsets of `Bootstrap::dump` are right for every node exactly when no node but the last has extended
      attributes. */
  lemma BootstrapOffsetsRight(ns: seq<Node>, start: nat)
    requires AllEncodable(ns)
    ensures (forall i :: 0 <= i < |ns| ==> OffsetRight(ns, i, start))
            <==> forall j :: 0 <= j < |ns| - 1 ==> ns[j].xattrs == []
  {
    hide Encodable, Offset, AllEncodable;
    forall i | 0 <= i < |ns|
      ensures OffsetRight(ns, i, start) <==> forall j :: 0 <= j < i ==> ns[j].xattrs == []
    {
      OffsetsFallShort(ns, i, start);
    }
    if forall i :: 0 <= i < |ns| ==> OffsetRight(ns, i, start) {
      assert |ns| > 0 ==> OffsetRight(ns, |ns| - 1, start);
    }
  }

  // ----- the sequential reader -----

  lemma RecordIsConsumed(s: seq<Byte>)
    ensures ReadRecord(s).Some? ==> |ReadRecord(s).value.1| < |s|
  {
    hide ReadInode, XAttrs.Parse, FromLe, ReadChunk;
    if |s| >= INODE_SIZE {
      match ReadInode(s) {
        case Some(inode) => RestIsConsumed(inode, s[INODE_SIZE..]);
        case None =>
      }
    }
  }

  lemma RestIsConsumed(inode: Inode, s: seq<Byte>)
    ensures ReadRest(inode, s).Some? ==> |ReadRest(inode, s).value.1| <= |s|
  {
    hide XAttrs.Parse, FromLe, ReadChunks, TakePadded;
    TakeIsConsumed(s, inode.nameSize);
    match TakePadded(s, inode.nameSize) {
      case None =>
      case Some((_, s1)) =>
        TakeIsConsumed(s1, inode.symlinkSize);
        match TakePadded(s1, inode.symlinkSize) {
          case None =>
          case Some((_, s2)) =>
            match TakeXattrs(s2, inode.HasXattr()) {
              case None =>
              case Some((_, s3)) => ChunksAreConsumed(s3, if inode.kind.Reg? then inode.childCount else 0);
            }
        }
    }
  }

  lemma TakeIsConsumed(s: seq<Byte>, n: nat)
    ensures TakePadded(s, n).Some? ==> |TakePadded(s, n).value.1| <= |s|
  {
  }

  lemma {:induction false} ChunksAreConsumed(s: seq<Byte>, count: nat)
    ensures ReadChunks(s, count).Some? ==> |ReadChunks(s, count).value.1| <= |s|
    decreases count
  {
    hide ReadChunk;
    if count > 0 && |s| >= CHUNK_SIZE { ChunksAreConsumed(s[CHUNK_SIZE..], count - 1); }
  }

  /** The records that `load_all_inodes` of the cached driver reads, up to the first that is cut short. */
  ghost function LoadRecords(s: seq<Byte>): seq<Entry>
    decreases |s|
  {
    RecordIsConsumed(s);
    match ReadRecord(s)
    case Some((e, rest)) => [e] + LoadRecords(rest)
    case None => []
  }

  /** Reading the nodes in sequence finds them all, whatever the inode table says. */
  lemma {:induction false} SequenceFinds(ns: seq<Node>)
    requires AllEncodable(ns)
    ensures LoadRecords(AllNodes(ns)) == Views(ns)
  {
    hide Encodable, NodeBytes, ReadRecord;
    if ns == [] {
      NothingToRead();
    } else {
      RecordRoundTrip(ns[0], AllNodes(ns[1..]));
      SequenceFinds(ns[1..]);
      assert Views(ns) == [View(ns[0])] + Views(ns[1..]);
    }
  }

  lemma NothingToRead()
    ensures ReadRecord([]).None?
  {
  }
}
