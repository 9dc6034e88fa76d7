/** The on-disk records: fixed-size inodes and chunks, and the variable part of a node. */
module OnDisk {
  import opened Wrappers
  import opened Bytes
  import opened Nodes

  const INODE_SIZE := 128
  const CHUNK_SIZE := 80

  // ----- little-endian records -----

  function Width(ws: seq<nat>): nat {
    if ws == [] then 0 else ws[0] + Width(ws[1..])
  }

  /** The values one after the other, each in its own number of bytes. */
  function Pack(vs: seq<nat>, ws: seq<nat>): (b: seq<Byte>)
    requires |vs| == |ws|
    ensures |b| == Width(ws)
  {
    if vs == [] then [] else Le(vs[0], ws[0]) + Pack(vs[1..], ws[1..])
  }

  /** The values of those widths at the start of `b`; what `b` is too short for reads as zero. */
  function Unpack(b: seq<Byte>, ws: seq<nat>): (vs: seq<nat>)
    ensures |vs| == |ws|
    decreases ws
  {
    if ws == [] then []
    else if |b| < ws[0] then [0] + Unpack([], ws[1..])
    else [FromLe(b[..ws[0]])] + Unpack(b[ws[0]..], ws[1..])
  }

  predicate AllFit(vs: seq<nat>, ws: seq<nat>)
    requires |vs| == |ws|
  {
    vs == [] || (vs[0] < Pow256(ws[0]) && AllFit(vs[1..], ws[1..]))
  }

  lemma PackStep(v: nat, w: nat, more: seq<Byte>)
    requires v < Pow256(w)
    ensures var b := Le(v, w) + more;
            |b| >= w && FromLe(b[..w]) == v && b[w..] == more
  {
    hide Le, FromLe;
    LeRoundTrip(v, w);
    LeLength(v, w);
    assert (Le(v, w) + more)[..w] == Le(v, w);
  }

  lemma UnpackStep(b: seq<Byte>, ws: seq<nat>)
    requires ws != [] && |b| >= ws[0]
    ensures Unpack(b, ws) == [FromLe(b[..ws[0]])] + Unpack(b[ws[0]..], ws[1..])
  {
    hide FromLe;
  }

  lemma {:induction false} UnpackPack(vs: seq<nat>, ws: seq<nat>, rest: seq<Byte>)
    requires |vs| == |ws| && AllFit(vs, ws)
    ensures Unpack(Pack(vs, ws) + rest, ws) == vs
  {
    hide Le, FromLe, Pow256, Unpack;
    if vs == [] {
      assert ws == [] && |Unpack(Pack(vs, ws) + rest, ws)| == 0;
    } else {
      var more := Pack(vs[1..], ws[1..]) + rest;
      PackStep(vs[0], ws[0], more);
      UnpackPack(vs[1..], ws[1..], rest);
      assert Pack(vs, ws) + rest == Le(vs[0], ws[0]) + more;
      UnpackStep(Le(vs[0], ws[0]) + more, ws);
      assert vs == [vs[0]] + vs[1..];
    }
  }

  /** Fields of widths `ws` one after the other start at the places `ats`. */
  ghost predicate Places(ws: seq<nat>, ats: seq<nat>) {
    |ats| == |ws| + 1 && forall k :: 0 <= k < |ws| ==> ats[k + 1] == ats[k] + ws[k]
  }

  lemma {:induction false} PlacesGrow(ws: seq<nat>, ats: seq<nat>, k: nat, l: nat)
    requires Places(ws, ats) && k <= l < |ats|
    ensures ats[k] <= ats[l]
    decreases l
  {
    if k < l { PlacesGrow(ws, ats, k, l - 1); }
  }

  /** The number in `n` bytes from `at`, for the widths that fields have. */
  function NumberAt(b: seq<Byte>, at: nat, n: nat): nat
    requires at + n <= |b|
  {
    if n == 2 then U16At(b, at) else if n == 4 then U32At(b, at) else if n == 8 then U64At(b, at) else 0
  }

  /** Every field is read from its own place. */
  lemma {:induction false} UnpackAt(b: seq<Byte>, ws: seq<nat>, ats: seq<nat>, k: nat)
    requires Places(ws, ats) && ats[|ws|] <= |b| && k < |ws| && ws[k] in {2, 4, 8}
    ensures ats[0] <= |b| && ats[k] + ws[k] <= |b| && Unpack(b[ats[0]..], ws)[k] == NumberAt(b, ats[k], ws[k])
    decreases k
  {
    hide FromLe, Unpack;
    PlacesGrow(ws, ats, 0, 1);
    PlacesGrow(ws, ats, 1, |ws|);
    PlacesGrow(ws, ats, k + 1, |ws|);
    UnpackStep(b[ats[0]..], ws);
    assert b[ats[0]..][..ws[0]] == b[ats[0]..ats[0] + ws[0]] && b[ats[0]..][ws[0]..] == b[ats[1]..];
    if k > 0 {
      UnpackAt(b, ws[1..], ats[1..], k - 1);
    } else {
      FromLeAt(b, ats[0]);
    }
  }

  // ----- inodes -----

  /** `i_mode`: the file type bits and the permission bits. */
  function ModeOf(kind: Kind, perm: nat): nat {
    (match kind case Dir => 0x4000 case Reg => 0x8000 case Symlink => 0xA000) + perm % 0x1000
  }

  /** The kind that the readers' `S_IFMT` tests find, none for a special file. */
  function KindOf(mode: nat): Option<Kind> {
    match mode / 0x1000 % 16
    case 4 => Some(Dir)
    case 8 => Some(Reg)
    case 10 => Some(Symlink)
    case _ => None
  }

  /** The builder tests single bits of the mode, which agrees with the readers except that symbolic links pass for
      regular files as well. */
  lemma BuilderTests(kind: Kind, perm: nat)
    ensures var mode := ModeOf(kind, perm);
            && KindOf(mode) == Some(kind)
            && (mode / 0x4000 % 2 == 1 <==> kind.Dir?)
            && (mode / 0x8000 % 2 == 1 <==> kind.Reg? || kind.Symlink?)
            && (mode / 0x8000 % 2 == 1 && mode / 0x2000 % 2 == 1 <==> kind.Symlink?)
  {
  }

  const INODE_WIDTHS: seq<nat> := [8, 8, 4, 4, 4, 4, 8, 8, 8, 4, 4, 4, 2, 2, 4]

  function InodeFields(i: Inode): seq<nat> {
    [i.parent, i.ino, i.attrs.uid, i.attrs.gid, i.attrs.projid, ModeOf(i.kind, i.attrs.perm), i.size, i.attrs.blocks,
     i.flags, i.nlink, i.childIndex, i.childCount, i.nameSize, i.symlinkSize, i.attrs.rdev]
  }

  /** Every field fits its width. */
  predicate InodeFits(i: Inode) {
    i.attrs.perm < 0x1000 && AllFit(InodeFields(i), INODE_WIDTHS)
  }

  function InodeBytes(i: Inode): seq<Byte> {
    i.digest + (Pack(InodeFields(i), INODE_WIDTHS) + Zeros(20))
  }

  /** The inode with these field values; the child index has four bytes. */
  function InodeOf(digest: RafsDigest, vs: seq<nat>): Option<Inode>
    requires |vs| == |INODE_WIDTHS|
  {
    match KindOf(vs[5])
    case Some(kind) =>
      Some(Inode(digest, vs[0], vs[1], Attrs(vs[2], vs[3], vs[4], vs[5] % 0x1000, vs[7], vs[14]), kind, vs[6], vs[8],
                 vs[9], vs[10] % U32, vs[11], vs[12], vs[13]))
    case None => None
  }

  lemma WidthFrom(ws: seq<nat>, k: nat)
    requires k < |ws|
    ensures Width(ws[k..]) == ws[k] + Width(ws[k + 1..])
  {
    assert ws[k..][1..] == ws[k + 1..];
  }

  lemma InodeTailWidth()
    ensures Width(INODE_WIDTHS[8..]) == 28
  {
    hide Width;
    var ws := INODE_WIDTHS;
    WidthFrom(ws, 8); WidthFrom(ws, 9); WidthFrom(ws, 10); WidthFrom(ws, 11);
    WidthFrom(ws, 12); WidthFrom(ws, 13); WidthFrom(ws, 14);
    NoWidth();
    assert ws[15..] == [];
  }

  lemma InodeWidth()
    ensures Width(INODE_WIDTHS) == 76
  {
    hide Width;
    var ws := INODE_WIDTHS;
    WidthFrom(ws, 0); WidthFrom(ws, 1); WidthFrom(ws, 2); WidthFrom(ws, 3);
    WidthFrom(ws, 4); WidthFrom(ws, 5); WidthFrom(ws, 6); WidthFrom(ws, 7);
    InodeTailWidth();
    assert ws[0..] == ws;
  }

  lemma NoWidth()
    ensures Width([]) == 0
  {
  }

  /** The inode at the start of `s`. */
  function ReadInode(s: seq<Byte>): Option<Inode>
    requires |s| >= INODE_SIZE
  {
    InodeOf(s[..DIGEST_SIZE], Unpack(s[DIGEST_SIZE..], INODE_WIDTHS))
  }

  lemma FieldsRoundTrip(i: Inode)
    requires i.attrs.perm < 0x1000
    ensures InodeOf(i.digest, InodeFields(i)) == Some(i)
  {
    BuilderTests(i.kind, i.attrs.perm);
  }

  lemma InodeRoundTrip(i: Inode, rest: seq<Byte>)
    requires InodeFits(i)
    ensures |InodeBytes(i)| == INODE_SIZE
    ensures ReadInode(InodeBytes(i) + rest) == Some(i)
  {
    hide InodeOf, Pack, Unpack, AllFit, Width;
    InodeWidth();
    PackLength(InodeFields(i), INODE_WIDTHS);
    UnpackPack(InodeFields(i), INODE_WIDTHS, Zeros(20) + rest);
    FieldsRoundTrip(i);
    SplitAt(i.digest, Pack(InodeFields(i), INODE_WIDTHS), Zeros(20), rest);
  }

  lemma SplitAt(a: seq<Byte>, b: seq<Byte>, c: seq<Byte>, rest: seq<Byte>)
    ensures var s := a + (b + c) + rest; s[..|a|] == a && s[|a|..] == b + (c + rest)
  {
  }

  lemma PackLength(vs: seq<nat>, ws: seq<nat>)
    requires |vs| == |ws|
    ensures |Pack(vs, ws)| == Width(ws)
  {
  }

  const INODE_PLACES: seq<nat> := [32, 40, 48, 52, 56, 60, 64, 72, 80, 88, 92, 96, 100, 102, 104, 108]

  /** What a reader finds in the 128 bytes of an inode, at which place. */
  ghost predicate InodeAt(b: seq<Byte>, i: Inode)
    requires |b| >= 128
  {
    && i.digest == b[..32]
    && i.parent == U64At(b, 32) && i.ino == U64At(b, 40) && i.attrs.uid == U32At(b, 48) && i.attrs.gid == U32At(b, 52)
    && i.attrs.projid == U32At(b, 56) && i.attrs.perm == U32At(b, 60) % 0x1000 && i.size == U64At(b, 64)
    && i.attrs.blocks == U64At(b, 72) && i.flags == U64At(b, 80) && i.nlink == U32At(b, 88)
    && i.childIndex == U32At(b, 92) && i.childCount == U32At(b, 96) && i.nameSize == U16At(b, 100)
    && i.symlinkSize == U16At(b, 102) && i.attrs.rdev == U32At(b, 104)
    && U32At(b, 60) / 0x1000 % 16 == (match i.kind case Dir => 4 case Reg => 8 case Symlink => 10)
  }

  lemma InodePlaces()
    ensures Places(INODE_WIDTHS, INODE_PLACES) && forall k :: 0 <= k < 15 ==> INODE_WIDTHS[k] in {2, 4, 8}
  {
  }

  lemma InodeFieldAt(s: seq<Byte>, k: nat)
    requires |s| >= INODE_SIZE && k < 15
    ensures INODE_PLACES[k] + INODE_WIDTHS[k] <= |s|
    ensures Unpack(s[DIGEST_SIZE..], INODE_WIDTHS)[k] == NumberAt(s, INODE_PLACES[k], INODE_WIDTHS[k])
  {
    hide Unpack, NumberAt, Places;
    InodePlaces();
    UnpackAt(s, INODE_WIDTHS, INODE_PLACES, k);
  }

  /** An inode is read field by field from its places, if it is of a known kind. */
  lemma ReadInodeAt(s: seq<Byte>)
    requires |s| >= 128
    ensures ReadInode(s).Some? <==> U32At(s, 60) / 0x1000 % 16 in {4, 8, 10}
    ensures ReadInode(s).Some? ==> InodeAt(s, ReadInode(s).value)
  {
    hide Unpack, U16At, U32At, U64At;
    InodeFieldAt(s, 0); InodeFieldAt(s, 1); InodeFieldAt(s, 2); InodeFieldAt(s, 3); InodeFieldAt(s, 4);
    InodeFieldAt(s, 5); InodeFieldAt(s, 6); InodeFieldAt(s, 7); InodeFieldAt(s, 8); InodeFieldAt(s, 9);
    InodeFieldAt(s, 10); InodeFieldAt(s, 11); InodeFieldAt(s, 12); InodeFieldAt(s, 13); InodeFieldAt(s, 14);
    Below32(s, 92);
  }

  lemma Below32(s: seq<Byte>, at: nat)
    requires at + 4 <= |s|
    ensures U32At(s, at) < U32
  {
  }

  /** An inode that fits is written with every field at its place, and zeros after the last. */
  lemma InodeBytesAt(i: Inode)
    requires InodeFits(i)
    ensures var b := InodeBytes(i);
            && |b| == 128 && InodeAt(b, i) && (forall k :: 108 <= k < 128 ==> b[k] == 0)
            && U32At(b, 60) == i.attrs.perm
                + (match i.kind case Dir => 0x4000 case Reg => 0x8000 case Symlink => 0xA000)
  {
    hide Pack, Unpack, AllFit, Width, U16At, U32At, U64At, ReadInode, InodeAt;
    var b := InodeBytes(i);
    InodeRoundTrip(i, []);
    assert b + [] == b;
    ReadInodeAt(b);
    InodeFieldAt(b, 5);
    InodeWidth();
    PackLength(InodeFields(i), INODE_WIDTHS);
    UnpackPack(InodeFields(i), INODE_WIDTHS, Zeros(20));
    assert b[DIGEST_SIZE..] == Pack(InodeFields(i), INODE_WIDTHS) + Zeros(20);
  }

  // ----- chunks -----

  const CHUNK_WIDTHS: seq<nat> := [4, 4, 4, 4, 8, 8, 8, 8]

  function ChunkFields(c: Chunk): seq<nat> {
    [c.blobIndex, c.flags, c.compressSize, c.decompressSize, c.compressOffset, c.decompressOffset, c.fileOffset,
        c.reserved]
  }

  predicate ChunkFits(c: Chunk) {
    AllFit(ChunkFields(c), CHUNK_WIDTHS)
  }

  function ChunkBytes(c: Chunk): seq<Byte> {
    c.blockId + Pack(ChunkFields(c), CHUNK_WIDTHS)
  }

  lemma ChunkWidth()
    ensures Width(CHUNK_WIDTHS) == 48
  {
    hide Width;
    var ws := CHUNK_WIDTHS;
    WidthFrom(ws, 0); WidthFrom(ws, 1); WidthFrom(ws, 2); WidthFrom(ws, 3); WidthFrom(ws, 4);
    WidthFrom(ws, 5); WidthFrom(ws, 6); WidthFrom(ws, 7);
    NoWidth();
    assert ws[0..] == ws && ws[8..] == [];
  }

  function ChunkFrom(blockId: RafsDigest, vs: seq<nat>): Chunk
    requires |vs| == |CHUNK_WIDTHS|
  {
    Chunk(blockId, vs[0], vs[1], vs[2], vs[3], vs[4], vs[5], vs[6], vs[7])
  }

  function ReadChunk(s: seq<Byte>): Chunk
    requires |s| >= CHUNK_SIZE
  {
    ChunkFrom(s[..DIGEST_SIZE], Unpack(s[DIGEST_SIZE..], CHUNK_WIDTHS))
  }

  lemma ChunkRoundTrip(c: Chunk, rest: seq<Byte>)
    requires ChunkFits(c)
    ensures |ChunkBytes(c)| == CHUNK_SIZE
    ensures ReadChunk(ChunkBytes(c) + rest) == c
  {
    hide Pack, Unpack, AllFit, Width;
    ChunkWidth();
    PackLength(ChunkFields(c), CHUNK_WIDTHS);
    UnpackPack(ChunkFields(c), CHUNK_WIDTHS, rest);
    var s := ChunkBytes(c) + rest;
    assert s[..DIGEST_SIZE] == c.blockId;
    assert s[DIGEST_SIZE..] == Pack(ChunkFields(c), CHUNK_WIDTHS) + rest;
  }

  const CHUNK_PLACES: seq<nat> := [32, 36, 40, 44, 48, 56, 64, 72, 80]

  /** The fields of a chunk record of 80 bytes, and their places. */
  ghost predicate ChunkAt(b: seq<Byte>, c: Chunk)
    requires |b| >= 80
  {
    && c.blockId == b[..32] && c.blobIndex == U32At(b, 32) && c.flags == U32At(b, 36) && c.compressSize == U32At(b, 40)
    && c.decompressSize == U32At(b, 44) && c.compressOffset == U64At(b, 48) && c.decompressOffset == U64At(b, 56)
    && c.fileOffset == U64At(b, 64) && c.reserved == U64At(b, 72)
  }

  lemma ChunkPlaces()
    ensures Places(CHUNK_WIDTHS, CHUNK_PLACES) && forall k :: 0 <= k < 8 ==> CHUNK_WIDTHS[k] in {2, 4, 8}
  {
  }

  lemma ChunkFieldAt(s: seq<Byte>, k: nat)
    requires |s| >= CHUNK_SIZE && k < 8
    ensures CHUNK_PLACES[k] + CHUNK_WIDTHS[k] <= |s|
    ensures Unpack(s[DIGEST_SIZE..], CHUNK_WIDTHS)[k] == NumberAt(s, CHUNK_PLACES[k], CHUNK_WIDTHS[k])
  {
    hide Unpack, NumberAt, Places;
    ChunkPlaces();
    UnpackAt(s, CHUNK_WIDTHS, CHUNK_PLACES, k);
  }

  /** A chunk is read field by field from its places. */
  lemma ReadChunkAt(s: seq<Byte>)
    requires |s| >= 80
    ensures ChunkAt(s, ReadChunk(s))
  {
    hide Unpack, U16At, U32At, U64At;
    ChunkFieldAt(s, 0); ChunkFieldAt(s, 1); ChunkFieldAt(s, 2); ChunkFieldAt(s, 3);
    ChunkFieldAt(s, 4); ChunkFieldAt(s, 5); ChunkFieldAt(s, 6); ChunkFieldAt(s, 7);
  }

  /** A chunk that fits is written so. */
  lemma ChunkBytesAt(c: Chunk)
    requires ChunkFits(c)
    ensures |ChunkBytes(c)| == 80 && ChunkAt(ChunkBytes(c), c)
  {
    hide ChunkBytes, ReadChunk, ChunkFits, ChunkAt;
    ChunkRoundTrip(c, []);
    assert ChunkBytes(c) + [] == ChunkBytes(c);
    ReadChunkAt(ChunkBytes(c));
  }

  function AllChunks(cs: seq<Chunk>): seq<Byte> {
    if cs == [] then [] else ChunkBytes(cs[0]) + AllChunks(cs[1..])
  }

  /** `count` chunks from the start of `s`, and what follows; none if the data ends before. */
  function ReadChunks(s: seq<Byte>, count: nat): Option<(seq<Chunk>, seq<Byte>)>
    decreases count
  {
    if count == 0 then Some(([], s))
    else if |s| < CHUNK_SIZE then None
    else match ReadChunks(s[CHUNK_SIZE..], count - 1)
         case Some((cs, rest)) => Some(([ReadChunk(s)] + cs, rest))
         case None => None
  }

  lemma {:induction false} ChunksRoundTrip(cs: seq<Chunk>, rest: seq<Byte>)
    requires forall i :: 0 <= i < |cs| ==> ChunkFits(cs[i])
    ensures |AllChunks(cs)| == CHUNK_SIZE * |cs|
    ensures ReadChunks(AllChunks(cs) + rest, |cs|) == Some((cs, rest))
  {
    hide ChunkBytes, ReadChunk, ChunkFits;
    if cs == [] {
      assert AllChunks(cs) + rest == rest;
    } else {
      ChunkRoundTrip(cs[0], AllChunks(cs[1..]) + rest);
      ChunksRoundTrip(cs[1..], rest);
      assert AllChunks(cs) + rest == ChunkBytes(cs[0]) + (AllChunks(cs[1..]) + rest);
      assert (AllChunks(cs) + rest)[CHUNK_SIZE..] == AllChunks(cs[1..]) + rest;
      assert cs == [cs[0]] + cs[1..];
    }
  }
}
