/** The super block: what the builder puts into it, and what a reader checks before it trusts the rest of the file. */
module SuperBlock {
  import opened Wrappers
  import opened Bytes
  import opened Nodes
  import opened OnDisk
  import opened ByteLayout

  const MAGIC := 0x5241_4653
  const VERSION_V4 := 0x400
  const VERSION_V5 := 0x500
  const DEFAULT_BLOCK_SIZE := 0x10_0000

  const COMPRESS_NONE := 0x1
  const DIGESTER_SHA256 := 0x8
  const EXPLICIT_UID_GID := 0x10

  /** All the flags there are. */
  const KNOWN_FLAGS := 0x80

  /** `OndiskSuperBlock`, without its reserved bytes. */
  datatype OndiskSuperBlock = OndiskSuperBlock(
    magic: nat,
    version: nat,
    sbSize: nat,
    blockSize: nat,
    flags: nat,
    inodesCount: nat,
    inodeTableOffset: nat,
    prefetchTableOffset: nat,
    blobTableOffset: nat,
    inodeTableEntries: nat,
    prefetchTableEntries: nat,
    blobTableSize: nat)
  {
    /** `validate`. */
    predicate Valid() {
      && magic == MAGIC && VERSION_V4 <= version <= VERSION_V5 && sbSize == SUPERBLOCK_SIZE
      && if version == VERSION_V4 then inodesCount == 0 && inodeTableOffset == 0 && inodeTableEntries == 0
         else version == VERSION_V5 && inodesCount != 0 && inodeTableOffset >= SUPERBLOCK_SIZE
              && inodeTableOffset % ALIGNMENT == 0
    }
  }

  const NEW_SUPER_BLOCK :=
    OndiskSuperBlock(MAGIC, VERSION_V5, SUPERBLOCK_SIZE, DEFAULT_BLOCK_SIZE, 0, 0, 0, 0, 0, 0, 0, 0)

  // ----- as bytes -----

  const SUPER_WIDTHS: seq<nat> := [4, 4, 4, 4, 8, 8, 8, 8, 8, 4, 4, 4]

  function SuperFields(sb: OndiskSuperBlock): seq<nat> {
    [sb.magic, sb.version, sb.sbSize, sb.blockSize, sb.flags, sb.inodesCount, sb.inodeTableOffset,
     sb.prefetchTableOffset, sb.blobTableOffset, sb.inodeTableEntries, sb.prefetchTableEntries, sb.blobTableSize]
  }

  predicate SuperFits(sb: OndiskSuperBlock) {
    AllFit(SuperFields(sb), SUPER_WIDTHS)
  }

  /** `store_inner`: the fields, and zeros in all that is reserved. */
  function SuperBytes(sb: OndiskSuperBlock): seq<Byte> {
    Pack(SuperFields(sb), SUPER_WIDTHS) + Zeros(SUPERBLOCK_SIZE - 68)
  }

  function SuperFrom(vs: seq<nat>): OndiskSuperBlock
    requires |vs| == |SUPER_WIDTHS|
  {
    OndiskSuperBlock(vs[0], vs[1], vs[2], vs[3], vs[4], vs[5], vs[6], vs[7], vs[8], vs[9], vs[10], vs[11])
  }

  lemma SuperWidth()
    ensures Width(SUPER_WIDTHS) == 68
  {
    hide Width;
    var ws := SUPER_WIDTHS;
    WidthFrom(ws, 0); WidthFrom(ws, 1); WidthFrom(ws, 2); WidthFrom(ws, 3); WidthFrom(ws, 4); WidthFrom(ws, 5);
    SuperTailWidth();
    assert ws[0..] == ws;
  }

  lemma SuperTailWidth()
    ensures Width(SUPER_WIDTHS[6..]) == 36
  {
    hide Width;
    var ws := SUPER_WIDTHS;
    WidthFrom(ws, 6); WidthFrom(ws, 7); WidthFrom(ws, 8); WidthFrom(ws, 9); WidthFrom(ws, 10); WidthFrom(ws, 11);
    NoWidth();
    assert ws[12..] == [];
  }

  /** A stored super block reads back, whatever follows it. */
  lemma SuperRoundTrip(sb: OndiskSuperBlock, rest: seq<Byte>)
    requires SuperFits(sb)
    ensures |SuperBytes(sb)| == SUPERBLOCK_SIZE
    ensures SuperFrom(Unpack(SuperBytes(sb) + rest, SUPER_WIDTHS)) == sb
  {
    hide Pack, Unpack, AllFit, Width;
    SuperWidth();
    PackLength(SuperFields(sb), SUPER_WIDTHS);
    UnpackPack(SuperFields(sb), SUPER_WIDTHS, Zeros(SUPERBLOCK_SIZE - 68) + rest);
    assert SuperBytes(sb) + rest == Pack(SuperFields(sb), SUPER_WIDTHS) + (Zeros(SUPERBLOCK_SIZE - 68) + rest);
  }

  const SUPER_PLACES: seq<nat> := [0, 4, 8, 12, 16, 24, 32, 40, 48, 56, 60, 64, 68]

  /** The fields of a super block, and their places. */
  ghost predicate SuperAt(b: seq<Byte>, sb: OndiskSuperBlock)
    requires |b| >= 8192
  {
    && sb.magic == U32At(b, 0) && sb.version == U32At(b, 4) && sb.sbSize == U32At(b, 8) && sb.blockSize == U32At(b, 12)
    && sb.flags == U64At(b, 16) && sb.inodesCount == U64At(b, 24) && sb.inodeTableOffset == U64At(b, 32)
    && sb.prefetchTableOffset == U64At(b, 40) && sb.blobTableOffset == U64At(b, 48)
    && sb.inodeTableEntries == U32At(b, 56) && sb.prefetchTableEntries == U32At(b, 60)
    && sb.blobTableSize == U32At(b, 64)
  }

  lemma SuperPlaces()
    ensures Places(SUPER_WIDTHS, SUPER_PLACES) && forall k :: 0 <= k < 12 ==> SUPER_WIDTHS[k] in {2, 4, 8}
  {
  }

  lemma SuperFieldAt(s: seq<Byte>, k: nat)
    requires |s| >= SUPERBLOCK_SIZE && k < 12
    ensures SUPER_PLACES[k] + SUPER_WIDTHS[k] <= |s|
    ensures Unpack(s, SUPER_WIDTHS)[k] == NumberAt(s, SUPER_PLACES[k], SUPER_WIDTHS[k])
  {
    hide Unpack, NumberAt, Places;
    SuperPlaces();
    UnpackAt(s, SUPER_WIDTHS, SUPER_PLACES, k);
    assert s[0..] == s;
  }

  lemma ReadSuperAt(s: seq<Byte>)
    requires |s| >= 8192
    ensures SuperAt(s, SuperFrom(Unpack(s, SUPER_WIDTHS)))
  {
    hide Unpack, U16At, U32At, U64At;
    SuperFieldAt(s, 0); SuperFieldAt(s, 1); SuperFieldAt(s, 2); SuperFieldAt(s, 3); SuperFieldAt(s, 4);
    SuperFieldAt(s, 5); SuperFieldAt(s, 6); SuperFieldAt(s, 7); SuperFieldAt(s, 8); SuperFieldAt(s, 9);
    SuperFieldAt(s, 10); SuperFieldAt(s, 11);
  }

  /** A super block that fits is written with every field at its place, and zeros after the last. */
  lemma SuperBytesAt(sb: OndiskSuperBlock)
    requires SuperFits(sb)
    ensures var b := SuperBytes(sb); |b| == 8192 && SuperAt(b, sb) && forall k :: 68 <= k < 8192 ==> b[k] == 0
  {
    hide Pack, Unpack, AllFit, Width, SuperAt, SuperFrom;
    SuperRoundTrip(sb, []);
    assert SuperBytes(sb) + [] == SuperBytes(sb);
    ReadSuperAt(SuperBytes(sb));
    SuperWidth();
    PackLength(SuperFields(sb), SUPER_WIDTHS);
  }

  // ----- building -----

  /** The flags with one more bit set. */
  function WithFlag(flags: nat, bit: nat): nat
    requires bit > 0
  {
    if flags / bit % 2 == 1 then flags else flags + bit
  }

  /** `build_super_block`, for that many nodes and distinct inodes and a blob table of that size. */
  method BuildSuperBlock(nodes: nat, inodes: nat, blobTableSize: nat) returns (sb: OndiskSuperBlock)
    ensures sb.magic == 0x5241_4653 && sb.version == 0x500 && sb.sbSize == 0x2000 && sb.blockSize == 0x40_0000
    ensures sb.flags == 0x19
    ensures sb.inodesCount == inodes && sb.inodeTableEntries == nodes % U32 && sb.blobTableSize == blobTableSize % U32
    ensures sb.inodeTableOffset == SUPERBLOCK_SIZE
    ensures sb.blobTableOffset == sb.prefetchTableOffset == SUPERBLOCK_SIZE + Align(4 * (nodes % U32))
    ensures sb.prefetchTableEntries == 0
  {
    var inodeTableEntries := nodes % U32;
    var prefetchTableOffset := SUPERBLOCK_SIZE + Align(4 * inodeTableEntries);
    sb := NEW_SUPER_BLOCK;
    sb := sb.(inodesCount := inodes);
    sb := sb.(inodeTableEntries := inodeTableEntries);
    sb := sb.(blobTableSize := blobTableSize % U32);
    sb := sb.(prefetchTableOffset := prefetchTableOffset);
    sb := sb.(blobTableOffset := prefetchTableOffset);
    sb := sb.(inodeTableOffset := SUPERBLOCK_SIZE);
    sb := sb.(flags := WithFlag(sb.flags, COMPRESS_NONE));
    sb := sb.(flags := WithFlag(sb.flags, DIGESTER_SHA256));
    sb := sb.(flags := WithFlag(sb.flags, EXPLICIT_UID_GID));
    sb := sb.(blockSize := BLOCK_SIZE);
    sb := sb.(prefetchTableEntries := 0);
  }

  // ----- loading -----

  /** `RafsSuper::load`, up to the driver: a valid super block of version 5 with known flags only. The source has no
      reader for version 4 and panics, here an error. */
  function LoadSuper(image: seq<Byte>): Result<OndiskSuperBlock> {
    if |image| < SUPERBLOCK_SIZE then Err(Eof)
    else
      var sb := SuperFrom(Unpack(image, SUPER_WIDTHS));
      if !sb.Valid() || sb.flags >= KNOWN_FLAGS then Err(Einval)
      else if sb.version == VERSION_V4 then Err(Other)
      else Ok(sb)
  }

  /** What a reader takes for a super block: the magic number, version 5 and its own size, at least one inode, an
      aligned inode table behind it, and no flag from 0x80 on. One of version 4 has nothing in it. */
  lemma LoadSuperIff(image: seq<Byte>)
    ensures LoadSuper(image).Ok? <==>
            && |image| >= 8192 && U32At(image, 0) == 0x5241_4653
            && U32At(image, 4) == 0x500 && U32At(image, 8) == 0x2000
            && U64At(image, 16) < 0x80 && U64At(image, 24) != 0 && U64At(image, 32) >= 0x2000
            && U64At(image, 32) % 8 == 0
    ensures LoadSuper(image) == Err(Other) <==>
            && |image| >= 8192 && U32At(image, 0) == 0x5241_4653
            && U32At(image, 4) == 0x400 && U32At(image, 8) == 0x2000
            && U64At(image, 16) < 0x80 && U64At(image, 24) == 0 && U64At(image, 32) == 0 && U32At(image, 56) == 0
    ensures LoadSuper(image).Ok? ==> SuperAt(image, LoadSuper(image).value)
  {
    hide Unpack, U16At, U32At, U64At;
    if |image| >= 8192 { ReadSuperAt(image); }
  }

  const MAX_METADATA_SIZE := 0x8000_0000

  /** The checks of `update_state`: the size of the file, and that both tables lie in it. */
  predicate TablesInside(image: seq<Byte>, sb: OndiskSuperBlock) {
    && SUPERBLOCK_SIZE <= |image| <= MAX_METADATA_SIZE && |image| % ALIGNMENT == 0
    && SUPERBLOCK_SIZE <= sb.inodeTableOffset < |image|
    && sb.inodeTableOffset + 4 * sb.inodeTableEntries <= |image|
    && SUPERBLOCK_SIZE <= sb.blobTableOffset < |image|
    && sb.blobTableOffset + sb.blobTableSize <= |image|
  }
}
