/** Range reads: which bytes of which blob a read of `[offset, offset + size)` of a file fetches. */
module RangeRead {
  import opened Wrappers
  import opened Bytes
  import opened Nodes

  /** `RafsBio`: `size` bytes at `offset` within `chunk`, stored in blob `blobId`. */
  datatype Bio = Bio(chunk: Chunk, blobId: Name, offset: nat, size: nat, blksize: nat)

  /** `RafsBioDesc`. */
  datatype BioDesc = BioDesc(size: nat, vec: seq<Bio>)

  function Min(a: nat, b: nat): nat { if a < b then a else b }
  function Max(a: nat, b: nat): nat { if a < b then b else a }

  /** `calculate_bio_chunk_index`, with the `as u32` truncations and the wrapping `+ 1`. */
  function CalculateBioChunkIndex(offset: nat, end: nat, blksize: nat, chunkCnt: nat, hasHole: bool): (nat, nat)
    requires offset < end && blksize > 0
  {
    var indexStart := if !hasHole then offset / blksize % U32 else 0;
    var indexEnd := if !hasHole then Min(((end - 1) / blksize % U32 + 1) % U32, chunkCnt) else chunkCnt;
    (indexStart, indexEnd)
  }

  /** `add_chunk_to_bio_desc`; the flag says whether later chunks should still be looked at. */
  method AddChunkToBioDesc(offset: nat, end: nat, chunk: Chunk, desc: BioDesc, blksize: nat, blobId: Name)
    returns (desc': BioDesc, more: bool)
    requires chunk.decompressSize < U32
    requires offset < end
    ensures more <==> Skips(chunk, offset) || !Stops(chunk, end)
    ensures !more || Skips(chunk, offset) ==> desc' == desc
    ensures more && !Skips(chunk, offset) ==>
              var b := BioOf(chunk, blobId, offset, end, blksize);
              desc' == BioDesc(desc.size + b.size, desc.vec + [b])
  {
    if offset >= chunk.fileOffset + chunk.decompressSize {
      return desc, true;
    }
    if end <= chunk.fileOffset {
      return desc, false;
    }
    var chunkStart := if offset > chunk.fileOffset then offset - chunk.fileOffset else 0;
    var chunkEnd := if end < chunk.fileOffset + chunk.decompressSize then end - chunk.fileOffset
        else chunk.decompressSize;
    var bio := Bio(chunk, blobId, chunkStart % U32, chunkEnd - chunkStart, blksize);
    return BioDesc(desc.size + bio.size, desc.vec + [bio]), true;
  }

  predicate Skips(c: Chunk, offset: nat) { offset >= c.fileOffset + c.decompressSize }
  predicate Stops(c: Chunk, end: nat) { end <= c.fileOffset }

  /** The part of `[offset, end)` that lies in chunk `c`. */
  function BioOf(c: Chunk, blobId: Name, offset: nat, end: nat, blksize: nat): Bio {
    var from := Max(offset, c.fileOffset);
    var to := Min(end, c.fileOffset + c.decompressSize);
    Bio(c, blobId, from - c.fileOffset, if from < to then to - from else 0, blksize)
  }

  /** What the readers of an inode need: its kind, its chunks and the image's blob table. */
  datatype Source = Source(kind: Kind, hasHole: bool, chunks: seq<Chunk>, blobIds: seq<Name>, blksize: nat)
  {
    ghost predicate Valid() {
      blksize > 0 && forall i :: 0 <= i < |chunks| ==> chunks[i].decompressSize < U32
    }

    /** `get_chunk_info` of the memory-mapped driver; `i_child_count` is the number of chunks. */
    function GetChunkInfo(idx: nat): Result<Chunk> {
      if !kind.Reg? || idx >= |chunks| then Err(Enoent) else Ok(chunks[idx])
    }

    /** `get_chunk_blob_id`; on an empty table the source panics, here an error. */
    function GetChunkBlobId(idx: nat): Result<Name> {
      if idx >= |blobIds| then Err(Enoent) else Ok(blobIds[idx])
    }
  }

  /** The bios of chunks `lo..hi`, by the scan of `alloc_bio_desc`. */
  function Scan(s: Source, offset: nat, end: nat, lo: nat, hi: nat): Result<seq<Bio>>
    requires offset < end
    decreases hi - lo
  {
    if lo >= hi then Ok([]) else
    var chunk :- s.GetChunkInfo(lo);
    var blobId :- s.GetChunkBlobId(chunk.blobIndex);
    if Skips(chunk, offset) then Scan(s, offset, end, lo + 1, hi)
    else if Stops(chunk, end) then Ok([])
    else
      var rest :- Scan(s, offset, end, lo + 1, hi);
      Ok([BioOf(chunk, blobId, offset, end, s.blksize)] + rest)
  }

  function TotalSize(bios: seq<Bio>): nat {
    if bios == [] then 0 else bios[0].size + TotalSize(bios[1..])
  }

  lemma {:induction false} TotalSizeAppend(a: seq<Bio>, b: seq<Bio>)
    ensures TotalSize(a + b) == TotalSize(a) + TotalSize(b)
  {
    if a == [] {
      assert a + b == b;
    } else {
      assert (a + b)[1..] == a[1..] + b;
      TotalSizeAppend(a[1..], b);
    }
  }

  lemma TotalSizeNone()
    ensures TotalSize([]) == 0
  {
  }

  lemma TotalSizeSnoc(v: seq<Bio>, b: Bio)
    ensures TotalSize(v + [b]) == TotalSize(v) + b.size
  {
    TotalSizeAppend(v, [b]);
    assert TotalSize([b]) == b.size + TotalSize([b][1..]);
  }

  /** `end = offset + size` must fit 64 bits. */
  function AllocBioDescSpec(s: Source, offset: nat, size: nat): Result<BioDesc>
    requires s.blksize > 0
  {
    if size == 0 then Ok(BioDesc(0, []))
    else if offset + size >= U64 then Err(Einval)
    else
      var end := offset + size;
      var (indexStart, indexEnd) := CalculateBioChunkIndex(offset, end, s.blksize, |s.chunks|, s.hasHole);
      var vec :- Scan(s, offset, end, indexStart, indexEnd);
      Ok(BioDesc(TotalSize(vec), vec))
  }

  lemma {:induction false} ScanTakes(s: Source, offset: nat, end: nat, lo: nat, hi: nat)
    requires offset < end && Scan(s, offset, end, lo, hi).Ok?
    ensures forall b :: b in Scan(s, offset, end, lo, hi).value ==>
              && b.chunk in s.chunks && b.chunk.blobIndex < |s.blobIds| && b.blobId == s.blobIds[b.chunk.blobIndex]
              && b.blksize == s.blksize && offset < b.chunk.fileOffset + b.chunk.decompressSize
              && b.chunk.fileOffset < end
    decreases hi - lo
  {
    if lo < hi {
      var chunk := s.GetChunkInfo(lo).value;
      if Skips(chunk, offset) || !Stops(chunk, end) { ScanTakes(s, offset, end, lo + 1, hi); }
    }
  }

  /** Whatever is read comes from a chunk of the file that lies in the range, from the blob that chunk names, with the
      block size of the file. A range whose end does not fit 64 bits is refused. */
  lemma BiosTaken(s: Source, offset: nat, size: nat)
    requires s.blksize > 0
    ensures size > 0 && offset + size >= 0x1_0000_0000_0000_0000 ==> AllocBioDescSpec(s, offset, size) == Err(Einval)
    ensures AllocBioDescSpec(s, offset, size).Ok? ==>
              forall b :: b in AllocBioDescSpec(s, offset, size).value.vec ==>
                && b.chunk in s.chunks && b.chunk.blobIndex < |s.blobIds| && b.blobId == s.blobIds[b.chunk.blobIndex]
                && b.blksize == s.blksize && offset < b.chunk.fileOffset + b.chunk.decompressSize
                && b.chunk.fileOffset < offset + size
  {
    hide Scan, CalculateBioChunkIndex;
    if size > 0 && offset + size < U64 {
      var (indexStart, indexEnd) :=
        CalculateBioChunkIndex(offset, offset + size, s.blksize, |s.chunks|, s.hasHole);
      if Scan(s, offset, offset + size, indexStart, indexEnd).Ok? {
        ScanTakes(s, offset, offset + size, indexStart, indexEnd);
      }
    }
  }

  /** `alloc_bio_desc`. */
  method AllocBioDesc(s: Source, offset: nat, size: nat) returns (r: Result<BioDesc>)
    requires s.Valid()
    ensures r == AllocBioDescSpec(s, offset, size)
  {
    hide BioOf, TotalSize, CalculateBioChunkIndex, Skips, Stops;
    var desc := BioDesc(0, []);
    TotalSizeNone();
    if size == 0 {
      return Ok(desc);
    }
    if offset + size >= U64 {
      return Err(Einval);
    }
    var end := offset + size;
    var (indexStart, indexEnd) := CalculateBioChunkIndex(offset, end, s.blksize, |s.chunks|, s.hasHole);
    var idx := indexStart;
    ghost var all := Scan(s, offset, end, indexStart, indexEnd);
    assert all.Ok? ==> desc.vec + all.value == all.value;
    while idx < indexEnd
      invariant desc.size == TotalSize(desc.vec)
      invariant all
                == match Scan(s, offset, end, idx, indexEnd)
                   case Ok(rest) => Ok(desc.vec + rest)
                   case Err(e) => Err(e)
    {
      var chunk := s.GetChunkInfo(idx);
      if chunk.Err? { return Err(chunk.error); }
      var blobId := s.GetChunkBlobId(chunk.value.blobIndex);
      if blobId.Err? { return Err(blobId.error); }
      ghost var before := desc.vec;
      ghost var rest := Scan(s, offset, end, idx + 1, indexEnd);
      var more;
      desc, more := AddChunkToBioDesc(offset, end, chunk.value, desc, s.blksize, blobId.value);
      if !more { break; }
      if desc.vec != before {
        var b := BioOf(chunk.value, blobId.value, offset, end, s.blksize);
        TotalSizeSnoc(before, b);
        assert rest.Ok? ==> before + ([b] + rest.value) == desc.vec + rest.value;
      }
      idx := idx + 1;
    }
    assert desc.vec + [] == desc.vec;
    r := Ok(desc);
  }

  // ----- uniformly chunked files -----

  /** The file offset of chunk `i`. */
  function Start(i: nat, blk: nat): nat {
    if i == 0 then 0 else Start(i - 1, blk) + blk
  }

  lemma {:induction false} StartIsProduct(i: nat, blk: nat)
    ensures Start(i, blk) == i * blk
  {
    if i > 0 { StartIsProduct(i - 1, blk); }
  }

  lemma {:induction false} StartMonotone(i: nat, j: nat, blk: nat)
    requires i <= j
    ensures Start(i, blk) <= Start(j, blk)
    ensures i < j ==> Start(i, blk) + blk <= Start(j, blk)
    decreases j
  {
    if i < j { StartMonotone(i, j - 1, blk); }
  }

  /** `i` is the number of the chunk that holds position `x`. */
  ghost predicate Holds(i: nat, x: nat, blk: nat) {
    Start(i, blk) <= x < Start(i, blk) + blk
  }

  lemma QuotientHolds(x: nat, blk: nat)
    requires blk > 0
    ensures Holds(x / blk, x, blk)
  {
    StartIsProduct(x / blk, blk);
    assert x == x / blk * blk + x % blk;
  }

  /** `size` bytes cut into chunks of `blk` bytes, the last one possibly shorter, stored back to back in one blob
      from `base`. */
  ghost predicate Uniform(chunks: seq<Chunk>, size: nat, blk: nat, base: nat, blobIndex: nat) {
    && size <= Start(|chunks|, blk)
    && forall i :: 0 <= i < |chunks| ==>
         && chunks[i].fileOffset == Start(i, blk) < size
         && chunks[i].decompressSize == Min(blk, size - Start(i, blk))
         && chunks[i].compressOffset == base + Start(i, blk)
         && chunks[i].blobIndex == blobIndex
  }

  /** An image file whose chunks are uniform and whose blob is in the table. */
  ghost predicate UniformSource(s: Source, size: nat, base: nat, blobIndex: nat) {
    && s.kind.Reg?
    && s.blksize > 0
    && Uniform(s.chunks, size, s.blksize, base, blobIndex)
    && blobIndex < |s.blobIds|
  }

  /** The bios of chunks `a..b`. */
  function Bios(s: Source, offset: nat, end: nat, a: nat, b: nat, blobId: Name): (v: seq<Bio>)
    requires a <= b <= |s.chunks|
    ensures |v| == b - a
  {
    seq(b - a, j requires 0 <= j < b - a => BioOf(s.chunks[a + j], blobId, offset, end, s.blksize))
  }

  lemma BiosUnroll(s: Source, offset: nat, end: nat, a: nat, b: nat, blobId: Name)
    requires a < b <= |s.chunks|
    ensures Bios(s, offset, end, a, b, blobId)
            == [BioOf(s.chunks[a], blobId, offset, end, s.blksize)] + Bios(s, offset, end, a + 1, b, blobId)
  {
  }

  /** With `offset` in chunk `p` and `end - 1` in chunk `q`, chunk `i` lies before, across or after the range exactly
      as its number says. */
  lemma ChunkPosition(s: Source, size: nat, base: nat, blobIndex: nat, offset: nat, end: nat, p: nat, q: nat, i: nat)
    requires UniformSource(s, size, base, blobIndex)
    requires offset < end && offset < size && i < |s.chunks|
    requires Holds(p, offset, s.blksize) && Holds(q, end - 1, s.blksize)
    ensures Skips(s.chunks[i], offset) <==> i < p
    ensures Stops(s.chunks[i], end) <==> i > q
  {
    if i < p { StartMonotone(i, p, s.blksize); } else { StartMonotone(p, i, s.blksize); }
    if q < i { StartMonotone(q, i, s.blksize); } else { StartMonotone(i, q, s.blksize); }
  }

  /** A position inside the file lies in one of its chunks. */
  lemma InsideHasChunk(s: Source, size: nat, base: nat, blobIndex: nat, x: nat, p: nat)
    requires UniformSource(s, size, base, blobIndex)
    requires x < size && Holds(p, x, s.blksize)
    ensures p < |s.chunks|
  {
    if |s.chunks| <= p { StartMonotone(|s.chunks|, p, s.blksize); }
  }

  lemma ScanStep(s: Source, size: nat, base: nat, blobIndex: nat, offset: nat, end: nat, p: nat, q: nat, lo: nat,
      hi: nat)
    requires UniformSource(s, size, base, blobIndex)
    requires offset < end && offset < size && lo < hi <= |s.chunks|
    requires Holds(p, offset, s.blksize) && Holds(q, end - 1, s.blksize)
    ensures lo < p ==> Scan(s, offset, end, lo, hi) == Scan(s, offset, end, lo + 1, hi)
    ensures p <= lo && q < lo ==> Scan(s, offset, end, lo, hi) == Ok([])
    ensures p <= lo <= q && Scan(s, offset, end, lo + 1, hi).Ok? ==>
              Scan(s, offset, end, lo, hi)
              == Ok([BioOf(s.chunks[lo], s.blobIds[blobIndex], offset, end, s.blksize)]
                  + Scan(s, offset, end, lo + 1, hi).value)
  {
    ChunkPosition(s, size, base, blobIndex, offset, end, p, q, lo);
  }

  lemma HasBlob(s: Source, size: nat, base: nat, blobIndex: nat)
    requires UniformSource(s, size, base, blobIndex)
    ensures blobIndex < |s.blobIds|
  {
  }

  lemma ScanNothing(s: Source, offset: nat, end: nat, lo: nat, hi: nat)
    requires offset < end && lo >= hi
    ensures Scan(s, offset, end, lo, hi) == Ok([])
  {
  }

  /** The scan of any window yields the bios of exactly the chunks in it that meet the range. */
  lemma {:induction false} ScanShape(s: Source, size: nat, base: nat, blobIndex: nat, offset: nat, end: nat, p: nat,
      q: nat, lo: nat, hi: nat)
    requires UniformSource(s, size, base, blobIndex)
    requires offset < end && offset < size && hi <= |s.chunks|
    requires Holds(p, offset, s.blksize) && Holds(q, end - 1, s.blksize)
    ensures Scan(s, offset, end, lo, hi)
            == Ok(if Max(lo, p) < Min(hi, q + 1)
                  then Bios(s, offset, end, Max(lo, p), Min(hi, q + 1), s.blobIds[blobIndex]) else [])
    decreases hi - lo
  {
    hide Scan, Bios, UniformSource, Holds;
    HasBlob(s, size, base, blobIndex);
    if lo >= hi {
      ScanNothing(s, offset, end, lo, hi);
    } else {
      ScanStep(s, size, base, blobIndex, offset, end, p, q, lo, hi);
      ScanShape(s, size, base, blobIndex, offset, end, p, q, lo + 1, hi);
      if p <= lo <= q {
        BiosUnroll(s, offset, end, lo, Min(hi, q + 1), s.blobIds[blobIndex]);
      }
    }
  }

  lemma {:induction false} ScanPastEnd(s: Source, size: nat, base: nat, blobIndex: nat, offset: nat, end: nat,
      lo: nat, hi: nat)
    requires UniformSource(s, size, base, blobIndex)
    requires size <= offset < end && hi <= |s.chunks|
    ensures Scan(s, offset, end, lo, hi) == Ok([])
    decreases hi - lo
  {
    if lo < hi {
      ScanPastEnd(s, size, base, blobIndex, offset, end, lo + 1, hi);
    }
  }

  /** The end of the chunk window, as cut to 32 bits, still reaches the last chunk of a read up to `end`. */
  ghost predicate WindowReaches(s: Source, end: nat)
    requires s.blksize > 0 && end > 0
  {
    ((end - 1) / s.blksize % U32 + 1) % U32 >= Min(|s.chunks|, (end - 1) / s.blksize + 1)
  }

  /** Every read whose last byte lies in a chunk numbered below 2^32 - 1 meets the window condition. */
  lemma WindowGuard(s: Source, end: nat)
    requires s.blksize > 0 && end > 0
    requires (end - 1) / s.blksize < U32 - 1
    ensures WindowReaches(s, end)
  {
  }

  /** Reading with the computed chunk window, rather than all chunks, loses nothing exactly when the range starts
      past the end of the file or the window's end survives its truncation. */
  lemma WindowIsFullScan(s: Source, size: nat, base: nat, blobIndex: nat, offset: nat, end: nat)
    requires UniformSource(s, size, base, blobIndex)
    requires offset < end && |s.chunks| < U32
    ensures var (lo, hi) := CalculateBioChunkIndex(offset, end, s.blksize, |s.chunks|, false);
            Scan(s, offset, end, lo, hi) == Scan(s, offset, end, 0, |s.chunks|)
            <==> offset >= size || WindowReaches(s, end)
  {
    var (lo, hi) := CalculateBioChunkIndex(offset, end, s.blksize, |s.chunks|, false);
    if offset >= size {
      ScanPastEnd(s, size, base, blobIndex, offset, end, lo, hi);
      ScanPastEnd(s, size, base, blobIndex, offset, end, 0, |s.chunks|);
    } else {
      var p, q := offset / s.blksize, (end - 1) / s.blksize;
      QuotientHolds(offset, s.blksize);
      QuotientHolds(end - 1, s.blksize);
      WindowIsFullScanInside(s, size, base, blobIndex, offset, end, p, q, lo, hi);
    }
  }

  lemma WindowIsFullScanInside(s: Source, size: nat, base: nat, blobIndex: nat, offset: nat, end: nat, p: nat,
      q: nat, lo: nat, hi: nat)
    requires UniformSource(s, size, base, blobIndex)
    requires offset < end && offset < size && |s.chunks| < U32
    requires Holds(p, offset, s.blksize) && Holds(q, end - 1, s.blksize)
    requires lo == p % U32 && hi == Min((q % U32 + 1) % U32, |s.chunks|)
    ensures Scan(s, offset, end, lo, hi) == Scan(s, offset, end, 0, |s.chunks|)
            <==> (q % U32 + 1) % U32 >= Min(|s.chunks|, q + 1)
  {
    hide Scan, UniformSource, Bios;
    InsideHasChunk(s, size, base, blobIndex, offset, p);
    ScanShape(s, size, base, blobIndex, offset, end, p, q, lo, hi);
    ScanShape(s, size, base, blobIndex, offset, end, p, q, 0, |s.chunks|);
    if q < p { StartMonotone(q, p, s.blksize); }
    HasBlob(s, size, base, blobIndex);
    var last := Min(|s.chunks|, q + 1);
    BiosLength(s, offset, end, p, last, s.blobIds[blobIndex]);
    if p < Min(hi, q + 1) { BiosLength(s, offset, end, p, Min(hi, q + 1), s.blobIds[blobIndex]); }
  }

  lemma BiosLength(s: Source, offset: nat, end: nat, a: nat, b: nat, blobId: Name)
    requires a <= b <= |s.chunks|
    ensures |Bios(s, offset, end, a, b, blobId)| == b - a
  {
  }

  /** A request reaching 2^32 chunks past the start of a file of two chunks reads only the first of them. */
  lemma WindowTruncated(s: Source, base: nat)
    requires s.blksize == BLOCK_SIZE && UniformSource(s, 2 * BLOCK_SIZE, base, 0) && !s.hasHole
    ensures var r := AllocBioDescSpec(s, 0, BLOCK_SIZE * U32 + 1);
            r.Ok? && r.value.size == BLOCK_SIZE
  {
    var end := BLOCK_SIZE * U32 + 1;
    StartIsProduct(U32, BLOCK_SIZE);
    InsideHasChunk(s, 2 * BLOCK_SIZE, base, 0, 0, 0);
    ScanShape(s, 2 * BLOCK_SIZE, base, 0, 0, end, 0, U32, 0, 1);
    var r := AllocBioDescSpec(s, 0, end);
    assert r.value.vec == [BioOf(s.chunks[0], s.blobIds[0], 0, end, BLOCK_SIZE)];
    assert TotalSize(r.value.vec) == r.value.vec[0].size + TotalSize([]);
  }

  // ----- the bytes a read returns -----

  /** The stored bytes of every blob, by id. */
  type Blobs = map<Name, seq<Byte>>

  ghost predicate InBlob(blobs: Blobs, b: Bio) {
    b.blobId in blobs && b.chunk.compressOffset + b.offset + b.size <= |blobs[b.blobId]|
  }

  /** The bytes fetched for a list of bios, in order (chunks of stargz blobs are stored as they are). */
  ghost function ReadBios(blobs: Blobs, bios: seq<Bio>): seq<Byte>
    requires forall b :: b in bios ==> InBlob(blobs, b)
  {
    if bios == [] then []
    else
      assert InBlob(blobs, bios[0]);
      var from := bios[0].chunk.compressOffset + bios[0].offset;
      blobs[bios[0].blobId][from..from + bios[0].size] + ReadBios(blobs, bios[1..])
  }

  /** The bios `v` fetch exactly `blobs[id][from..to]`. */
  ghost predicate Fetches(blobs: Blobs, v: seq<Bio>, id: Name, from: nat, to: nat) {
    && (forall b :: b in v ==> InBlob(blobs, b))
    && id in blobs && from <= to <= |blobs[id]|
    && ReadBios(blobs, v) == blobs[id][from..to]
    && TotalSize(v) == to - from
  }

  /** Bio `b` fetches `blobs[id][from..to]`. */
  ghost predicate Covers(blobs: Blobs, b: Bio, id: Name, from: nat, to: nat) {
    InBlob(blobs, b) && b.blobId == id && b.chunk.compressOffset + b.offset == from && from + b.size == to
  }

  /** Bios that meet end to end fetch one slice. */
  lemma {:induction false} Chain(blobs: Blobs, v: seq<Bio>, id: Name, edges: seq<nat>)
    requires id in blobs && |edges| == |v| + 1 && edges[0] <= |blobs[id]|
    requires forall j :: 0 <= j < |v| ==> Covers(blobs, v[j], id, edges[j], edges[j + 1])
    ensures Fetches(blobs, v, id, edges[0], edges[|v|])
  {
    if v != [] {
      assert Covers(blobs, v[0], id, edges[0], edges[1]);
      forall j | 0 <= j < |v[1..]|
        ensures Covers(blobs, v[1..][j], id, edges[1..][j], edges[1..][j + 1])
      {
        assert Covers(blobs, v[j + 1], id, edges[j + 1], edges[j + 2]);
      }
      Chain(blobs, v[1..], id, edges[1..]);
      assert v == [v[0]] + v[1..];
      assert blobs[id][edges[0]..edges[1]] + blobs[id][edges[1]..edges[|v|]] == blobs[id][edges[0]..edges[|v|]];
    }
  }

  /** Where the bio of chunk `i` starts, and that of the last chunk `b - 1` ends. */
  function Edge(i: nat, b: nat, offset: nat, to: nat, blk: nat): nat {
    if i == b then to else Max(offset, Start(i, blk))
  }

  /** The edges of chunks `a..b` in the blob. */
  function Edges(a: nat, b: nat, base: nat, offset: nat, to: nat, blk: nat): (e: seq<nat>)
    requires a <= b
    ensures |e| == b - a + 1
    ensures forall j :: 0 <= j < |e| ==> e[j] == base + Edge(a + j, b, offset, to, blk)
    decreases b - a
  {
    [base + Edge(a, b, offset, to, blk)] + if a == b then [] else Edges(a + 1, b, base, offset, to, blk)
  }

  /** The bio of chunk `a` reaches from its edge to the next one. */
  lemma BioIsSlice(s: Source, size: nat, base: nat, blobIndex: nat, offset: nat, end: nat, p: nat, q: nat, b: nat,
      a: nat, blobs: Blobs)
    requires UniformSource(s, size, base, blobIndex)
    requires offset < end && offset < size
    requires Holds(p, offset, s.blksize) && Holds(q, end - 1, s.blksize)
    requires p <= a < b == Min(|s.chunks|, q + 1)
    requires s.blobIds[blobIndex] in blobs && base + size <= |blobs[s.blobIds[blobIndex]]|
    ensures var to := Min(end, size);
            Covers(blobs, BioOf(s.chunks[a], s.blobIds[blobIndex], offset, end, s.blksize), s.blobIds[blobIndex],
                   base + Edge(a, b, offset, to, s.blksize), base + Edge(a + 1, b, offset, to, s.blksize))
  {
    ChunkPosition(s, size, base, blobIndex, offset, end, p, q, a);
    if a + 1 < b {
      ChunkPosition(s, size, base, blobIndex, offset, end, p, q, a + 1);
    }
  }

  lemma BiosEnds(s: Source, size: nat, base: nat, blobIndex: nat, offset: nat, end: nat, p: nat, q: nat, b: nat)
    requires UniformSource(s, size, base, blobIndex) && offset < size && Holds(p, offset, s.blksize)
    requires p < b == Min(|s.chunks|, q + 1)
    ensures var edges := Edges(p, b, base, offset, Min(end, size), s.blksize);
            |edges| == b - p + 1 && edges[0] == base + offset && edges[b - p] == base + Min(end, size)
    ensures |Bios(s, offset, end, p, b, s.blobIds[blobIndex])| == b - p
  {
    hide Uniform;
  }

  lemma BiosFetch(s: Source, size: nat, base: nat, blobIndex: nat, offset: nat, end: nat, p: nat, q: nat, b: nat,
      blobs: Blobs)
    requires UniformSource(s, size, base, blobIndex)
    requires offset < end && offset < size
    requires Holds(p, offset, s.blksize) && Holds(q, end - 1, s.blksize)
    requires p < b == Min(|s.chunks|, q + 1)
    requires s.blobIds[blobIndex] in blobs && base + size <= |blobs[s.blobIds[blobIndex]]|
    ensures Fetches(blobs, Bios(s, offset, end, p, b, s.blobIds[blobIndex]), s.blobIds[blobIndex],
                    base + offset, base + Min(end, size))
  {
    hide UniformSource, Holds, Covers, Fetches, Edge;
    HasBlob(s, size, base, blobIndex);
    BiosEnds(s, size, base, blobIndex, offset, end, p, q, b);
    var id := s.blobIds[blobIndex];
    var edges := Edges(p, b, base, offset, Min(end, size), s.blksize);
    var v := Bios(s, offset, end, p, b, id);
    forall j | 0 <= j < |v|
      ensures Covers(blobs, v[j], id, edges[j], edges[j + 1])
    {
      BioIsSlice(s, size, base, blobIndex, offset, end, p, q, b, p + j, blobs);
    }
    Chain(blobs, v, id, edges);
  }

  lemma FullScanIsSlice(s: Source, size: nat, base: nat, blobIndex: nat, offset: nat, end: nat, p: nat, q: nat,
      blobs: Blobs)
    requires UniformSource(s, size, base, blobIndex)
    requires offset < end && offset < size
    requires Holds(p, offset, s.blksize) && Holds(q, end - 1, s.blksize)
    requires s.blobIds[blobIndex] in blobs && base + size <= |blobs[s.blobIds[blobIndex]]|
    ensures var v := Scan(s, offset, end, 0, |s.chunks|);
            v.Ok? && Fetches(blobs, v.value, s.blobIds[blobIndex], base + offset, base + Min(end, size))
  {
    ScanShape(s, size, base, blobIndex, offset, end, p, q, 0, |s.chunks|);
    InsideHasChunk(s, size, base, blobIndex, offset, p);
    if q < p { StartMonotone(q, p, s.blksize); }
    BiosFetch(s, size, base, blobIndex, offset, end, p, q, Min(|s.chunks|, q + 1), blobs);
  }

  /** `r` is a descriptor for exactly the bytes `[base + offset, base + min(offset + len, size))` of blob `id`, in
      order, and `bi_size` is their number. */
  ghost predicate Delivers(blobs: Blobs, r: Result<BioDesc>, id: Name, base: nat, size: nat, offset: nat, len: nat) {
    && r.Ok?
    && r.value.size == TotalSize(r.value.vec)
    && if offset < Min(offset + len, size)
       then Fetches(blobs, r.value.vec, id, base + offset, base + Min(offset + len, size))
       else r.value.vec == []
  }

  lemma FullScanDelivers(s: Source, size: nat, base: nat, blobIndex: nat, offset: nat, end: nat, blobs: Blobs)
    requires UniformSource(s, size, base, blobIndex)
    requires offset < end
    requires s.blobIds[blobIndex] in blobs && base + size <= |blobs[s.blobIds[blobIndex]]|
    ensures var v := Scan(s, offset, end, 0, |s.chunks|);
            v.Ok? && Delivers(blobs, Ok(BioDesc(TotalSize(v.value), v.value)), s.blobIds[blobIndex], base, size,
                offset, end - offset)
  {
    if offset < size {
      QuotientHolds(offset, s.blksize);
      QuotientHolds(end - 1, s.blksize);
      FullScanIsSlice(s, size, base, blobIndex, offset, end, offset / s.blksize, (end - 1) / s.blksize, blobs);
    } else {
      ScanPastEnd(s, size, base, blobIndex, offset, end, 0, |s.chunks|);
    }
  }

  /** Reading `[offset, offset + len)` of a uniformly chunked file returns exactly
      `[base + offset, base + min(offset + len, size))` of its blob. */
  lemma ReadDelivers(s: Source, size: nat, base: nat, blobIndex: nat, offset: nat, len: nat, blobs: Blobs)
    requires UniformSource(s, size, base, blobIndex)
    requires |s.chunks| < U32 && !s.hasHole
    requires offset + len < U64
    requires offset < size && len > 0 ==> WindowReaches(s, offset + len)
    requires s.blobIds[blobIndex] in blobs && base + size <= |blobs[s.blobIds[blobIndex]]|
    ensures Delivers(blobs, AllocBioDescSpec(s, offset, len), s.blobIds[blobIndex], base, size, offset, len)
  {
    if len > 0 {
      FullScanDelivers(s, size, base, blobIndex, offset, offset + len, blobs);
      WindowIsFullScan(s, size, base, blobIndex, offset, offset + len);
    }
  }
}
