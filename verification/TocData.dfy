/** The data that a table of contents gives a path, told item by item. */
module TocData {
  import opened Wrappers
  import opened Nodes
  import opened Toc

  /** Item `r` is the last regular entry before item `j`. */
  ghost predicate RegBefore(toc: seq<TocItem>, j: nat, r: nat) {
    r < j <= |toc| && toc[r].entry.tocType.TocReg? && forall s :: r < s < j ==> !toc[s].entry.tocType.TocReg?
  }

  /** Item `j` describes `n` bytes: its chunk size, or else its own size, or else, for a chunk, what its offset leaves
      of the regular entry before it, modulo 2^64. */
  ghost predicate ItemSize(toc: seq<TocItem>, j: nat, n: nat) {
    && j < |toc|
    && var e := toc[j].entry;
       if e.chunkSize != 0 then n == e.chunkSize
       else if e.size != 0 then n == e.size
       else if e.tocType.TocChunk? && exists r: nat :: RegBefore(toc, j, r) then
         exists r: nat :: RegBefore(toc, j, r) && n == (toc[r].entry.size - e.chunkOffset) % 0x1_0000_0000_0000_0000
       else n == 0
  }

  /** Item `j` is a regular entry or a chunk of the path `p`, and describes some bytes. */
  ghost predicate DataItem(toc: seq<TocItem>, j: nat, p: Path) {
    && j < |toc| && toc[j].entry.name.comps == p && (toc[j].entry.tocType.TocReg? || toc[j].entry.tocType.TocChunk?)
    && !ItemSize(toc, j, 0)
  }

  /** The data items of `p` among the first `i` items, in the order of the table. */
  ghost predicate ItemsBefore(toc: seq<TocItem>, i: nat, p: Path, js: seq<nat>) {
    && (forall k :: 0 <= k < |js| ==> js[k] < i && DataItem(toc, js[k], p))
    && (forall k, l :: 0 <= k < l < |js| ==> js[k] < js[l])
    && (forall j: nat :: j < i && DataItem(toc, j, p) ==> j in js)
  }

  /** The data items of `p`, in the order of the table. */
  ghost predicate DataItems(toc: seq<TocItem>, p: Path, js: seq<nat>) {
    ItemsBefore(toc, |toc|, p, js)
  }

  /** Chunk `c` says where item `j` has its bytes. */
  ghost predicate ChunkOfItem(toc: seq<TocItem>, j: nat, c: Chunk) {
    && j < |toc|
    && c.fileOffset == toc[j].entry.chunkOffset && c.compressOffset == toc[j].entry.offset
    && c.blockId == toc[j].entry.blockId
    && (exists n: nat :: ItemSize(toc, j, n) && c.decompressSize == n % 0x1_0000_0000)
    && c.blobIndex == c.flags == c.compressSize == c.decompressOffset == c.reserved == 0
  }

  /** The `k`-th of the items is the last regular entry among them. */
  ghost predicate LastRegItem(toc: seq<TocItem>, js: seq<nat>, k: nat) {
    && k < |js| && js[k] < |toc| && toc[js[k]].entry.tocType.TocReg?
    && forall l :: k < l < |js| ==> js[l] < |toc| && !toc[js[l]].entry.tocType.TocReg?
  }

  /** One chunk for each item, in order, and the size of the last regular entry among them, if there is one. */
  ghost predicate DataOfItems(toc: seq<TocItem>, js: seq<nat>, size: nat, chunks: seq<Chunk>) {
    && |chunks| == |js| && (forall k :: 0 <= k < |js| ==> ChunkOfItem(toc, js[k], chunks[k]))
    && (forall k: nat :: LastRegItem(toc, js, k) ==> size == toc[js[k]].entry.size)
    && ((forall k: nat :: !LastRegItem(toc, js, k)) ==> size == 0)
  }

  lemma {:induction false} LastRegIs(toc: seq<TocItem>, j: nat)
    requires j <= |toc|
    ensures LastReg(toc[..j]).Some? <==> exists r: nat :: RegBefore(toc, j, r)
    ensures forall r: nat :: RegBefore(toc, j, r) ==> LastReg(toc[..j]) == Some(toc[r].entry)
  {
    if j > 0 {
      var i := j - 1;
      LastRegIs(toc, i);
      assert toc[..j][..i] == toc[..i] && toc[..j][i] == toc[i];
      if toc[i].entry.tocType.TocReg? {
        assert RegBefore(toc, j, i);
      } else {
        forall r: nat
          ensures RegBefore(toc, j, r) <==> RegBefore(toc, i, r)
        {
        }
      }
    }
  }

  lemma ItemSizeIs(toc: seq<TocItem>, j: nat)
    requires j < |toc| && (toc[j].entry.tocType.TocReg? || toc[j].entry.tocType.TocChunk?)
    ensures forall n: nat :: ItemSize(toc, j, n) <==> n == DecompressSize(LastReg(toc[..j]), toc[j].entry)
  {
    hide LastReg, RegBefore;
    LastRegIs(toc, j);
  }

  lemma DataItemIs(toc: seq<TocItem>, j: nat, p: Path)
    requires j < |toc|
    ensures DataItem(toc, j, p) <==> HasData(LastReg(toc[..j]), toc[j].entry) && toc[j].entry.Path() == p
    ensures DataItem(toc, j, p) ==> ChunkOfItem(toc, j, ChunkOf(toc[j].entry,
                                                                DecompressSize(LastReg(toc[..j]), toc[j].entry)))
  {
    hide LastReg, DecompressSize, ItemSize;
    var e := toc[j].entry;
    if e.tocType.TocReg? || e.tocType.TocChunk? {
      ItemSizeIs(toc, j);
      assert ItemSize(toc, j, DecompressSize(LastReg(toc[..j]), e));
    }
  }

  /** One more data item adds one more chunk at the end. */
  lemma ItemAdded(toc: seq<TocItem>, js: seq<nat>, data: Option<(nat, seq<Chunk>)>, j: nat, chunk: Chunk)
    requires j < |toc| && ChunkOfItem(toc, j, chunk) && (data.None? <==> js == [])
    requires data.Some? ==> DataOfItems(toc, js, data.value.0, data.value.1)
    ensures var (size, chunks) := AddChunk(data, toc[j].entry, chunk); DataOfItems(toc, js + [j], size, chunks)
  {
    hide ChunkOfItem;
    var more, e := js + [j], toc[j].entry;
    if e.tocType.TocReg? {
      assert LastRegItem(toc, more, |js|);
    } else {
      forall k: nat
        ensures LastRegItem(toc, more, k) <==> LastRegItem(toc, js, k)
      {
        assert more[|js|] == j && forall l :: 0 <= l < |js| ==> more[l] == js[l];
      }
    }
  }

  lemma {:induction false} ChunksBefore(toc: seq<TocItem>, i: nat, p: Path) returns (js: seq<nat>)
    requires i <= |toc|
    ensures ItemsBefore(toc, i, p, js) && (FileData(toc[..i], p).None? <==> js == [])
    ensures js != [] ==> var (size, chunks) := FileData(toc[..i], p).value; DataOfItems(toc, js, size, chunks)
  {
    hide LastReg, DecompressSize, HasData, ChunkOf, AddChunk, DataItem, DataOfItems, ChunkOfItem;
    js := [];
    if i > 0 {
      js := ChunksBefore(toc, i - 1, p);
      assert toc[..i][..i - 1] == toc[..i - 1] && toc[..i][i - 1] == toc[i - 1];
      DataItemIs(toc, i - 1, p);
      if DataItem(toc, i - 1, p) {
        ItemAdded(toc, js, FileData(toc[..i - 1], p), i - 1,
                  ChunkOf(toc[i - 1].entry, DecompressSize(LastReg(toc[..i - 1]), toc[i - 1].entry)));
        js := js + [i - 1];
      }
    }
  }

  /** The data of a path: one chunk for each of its data items, in the order of the table. */
  lemma ChunksInOrder(toc: seq<TocItem>, p: Path) returns (js: seq<nat>)
    ensures DataItems(toc, p, js) && (FileData(toc, p).None? <==> js == [])
    ensures js != [] ==> var (size, chunks) := FileData(toc, p).value; DataOfItems(toc, js, size, chunks)
  {
    hide FileData, DataOfItems, ItemsBefore;
    js := ChunksBefore(toc, |toc|, p);
    assert toc[..|toc|] == toc;
  }
}
