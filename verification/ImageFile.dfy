/** Writing a whole bootstrap file and reading it back from its bytes. */
module ImageFile {
  import opened Wrappers
  import opened Bytes
  import opened Nodes
  import opened BlobTable
  import opened Direct
  import opened ByteLayout

  /** The inode table as stored: 32-bit entries. */
  function TableBytes(data: seq<nat>): (b: seq<Byte>)
    ensures |b| == 4 * |data|
  {
    if data == [] then [] else Le(data[0], 4) + TableBytes(data[1..])
  }

  /** The first `n` 32-bit entries of `b`. */
  function ReadTable(b: seq<Byte>, n: nat): (data: seq<nat>)
    requires |b| >= 4 * n
    ensures |data| == n
    decreases n
  {
    if n == 0 then [] else [FromLe(b[..4])] + ReadTable(b[4..], n - 1)
  }

  lemma {:induction false} TableReadsBack(data: seq<nat>, n: nat, rest: seq<Byte>)
    requires n <= |data| && forall i :: 0 <= i < n ==> data[i] < U32
    ensures ReadTable(TableBytes(data) + rest, n) == data[..n]
    decreases n
  {
    hide Le, FromLe;
    if n > 0 {
      Pow256Values();
      LeRoundTrip(data[0], 4);
      LeLength(data[0], 4);
      TableReadsBack(data[1..], n - 1, rest);
      var b := TableBytes(data) + rest;
      assert b == Le(data[0], 4) + (TableBytes(data[1..]) + rest);
      assert b[..4] == Le(data[0], 4) && b[4..] == TableBytes(data[1..]) + rest;
      assert data[..n] == [data[0]] + data[1..][..n - 1];
    }
  }

  /** The table's numbers are one after the other, four bytes each. */
  lemma {:induction false} ReadTableAt(b: seq<Byte>, n: nat, k: nat)
    requires |b| >= 4 * n && k < n
    ensures ReadTable(b, n)[k] == U32At(b, 4 * k)
    decreases n
  {
    hide FromLe;
    if k > 0 {
      ReadTableAt(b[4..], n - 1, k - 1);
    } else {
      FromLeAt(b, 0);
      assert b[0..4] == b[..4];
    }
  }

  lemma {:induction false} TableBytesAt(data: seq<nat>, k: nat)
    requires k < |data| && data[k] < 0x1_0000_0000
    ensures U32At(TableBytes(data), 4 * k) == data[k]
    decreases k
  {
    hide Le;
    if k > 0 {
      TableBytesAt(data[1..], k - 1);
      LeLength(data[0], 4);
      assert TableBytes(data)[4..] == TableBytes(data[1..]);
    } else {
      LeAt(data[0]);
      LeLength(data[0], 4);
    }
  }

  /** The parts of a bootstrap file. */
  ghost function FileHead(superBlock: seq<Byte>, data: seq<nat>, es: seq<BlobEntry>): seq<Byte> {
    superBlock + (TableBytes(data) + BlobTable.TableBytes(es))
  }

  /** Where the blob table is: right after the inode table. */
  function BlobTableOffset(data: seq<nat>): nat {
    SUPERBLOCK_SIZE + 4 * |data|
  }

  /** The nodes written one after the other. */
  method DumpNodes(nodes: seq<Node>) returns (b: seq<Byte>)
    requires AllEncodable(nodes)
    ensures b == AllNodes(nodes)
  {
    hide Encodable, NodeBytes;
    b := [];
    for i := 0 to |nodes|
      invariant b + AllNodes(nodes[i..]) == AllNodes(nodes)
    {
      assert nodes[i..][1..] == nodes[i + 1..] && nodes[i..][0] == nodes[i];
      DumpableNode(nodes[i]);
      var dumped := DumpBootstrap(nodes[i]);
      ghost var before := b;
      b := b + dumped.value;
      assert before + (NodeBytes(nodes[i]) + AllNodes(nodes[i + 1..])) == b + AllNodes(nodes[i + 1..]);
    }
    assert b + [] == b;
  }

  lemma DumpableNode(n: Node)
    requires Encodable(n)
    ensures |n.Name()| <= Align(n.inode.nameSize)
              && (n.symlink.Some? ==> |n.symlink.value| <= Align(n.inode.symlinkSize))
    ensures n.IsReg() ==> n.inode.childCount == |n.chunks|
  {
    hide OnDisk.InodeFits, OnDisk.ChunkFits;
  }

  /** `dump` of either builder: the super block, the inode table, the blob table and the nodes. */
  method Dump(superBlock: seq<Byte>, blobTable: OndiskBlobTable, nodes: seq<Node>, countXattrs: bool)
    returns (image: seq<Byte>, data: seq<nat>)
    requires |superBlock| == SUPERBLOCK_SIZE && AllEncodable(nodes)
    requires forall i :: 0 <= i < |nodes| ==> nodes[i].index == i + 1
    ensures |data| == Align(4 * |nodes|) / 4 >= |nodes|
    ensures image == ImageBytes(FileHead(superBlock, data, blobTable.entries), nodes)
    ensures forall i :: 0 <= i < |nodes| ==>
              data[i] == Offset(nodes, i, |FileHead(superBlock, data, blobTable.entries)|, countXattrs) / 8
  {
    hide AllEncodable, Encodable, Offset, Joined, TableBytes, BlobTable.TableBytes, AllNodes, FileHead;
    var table := new OndiskInodeTable(|nodes|);
    var inodeTableSize := Align(4 * |table.data|);
    var blobTableSize := blobTable.Size();
    BlobTableLength(blobTable.entries);
    var start := SUPERBLOCK_SIZE + inodeTableSize + blobTableSize;
    SetOffsets(table, nodes, start, countXattrs);
    data := table.data;
    HeadLength(superBlock, data, blobTable.entries);
    var blobs, size := blobTable.Store();
    var b := DumpNodes(nodes);
    image := superBlock + (TableBytes(data) + blobs) + b;
  }

  lemma HeadLength(superBlock: seq<Byte>, data: seq<nat>, es: seq<BlobEntry>)
    ensures |FileHead(superBlock, data, es)| == |superBlock| + 4 * |data| + Align(JoinedSize(es))
    ensures FileHead(superBlock, data, es) == superBlock + (TableBytes(data) + BlobTable.TableBytes(es))
  {
    hide TableBytes, BlobTable.TableBytes;
    TableLength(data);
    BlobTableLength(es);
  }

  lemma TableLength(data: seq<nat>)
    ensures |TableBytes(data)| == 4 * |data|
  {
  }

  lemma BlobTableLength(es: seq<BlobEntry>)
    ensures |BlobTable.TableBytes(es)| == Align(JoinedSize(es))
  {
  }

  /** The head of a file with at least one node is aligned and longer than the super block. */
  lemma HeadIsHead(superBlock: seq<Byte>, data: seq<nat>, es: seq<BlobEntry>, n: nat)
    requires |superBlock| == SUPERBLOCK_SIZE && n > 0 && |data| == Align(4 * n) / 4
    ensures IsHead(FileHead(superBlock, data, es))
  {
    hide FileHead, Align;
    HeadLength(superBlock, data, es);
    FourTimes(4 * n);
    Aligned(JoinedSize(es));
  }

  lemma FourTimes(size: nat)
    ensures 4 * (Align(size) / 4) == Align(size) && Align(size) % ALIGNMENT == 0 && Align(size) >= size
  {
    hide Align;
    Aligned(size);
  }

  lemma Aligned(size: nat)
    ensures Align(size) % ALIGNMENT == 0 && Align(size) >= size
  {
  }

  /** The inode table as the memory-mapped driver maps it. */
  function MappedTable(image: seq<Byte>, offset: nat, n: nat): (data: seq<nat>)
    requires |image| >= offset + 4 * n
    ensures |data| == n
  {
    ReadTable(image[offset..], n)
  }

  /** The file reads back: by inode number through the mapped table, in sequence after the blob table, and the blob
      table itself. */
  ghost predicate ReadsBack(image: seq<Byte>, nodes: seq<Node>, blobOffset: nat, es: seq<BlobEntry>) {
    && |image| >= SUPERBLOCK_SIZE + 4 * |nodes| && |image| % ALIGNMENT == 0
    && (forall i :: 0 <= i < |nodes| ==>
          MappedEntry(image, MappedTable(image, SUPERBLOCK_SIZE, |nodes|), i + 1) == Ok(View(nodes[i])))
    && blobOffset + Align(JoinedSize(es)) <= |image|
    && BlobTable.Parse(image[blobOffset..][..Align(JoinedSize(es))]) == Ok(es)
    && LoadRecords(image[blobOffset..][Align(JoinedSize(es))..]) == Views(nodes)
  }

  lemma Parts(superBlock: seq<Byte>, table: seq<Byte>, blobs: seq<Byte>, rest: seq<Byte>)
    ensures var image, at := superBlock + (table + blobs) + rest, |superBlock| + |table|;
            && image[|superBlock|..] == table + (blobs + rest)
            && image[at..][..|blobs|] == blobs && image[at..][|blobs|..] == rest
  {
    var image, at := superBlock + (table + blobs) + rest, |superBlock| + |table|;
    assert image[at..] == blobs + rest;
  }

  /** Offsets fit the table's 32-bit entries. */
  lemma OffsetsFit(nodes: seq<Node>, data: seq<nat>, head: seq<Byte>)
    requires AllEncodable(nodes) && |ImageBytes(head, nodes)| < U32 && |data| >= |nodes|
    requires forall i :: 0 <= i < |nodes| ==> data[i] == Offset(nodes, i, |head|, true) / 8
    ensures forall i :: 0 <= i < |nodes| ==> data[i] < U32
  {
    hide AllEncodable, Offset, AllNodes;
    forall i | 0 <= i < |nodes|
      ensures data[i] < U32
    {
      NodesFrom(nodes, i, |head|);
    }
  }

  lemma FileReadsBack(superBlock: seq<Byte>, data: seq<nat>, es: seq<BlobEntry>, nodes: seq<Node>)
    requires |superBlock| == SUPERBLOCK_SIZE && AllEncodable(nodes) && Loadable(es) && |nodes| > 0
    requires |data| == Align(4 * |nodes|) / 4 >= |nodes|
    requires var head := FileHead(superBlock, data, es);
             && |ImageBytes(head, nodes)| < U32
             && forall i :: 0 <= i < |nodes| ==> data[i] == Offset(nodes, i, |head|, true) / 8
    ensures ReadsBack(ImageBytes(FileHead(superBlock, data, es), nodes), nodes, BlobTableOffset(data), es)
  {
    hide AllEncodable, Offset, TableBytes, BlobTable.TableBytes, AllNodes, Loadable, MappedEntry, LoadRecords,
        BlobTable.Parse,
         ReadTable, IsHead;
    var head, blobs := FileHead(superBlock, data, es), BlobTable.TableBytes(es);
    var image := ImageBytes(head, nodes);
    TableLength(data);
    BlobTableLength(es);
    HeadIsHead(superBlock, data, es, |nodes|);
    OffsetsFit(nodes, data, head);
    Parts(superBlock, TableBytes(data), blobs, AllNodes(nodes));
    TableReadsBack(data, |nodes|, blobs + AllNodes(nodes));
    forall i | 0 <= i < |nodes|
      ensures MappedEntry(image, data[..|nodes|], i + 1) == Ok(View(nodes[i]))
    {
      MappingFinds(head, nodes, data[..|nodes|], i);
    }
    TableRoundTrip(es);
    SequenceFinds(nodes);
    WholeIsAligned(nodes, head);
  }

  lemma WholeIsAligned(nodes: seq<Node>, head: seq<Byte>)
    requires AllEncodable(nodes) && IsHead(head)
    ensures |ImageBytes(head, nodes)| % ALIGNMENT == 0
  {
    hide AllEncodable, Offset, AllNodes;
    OffsetAligned(nodes, |nodes|, |head|);
    NodesEnd(nodes, |head|);
  }

  lemma NodesEnd(nodes: seq<Node>, start: nat)
    requires AllEncodable(nodes)
    ensures Offset(nodes, |nodes|, start, true) == start + |AllNodes(nodes)|
  {
    hide Encodable, AllEncodable, Offset;
    NodesFrom(nodes, |nodes|, start);
    assert nodes[|nodes|..] == [];
    assert |AllNodes(nodes)[Offset(nodes, |nodes|, start, true) - start..]| == 0;
  }

  /** The file that `Bootstrap::dump` writes reads back too, if no node but the last has extended attributes. */
  lemma BootstrapFileReadsBack(superBlock: seq<Byte>, data: seq<nat>, es: seq<BlobEntry>, nodes: seq<Node>)
    requires |superBlock| == SUPERBLOCK_SIZE && AllEncodable(nodes) && Loadable(es) && |nodes| > 0
    requires forall j :: 0 <= j < |nodes| - 1 ==> nodes[j].xattrs == []
    requires |data| == Align(4 * |nodes|) / 4 >= |nodes|
    requires var head := FileHead(superBlock, data, es);
             && |ImageBytes(head, nodes)| < U32
             && forall i :: 0 <= i < |nodes| ==> data[i] == Offset(nodes, i, |head|, false) / 8
    ensures ReadsBack(ImageBytes(FileHead(superBlock, data, es), nodes), nodes, BlobTableOffset(data), es)
  {
    hide AllEncodable, Encodable, Offset, FileHead, ImageBytes, Loadable, ReadsBack;
    var start := |FileHead(superBlock, data, es)|;
    BootstrapOffsetsRight(nodes, start);
    forall i | 0 <= i < |nodes|
      ensures data[i] == Offset(nodes, i, start, true) / 8
    {
      assert OffsetRight(nodes, i, start);
    }
    FileReadsBack(superBlock, data, es, nodes);
  }
}
