/** From the archives of packages to the bytes a reader of the file system gets: buckets, their records, the image built
    from the records, and range reads. */
module PackageFiles {
  import opened Wrappers
  import opened Bytes
  import opened Nodes
  import opened Trees
  import opened Toc
  import opened BlobIndex
  import opened RangeRead
  import opened EndToEnd
  import opened Direct
  import opened FileReads
  import opened TableFiles
  import opened Ustar
  import opened TarFields
  import opened Bucket

  /** The table has the record as entry `i`, and nothing else has data at its path. */
  ghost predicate Lists(toc: seq<TocItem>, i: nat, e: TocEntry) {
    && i < |toc| && toc[i].entry == e.(blockId := toc[i].entry.blockId)
    && forall j :: 0 <= j < |toc| && j != i ==> toc[j].entry.Path() != e.Path()
  }

  /** A file's bytes, as a reader asking for `len` of them from `off` on gets them. */
  ghost predicate ReadsAs(blobs: Blobs, r: Result<BioDesc>, data: seq<Byte>, off: nat, len: nat) {
    && r.Ok? && (forall b :: b in r.value.vec ==> InBlob(blobs, b))
    && ReadBios(blobs, r.value.vec) == (if off < Min(off + len, |data|) then data[off..Min(off + len, |data|)] else [])
    && r.value.size == |ReadBios(blobs, r.value.vec)|
  }

  lemma DeliveredBytes(blobs: Blobs, r: Result<BioDesc>, id: Name, base: nat, data: seq<Byte>, off: nat, len: nat)
    requires id in blobs && base + |data| <= |blobs[id]| && blobs[id][base..base + |data|] == data
    requires Delivers(blobs, r, id, base, |data|, off, len)
    ensures ReadsAs(blobs, r, data, off, len)
  {
    var to := Min(off + len, |data|);
    if off < to {
      SliceOfSlice(blobs[id], base, base + |data|, base + off, base + to);
    }
  }

  /** A regular file of a package: through its record in the bucket, the table of contents, the bootstrap file's bytes
      and the lookup in what is loaded from them, every range read gets the bytes that the package's archive has for the
      file. */
  lemma ReadsPackageFile(image: seq<Byte>, toc: seq<TocItem>, blobIds: seq<Name>, nodes: seq<Node>, f: FileTree,
                         m: BlobMap, blobs: Blobs,
                         i: nat, base: nat, adds: seq<Add>, a: nat, k: nat, off: nat, len: nat)
    returns (j: nat)
    requires FileOfToc(image, toc, blobIds, nodes, f, m) && WellFormedToc(toc)
    requires i < |toc| && toc[i].blobId in blobs && Accounts(blobs[toc[i].blobId], base, adds)
    requires a < |adds| && k < |adds[a].index| && Lists(toc, i, adds[a].index[k])
    requires toc[i].entry.tocType.TocReg? && toc[i].entry.Path() != [] && !toc[i].entry.name.absolute
    requires off + len < BLOCK_SIZE * (U32 - 1)
    ensures j < |adds[a].items| && Recorded(adds[a].items[j].header)
    ensures var loaded := Load(image);
            && loaded.Ok?
            && var (mapping, ids) := loaded.value;
               var ino := mapping.InoFromPathSpec(true, toc[i].entry.Path());
               && ino.Ok? && 1 <= ino.value <= |mapping.entries|
               && ReadsAs(blobs, AllocBioDescSpec(SourceOf(mapping.entries[ino.value - 1], ids), off, len),
                          adds[a].items[j].data, off, len)
  {
    hide FileOfToc, Load, WellFormedToc, Accounts, Delivers, AllocBioDescSpec, ReadsAs, IsRecord, AllAccepted,
         Contiguous, Recorded, DataAt;
    var e, id := adds[a].index[k], toc[i].blobId;
    j := RecordSelects(blobs[id], base, adds, a, k);
    RecordSays(e, adds[a].items, adds[a].prefix, adds[a].start, j);
    WholeFileIsContiguous(toc, i);
    ReadsFromFile(image, toc, blobIds, nodes, f, m, i, off, len, blobs);
    var (mapping, ids) := Load(image).value;
    var ino := mapping.InoFromPathSpec(true, toc[i].entry.Path());
    DeliveredBytes(blobs, AllocBioDescSpec(SourceOf(mapping.entries[ino.value - 1], ids), off, len), id, e.offset,
                   adds[a].items[j].data, off, len);
  }

  /** Any entry of a package: the inode that a reader of the file system finds for it has the kind, the permissions and
      the link target of the header in the package's archive, and belongs to the superuser. */
  lemma ShowsPackageEntry(image: seq<Byte>, toc: seq<TocItem>, blobIds: seq<Name>, nodes: seq<Node>, f: FileTree,
                          m: BlobMap, bucket: seq<Byte>, i: nat, base: nat, adds: seq<Add>, a: nat, k: nat)
    returns (j: nat)
    requires FileOfToc(image, toc, blobIds, nodes, f, m) && WellFormedToc(toc)
    requires Accounts(bucket, base, adds) && a < |adds| && k < |adds[a].index| && Lists(toc, i, adds[a].index[k])
    requires toc[i].entry.IsNode() && toc[i].entry.Path() != []
    ensures j < |adds[a].items| && Load(image).Ok?
    ensures var mapping, h := Load(image).value.0, adds[a].items[j].header;
            var ino := mapping.InoFromPathSpec(true, toc[i].entry.Path());
            && ino.Ok? && 1 <= ino.value <= |mapping.entries|
            && ShowsHeader(mapping.entries[ino.value - 1], h)
  {
    hide FileOfToc, Load, WellFormedToc, Accounts, IsRecord, AllAccepted, DataAt, Shows, ShowsChunks, Tells;
    var e := adds[a].index[k];
    j := RecordSelects(bucket, base, adds, a, k);
    RecordIsTold(e, adds[a].items, adds[a].prefix, adds[a].start, j);
    LoadedShows(image, toc, blobIds, nodes, f, m, i);
    var mapping := Load(image).value.0;
    var ino := mapping.InoFromPathSpec(true, toc[i].entry.Path());
    HeaderShown(mapping.entries[ino.value - 1], toc[i].entry, e, adds[a].items[j].header);
  }

  /** The inode of an entry, in terms of its archive header. */
  ghost predicate ShowsHeader(r: Entry, h: Header) {
    && (r.inode.kind.Dir? <==> h[156] == 53) && (r.inode.kind.Symlink? <==> h[156] == 50)
    && OctalFrom(h[100..108]).Ok? && r.inode.attrs.perm == OctalFrom(h[100..108]).value % 0x1000
    && r.inode.attrs.uid == 0 && r.inode.attrs.gid == 0
    && r.symlink == if h[156] == 50 then Some(Truncate(h[157..257])) else None
  }

  lemma HeaderShown(r: Entry, shown: TocEntry, e: TocEntry, h: Header)
    requires Shows(r.inode, r.symlink, r.xattrs, shown) && Tells(e, h) && shown == e.(blockId := shown.blockId)
    ensures ShowsHeader(r, h)
  {
    hide OctalFrom, Truncate, AsRawName, NumFieldFrom;
  }
}
