/** What was appended to an archive is what its reader finds. */
module TarRoundTrip {
  import opened Wrappers
  import opened Bytes
  import opened TarFields
  import opened TarPaths
  import opened Ustar
  import opened TarHeader
  import opened TarWriter
  import opened TarReader

  /** A member appended with `append_data`: its path, its header as written, its data, and the header of its long-name
      entry, if it has one. */
  datatype Appended = Appended(path: seq<Byte>, header: Header, data: seq<Byte>, long: Option<Header>)

  function AppendedBytes(m: Appended): seq<Byte> {
    (if m.long.Some? then Member(m.long.value, m.path + [0]) else []) + Member(m.header, m.data)
  }

  function AllAppended(ms: seq<Appended>): seq<Byte> {
    if ms == [] then [] else AppendedBytes(ms[0]) + AllAppended(ms[1..])
  }

  /** A finished archive. */
  function Archive(ms: seq<Appended>): seq<Byte> {
    AllAppended(ms) + Zeros(1024)
  }

  predicate PlainType(h: Header) {
    var t := EntryType(h);
    t != LONG_NAME && t != LONG_LINK && t != PAX && t != SPARSE
  }

  /** The reader will take the header, its size field is right, and the path is in it or in the long-name entry. */
  ghost predicate Readable(m: Appended) {
    && CksumOk(m.header) && EntrySize(m.header) == Ok(|m.data|) && PlainType(m.header)
    && (m.long.None? ==> HeaderPath(m.header) == m.path)
    && (m.long.Some? ==> IsLongName(m.long.value, |m.path|))
  }

  // ----- one member -----

  lemma ZeroFieldFails(h: Header)
    requires AllZero(h)
    ensures !CksumOk(h)
  {
    var f := h[CKSUM..CKSUM_END];
    assert f[0] == 0;
    assert Truncate(f) == [];
  }

  lemma PaddedBlocks(n: nat)
    ensures n + |Padding(n)| == Blocks(n)
  {
  }

  lemma RawOfMember(h: Header, data: seq<Byte>, more: seq<Byte>)
    requires CksumOk(h) && EntrySize(h) == Ok(|data|)
    ensures RawNext(Member(h, data) + more) == Some(Ok(Raw(h, |data|, data, Some(more))))
  {
    hide CksumOk, EntrySize, Padding, Blocks;
    var s := Member(h, data) + more;
    PaddedBlocks(|data|);
    BlocksCover(|data|);
    if AllZero(h) { ZeroFieldFails(h); }
    assert s[..BLOCK] == h;
    assert s[BLOCK..BLOCK + |data|] == data;
    assert s[BLOCK + Blocks(|data|)..] == more;
  }

  lemma BlocksCover(n: nat)
    ensures Blocks(n) >= n
  {
  }

  /** What the reader makes of one member of any archive: a header that passes its checksum and announces `|data|`
      bytes, the data, and what fills its last block of 512 bytes. In a GNU or ustar header, type `L` is a long name,
      type `K` a long link, and `x` a pax record. */
  lemma MemberRead(h: Header, data: seq<Byte>, fill: seq<Byte>, more: seq<Byte>, longPath: Option<seq<Byte>>,
      longLink: Option<seq<Byte>>)
    requires CksumOk(h) && EntrySize(h) == Ok(|data|) && (|data| + |fill|) % 512 == 0 && |fill| < 512
    ensures var r := ItemNext(Some(h + data + fill + more), longPath, longLink);
            var known := h[257..265] == [117, 115, 116, 97, 114, 32, 32, 0]
                         || h[257..265] == [117, 115, 116, 97, 114, 0, 48, 48];
            && (known && h[156] == 76 ==>
                  r == if longPath.Some? then Some(Err(Other)) else ItemNext(Some(more), Some(data), longLink))
            && (known && h[156] == 75 ==>
                  r == if longLink.Some? then Some(Err(Other)) else ItemNext(Some(more), longPath, Some(data)))
            && ((known && h[156] == 120) || h[156] == 83 ==> r == Some(Err(Other)))
            && (h[156] != 83 && (!known || h[156] !in {75, 76, 120}) ==>
                  r == Some(Ok((Item(h, longPath, longLink, |data|, data), Some(more)))))
  {
    hide CksumOk, EntrySize, RawNext, IsGnu, IsUstar;
    HeaderAt(h);
    RawOfBytes(h, data, fill, more);
  }

  lemma RawOfBytes(h: Header, data: seq<Byte>, fill: seq<Byte>, more: seq<Byte>)
    requires CksumOk(h) && EntrySize(h) == Ok(|data|) && (|data| + |fill|) % 512 == 0 && |fill| < 512
    ensures RawNext(h + data + fill + more) == Some(Ok(Raw(h, |data|, data, Some(more))))
  {
    hide CksumOk, EntrySize, Blocks;
    var s := h + data + fill + more;
    BlocksAre(|data|, |fill|);
    BlocksCover(|data|);
    if AllZero(h) { ZeroFieldFails(h); }
    assert s[..BLOCK] == h;
    assert s[BLOCK..BLOCK + |data|] == data;
    assert s[BLOCK + Blocks(|data|)..] == more;
  }

  lemma BlocksAre(n: nat, fill: nat)
    requires (n + fill) % 512 == 0 && fill < 512
    ensures Blocks(n) == n + fill
  {
  }

  /** A member after a long name and a long link, as GNU writes them, in either order. */
  lemma LongNamesRead(h1: Header, name: seq<Byte>, fill1: seq<Byte>, h2: Header, link: seq<Byte>, fill2: seq<Byte>,
      h: Header, data: seq<Byte>, fill: seq<Byte>, more: seq<Byte>)
    requires CksumOk(h1) && EntrySize(h1) == Ok(|name|) && (|name| + |fill1|) % 512 == 0 && |fill1| < 512
    requires CksumOk(h2) && EntrySize(h2) == Ok(|link|) && (|link| + |fill2|) % 512 == 0 && |fill2| < 512
    requires CksumOk(h) && EntrySize(h) == Ok(|data|) && (|data| + |fill|) % 512 == 0 && |fill| < 512
    requires h1[257..265] == h2[257..265] == [117, 115, 116, 97, 114, 32, 32, 0] && h1[156] == 76 && h2[156] == 75
    requires h[156] !in {75, 76, 83, 120}
    ensures var first, second, last := h1 + name + fill1, h2 + link + fill2, h + data + fill + more;
            var item := Item(h, Some(name), Some(link), |data|, data);
            && ItemNext(Some(first + (second + last)), None, None) == Some(Ok((item, Some(more))))
            && ItemNext(Some(second + (first + last)), None, None) == Some(Ok((item, Some(more))))
            && ItemNext(Some(first + last), None, None) == Some(Ok((item.(longLink := None), Some(more))))
            && ItemNext(Some(second + last), None, None) == Some(Ok((item.(longPath := None), Some(more))))
  {
    hide CksumOk, EntrySize, ItemNext;
    var first, second, last := h1 + name + fill1, h2 + link + fill2, h + data + fill + more;
    MemberRead(h1, name, fill1, second + last, None, None);
    MemberRead(h1, name, fill1, last, None, None);
    MemberRead(h1, name, fill1, last, None, Some(link));
    MemberRead(h2, link, fill2, first + last, None, None);
    MemberRead(h2, link, fill2, last, None, None);
    MemberRead(h2, link, fill2, last, Some(name), None);
    MemberRead(h, data, fill, more, Some(name), Some(link));
    MemberRead(h, data, fill, more, Some(name), None);
    MemberRead(h, data, fill, more, None, Some(link));
  }

  /** A member is read as it was appended, from a long-name entry if it has one. */
  lemma ItemOfAppended(m: Appended, more: seq<Byte>)
    requires Readable(m)
    ensures var item := Item(m.header, if m.long.Some? then Some(m.path + [0]) else None, None, |m.data|, m.data);
            && ItemNext(Some(AppendedBytes(m) + more), None, None) == Some(Ok((item, Some(more))))
            && item.Path() == m.path
  {
    hide CksumOk, EntrySize, Member, RawNext, HeaderPath;
    var tail := Member(m.header, m.data) + more;
    RawOfMember(m.header, m.data, more);
    if m.long.Some? {
      assert AppendedBytes(m) + more == Member(m.long.value, m.path + [0]) + tail;
      RawOfMember(m.long.value, m.path + [0], tail);
      assert (m.path + [0])[..|m.path|] == m.path;
    } else {
      assert AppendedBytes(m) + more == tail;
    }
  }

  lemma ArchiveEnds()
    ensures Archive([]) == Zeros(1024) && ItemNext(Some(Archive([])), None, None) == None
  {
    assert [] + Zeros(1024) == Zeros(1024);
    var z: Header := Zeros(1024)[..BLOCK];
    assert AllZero(z);
  }

  lemma ArchiveStep(ms: seq<Appended>)
    requires ms != []
    ensures Archive(ms) == AppendedBytes(ms[0]) + Archive(ms[1..])
  {
    hide AppendedBytes;
  }

  // ----- from `append_data` to a readable member -----

  /** An entry to be appended. */
  datatype Entry = Entry(header: Header, path: seq<Byte>, data: seq<Byte>)

  /** The entry's header says the right size, has a type that is read as it is and a checksum field that ends in NUL or
      white space, and no old prefix would join a short path. */
  ghost predicate Ready(e: Entry) {
    && EntrySize(e.header) == Ok(|e.data|) && PlainType(e.header)
    && (e.header[CKSUM_END - 1] == 0 || IsWhite([e.header[CKSUM_END - 1]]))
    && !(IsUstar(e.header) && |e.path| <= NAME_END && e.header[PREFIX] != 0 && PathFits(e.header, e.path))
  }

  ghost predicate NormalPath(p: seq<Byte>) {
    exists names :: Normalized(p, names)
  }

  /** A path that goes into the header is a normal one, which is stored as it is. */
  ghost predicate StoredAsIs(e: Entry) {
    PathFits(e.header, e.path) ==> NormalPath(e.path)
  }

  lemma KeptFields(h: Header, g: Header)
    requires Kept(h, g)
    ensures EntrySize(g) == EntrySize(h) && EntryType(g) == EntryType(h) && g[CKSUM_END - 1] == h[CKSUM_END - 1]
    ensures IsUstar(g) == IsUstar(h)
  {
    hide NumFieldFrom;
    var lo := CKSUM_END - 1;
    SliceOfSlice(g, NAME_END, CKSUM, SIZE, SIZE + 12);
    SliceOfSlice(h, NAME_END, CKSUM, SIZE, SIZE + 12);
    SliceOfSlice(g, lo, PREFIX, MAGIC, MAGIC + 8);
    SliceOfSlice(h, lo, PREFIX, MAGIC, MAGIC + 8);
    KeptBetween(h, g, lo, lo, PREFIX);
  }

  /** A normal path that fits is what the header's path reads as, after the checksum is set too, but for a short path in
      a ustar header whose old prefix stays. */
  lemma PathReadsBackIff(h: Header, path: seq<Byte>, names: seq<Name>)
    requires Normalized(path, names) && PathFits(h, path)
    requires IsUstar(WithCksum(WithPath(h, path))) == IsUstar(h)
    ensures HeaderPath(WithCksum(WithPath(h, path))) == path <==> !(IsUstar(h) && |path| <= NAME_END && h[PREFIX] != 0)
  {
    hide PathText, Written, Truncate, FittingParent, OctalDigits, HeaderSum, WithCksum, Normalized;
    var m := WithPath(h, path);
    var g := WithCksum(m);
    CksumKeeps(m);
    NameAndPrefix(m, g);
    NormalText(path, names, false);
    if IsUstar(h) && |path| > NAME_END {
      GreedySplitIff(path, names);
      SplitPathRoundTrip(h, path, names);
    } else if IsUstar(h) {
      ShortPathRoundTripIff(h, path, names);
    } else {
      FieldReadsBack(h, 0, NAME_END, path);
      assert m[0..NAME_END] == m[..NAME_END];
    }
  }

  lemma NameAndPrefix(m: Header, g: Header)
    requires g[..CKSUM] == m[..CKSUM] && g[CKSUM_END..] == m[CKSUM_END..]
    ensures g[..NAME_END] == m[..NAME_END] && PathBytes(g) == PathBytes(m)
  {
    hide Truncate;
    assert g[..CKSUM][..NAME_END] == g[..NAME_END] && m[..CKSUM][..NAME_END] == m[..NAME_END];
    assert g[CKSUM_END..][PREFIX - CKSUM_END..PREFIX_END - CKSUM_END] == g[PREFIX..PREFIX_END];
    assert m[CKSUM_END..][PREFIX - CKSUM_END..PREFIX_END - CKSUM_END] == m[PREFIX..PREFIX_END];
  }

  /** What `append_data` has written for an entry is readable exactly when the entry was ready. */
  lemma AppendedIsReadableIff(e: Entry, g: Header, long: Header)
    requires StoredAsIs(e) && Kept(e.header, g) && g == WithCksum(g)
    requires PathFits(e.header, e.path) ==> g == WithCksum(WithPath(e.header, e.path))
    requires !PathFits(e.header, e.path) ==> IsLongName(long, |e.path|)
    ensures Readable(Appended(e.path, g, e.data, if PathFits(e.header, e.path) then None else Some(long))) <==> Ready(e)
  {
    hide PathFits, WithPath, WithCksum, CksumOk, EntrySize, Normalized, HeaderPath, IsLongName, Kept, IsUstar;
    KeptFields(e.header, g);
    SetCksumAcceptedIff(g);
    if PathFits(e.header, e.path) {
      var names :| Normalized(e.path, names);
      PathReadsBackIff(e.header, e.path, names);
    }
  }

  // ----- whole archives -----

  /** A member that holds the entry: its path and data, and its header but for path and checksum. */
  ghost predicate Holds(m: Appended, e: Entry) {
    m.path == e.path && m.data == e.data && Kept(e.header, m.header)
  }

  lemma {:induction false} AllAppendedSnoc(ms: seq<Appended>, m: Appended)
    ensures AllAppended(ms + [m]) == AllAppended(ms) + AppendedBytes(m)
  {
    hide AppendedBytes;
    if ms == [] {
      assert ms + [m] == [m] && [m][1..] == [];
      assert AllAppended([m]) == AppendedBytes(m) + AllAppended([]);
    } else {
      assert (ms + [m])[1..] == ms[1..] + [m];
      AllAppendedSnoc(ms[1..], m);
    }
  }

  /** The path has a place in the entry's header, or in a long-name entry. */
  predicate Writable(e: Entry) {
    PathFits(e.header, e.path) || GoesLong(e.header, e.path)
  }

  /** Appending one entry. */
  method WriteEntry(builder: Builder, e: Entry, ghost ms: seq<Appended>) returns (written: bool, ghost m: Appended)
    requires StoredAsIs(e) && |e.path| + 1 < U64 && builder.obj == AllAppended(ms)
    modifies builder`obj
    ensures written <==> Writable(e)
    ensures written ==> Holds(m, e) && (Readable(m) <==> Ready(e)) && builder.obj == AllAppended(ms + [m])
  {
    hide PathFits, GoesLong, WithPath, WithCksum, CksumOk, EntrySize, IsLongName, Kept, Ready, Readable, Member,
        StoredAsIs, AllAppended;
    var header := new Byte[HEADER_SIZE](k requires 0 <= k < HEADER_SIZE => e.header[k]);
    assert header[..] == e.header;
    m := Appended(e.path, e.header, e.data, None);
    var appended, long := builder.AppendData(header, e.path, e.data);
    if appended.Err? {
      return false, m;
    }
    ghost var g: Header := header[..];
    m := Appended(e.path, g, e.data, if PathFits(e.header, e.path) then None else Some(long));
    AppendedIsReadableIff(e, g, long);
    AllAppendedSnoc(ms, m);
    AppendedParts(m, AllAppended(ms));
    written := true;
  }

  /** Appending entries with `append_data`, then `finish`: this succeeds exactly if every path has a place, and then the
      archive holds the entries, each readable exactly when it was ready. */
  method WriteArchive(entries: seq<Entry>) returns (r: Result<seq<Byte>>, ghost ms: seq<Appended>)
    requires forall i :: 0 <= i < |entries| ==> StoredAsIs(entries[i]) && |entries[i].path| + 1 < U64
    ensures r.Ok? <==> forall i :: 0 <= i < |entries| ==> Writable(entries[i])
    ensures r.Ok? ==>
              && |ms| == |entries|
              && forall i :: 0 <= i < |entries| ==>
                   Holds(ms[i], entries[i]) && (Readable(ms[i]) <==> Ready(entries[i]))
    ensures r.Ok? ==> r.value == Archive(ms)
  {
    hide Writable, Ready, StoredAsIs, Holds, Readable, AllAppended;
    var builder := new Builder();
    ms := [];
    NothingAppended();
    for i := 0 to |entries|
      invariant fresh(builder) && !builder.finished
      invariant |ms| == i && builder.obj == AllAppended(ms)
      invariant forall k :: 0 <= k < i ==>
                  Writable(entries[k]) && Holds(ms[k], entries[k]) && (Readable(ms[k]) <==> Ready(entries[k]))
    {
      var written, m := WriteEntry(builder, entries[i], ms);
      if !written {
        return Err(Other), ms;
      }
      ms := ms + [m];
    }
    builder.Finish();
    r := Ok(builder.obj);
  }

  lemma NothingAppended()
    ensures AllAppended([]) == []
  {
  }

  lemma AppendedParts(m: Appended, before: seq<Byte>)
    ensures m.long.None? ==> before + Member(m.header, m.data) == before + AppendedBytes(m)
    ensures m.long.Some? ==>
              before + Member(m.long.value, m.path + [0]) + Member(m.header, m.data) == before + AppendedBytes(m)
  {
    hide Member;
  }

  /** Reading an archive to its end, taking the first `wanted(i)` bytes of member `i`'s data, in whatever pieces they
      come: exactly the members are found, in order, each with its path, its header and the start of its data. */
  method ReadArchive(bytes: seq<Byte>, wanted: nat -> nat, ghost ms: seq<Appended>)
    returns (r: seq<(Item, seq<Byte>)>)
    requires bytes == Archive(ms) && forall i :: 0 <= i < |ms| ==> Readable(ms[i])
    ensures |r| == |ms|
    ensures forall i :: 0 <= i < |ms| ==>
              && r[i].0.header == ms[i].header && r[i].0.Path() == ms[i].path
              && r[i].1 == if wanted(i) < |ms[i].data| then ms[i].data[..wanted(i)] else ms[i].data
  {
    hide Archive, AppendedBytes, ItemNext, HeaderPath, Readable;
    var entries := new Entries(bytes);
    r := [];
    assert bytes[0..] == bytes && ms[0..] == ms;
    while true
      invariant fresh(entries) && entries.Valid() && entries.gnuLongname == None && entries.gnuLonglink == None
      invariant |r| <= |ms| && entries.Ahead() == Some(Archive(ms[|r|..]))
      invariant forall k :: 0 <= k < |r| ==>
                  && r[k].0.header == ms[k].header && r[k].0.Path() == ms[k].path
                  && r[k].1 == if wanted(k) < |ms[k].data| then ms[k].data[..wanted(k)] else ms[k].data
      decreases |ms| - |r|
    {
      assert ms[|r|..] != [] ==> ms[|r|..][0] == ms[|r|] && ms[|r|..][1..] == ms[|r| + 1..];
      var member := ReadMember(entries, wanted(|r|), ms[|r|..]);
      if member.None? {
        break;
      }
      r := r + [member.value];
    }
  }

  /** One round: the next member, if there is one, and the start of its data. */
  method ReadMember(entries: Entries, wanted: nat, ghost ms: seq<Appended>) returns (r: Option<(Item, seq<Byte>)>)
    requires entries.Valid() && entries.gnuLongname == None && entries.gnuLonglink == None
    requires entries.Ahead() == Some(Archive(ms)) && (ms != [] ==> Readable(ms[0]))
    modifies entries
    ensures r.None? <==> ms == []
    ensures ms != [] ==>
              && entries.Valid() && entries.gnuLongname == None && entries.gnuLonglink == None
              && entries.Ahead() == Some(Archive(ms[1..]))
              && r.value.0.header == ms[0].header && r.value.0.Path() == ms[0].path
              && r.value.1 == if wanted < |ms[0].data| then ms[0].data[..wanted] else ms[0].data
  {
    hide Archive, AppendedBytes, ItemNext, HeaderPath, Readable;
    if ms == [] {
      ArchiveEnds();
    } else {
      ArchiveStep(ms);
      ItemOfAppended(ms[0], Archive(ms[1..]));
    }
    var next := entries.Next();
    if next.None? {
      return None;
    }
    var item := next.value.value;
    FirstBytes(entries.src, entries.pos, |ms[0].data|, ms[0].data);
    var data := TakeData(entries, wanted, ms[0].data);
    r := Some((item, data));
  }

  lemma FirstBytes(s: seq<Byte>, pos: nat, size: nat, data: seq<Byte>)
    requires pos <= |s| && |data| == size && data == s[pos..][..if |s| - pos < size then |s| - pos else size]
    ensures pos + size <= |s| && s[pos..pos + size] == data
  {
  }

  /** The caller reads `wanted` bytes of the current member, or all if there are fewer. */
  method TakeData(entries: Entries, wanted: nat, ghost data: seq<Byte>) returns (b: seq<Byte>)
    requires entries.Valid() && entries.remaining == |data|
    requires entries.pos + |data| <= |entries.src| && entries.src[entries.pos..entries.pos + |data|] == data
    modifies entries`pos, entries`remaining
    ensures entries.Valid()
    ensures b == if wanted < |data| then data[..wanted] else data
  {
    b := [];
    ghost var start := entries.pos;
    while |b| < wanted
      invariant entries.Valid() && entries.pos == start + |b| && entries.remaining == |data| - |b|
      invariant |b| <= wanted && |b| <= |data|
      invariant b == data[..|b|]
      decreases wanted - |b|
    {
      var more := entries.Read(wanted - |b|);
      if more == [] {
        break;
      }
      SliceOfSlice(entries.src, start, start + |data|, start + |b|, start + |b| + |more|);
      b := b + more;
    }
  }
}
