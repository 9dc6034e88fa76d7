/** Buckets: `TarConcater` rewrites the archives of packages one after another into one file, and records where in it
    each entry's data is. */
module Bucket {
  import opened Wrappers
  import opened Bytes
  import opened Utf8
  import opened Nodes
  import opened TarFields
  import opened TarPaths
  import opened Ustar
  import opened TarHeader
  import opened TarWriter
  import opened TarReader
  import opened TarRoundTrip
  import opened Toc

  // ----- renamed headers -----

  function Texts(cs: seq<Component>): (ts: seq<Name>)
    ensures |ts| == |cs|
  {
    seq(|cs|, i requires 0 <= i < |cs| => Text(cs[i]))
  }

  /** The path with its first component replaced by `prefix`. */
  function Renamed(path: seq<Byte>, prefix: seq<Byte>): seq<Byte> {
    var cs := Components(path);
    var rest := if cs == [] then [] else Join(Texts(cs[1..]));
    prefix + (if prefix != [] && !EndsWithSlash(prefix) then [SLASH] else []) + rest
  }

  /** The prefix, a slash unless the prefix is empty or ends in one, and all components but the first. */
  lemma RenamedIs(path: seq<Byte>, prefix: seq<Byte>)
    requires Components(path) != []
    ensures var rest := Join(Texts(Components(path)[1..]));
            Renamed(path, prefix) == if prefix == [] || prefix[|prefix| - 1] == 47 then prefix + rest
                                     else prefix + [47] + rest
  {
    hide Components, Join;
    assert prefix + [] == prefix;
  }

  predicate Renamable(h: Header, prefix: seq<Byte>) {
    PathFits(h, Renamed(HeaderPath(h), prefix))
  }

  function NewHeader(h: Header, prefix: seq<Byte>): Header
    requires Renamable(h, prefix)
  {
    WithCksum(WithPath(h, Renamed(HeaderPath(h), prefix)))
  }

  /** `new_tar_header`; there is no long-name entry for a path that does not fit. */
  method NewTarHeader(header: Header, prefix: seq<Byte>) returns (r: Result<Header>)
    ensures r.Ok? <==> Renamable(header, prefix)
    ensures r.Ok? ==> r.value == NewHeader(header, prefix)
  {
    hide PathFits, WithPath, WithCksum, HeaderPath, Renamed;
    var h := new Byte[HEADER_SIZE](k requires 0 <= k < HEADER_SIZE => header[k]);
    assert h[..] == header;
    var placed := SetHeaderPath(h, Renamed(HeaderPath(header), prefix));
    if placed.Err? {
      return Err(Other);
    }
    SetCksum(h);
    r := Ok(h[..]);
  }

  /** The new header differs from the old one in path and checksum only. */
  lemma RenamedKept(h: Header, prefix: seq<Byte>)
    requires Renamable(h, prefix)
    ensures Kept(h, NewHeader(h, prefix))
  {
    hide WithCksum, HeaderPath, Renamed, PathText, Written, TooMuch, FittingParent, Kept;
    var path := Renamed(HeaderPath(h), prefix);
    var m := WithPath(h, path);
    WithPathKeeps(h, path);
    CksumKept(h, m);
  }

  lemma WithPathKeeps(h: Header, path: seq<Byte>)
    requires PathFits(h, path)
    ensures var m := WithPath(h, path); m[NAME_END..PREFIX] == h[NAME_END..PREFIX] && m[PREFIX_END..] == h[PREFIX_END..]
  {
    hide PathText, Written, FittingParent;
    if IsUstar(h) && |path| > NAME_END {
      var p, n := PathText(FittingParent(path).value, false).value,
          PathText(path[|FittingParent(path).value| + 1..], false).value;
      WrittenKeeps(h, PREFIX, PREFIX_END, p);
      WrittenKeeps(Written(h, PREFIX, PREFIX_END, p), 0, NAME_END, n);
    } else {
      WrittenKeeps(h, 0, NAME_END, PathText(path, false).value);
    }
  }

  lemma WrittenKeeps(h: Header, lo: nat, hi: nat, x: seq<Byte>)
    requires lo + |x| <= hi && ((lo == 0 && hi == NAME_END) || (lo == PREFIX && hi == PREFIX_END))
    ensures var m := Written(h, lo, hi, x);
            m[NAME_END..PREFIX] == h[NAME_END..PREFIX] && m[PREFIX_END..] == h[PREFIX_END..]
  {
  }

  // ----- what is recorded of a header -----

  const MODE := 100
  const MODE_END := 108
  const LINK := 157
  const LINK_END := 257
  const UNAME := 265
  const GNAME := 297
  const GNAME_END := 329

  /** The type of an entry that gets a record. */
  function TypeOf(linkflag: Byte): Option<TocType> {
    match linkflag
    case 0 => Some(TocReg)
    case 48 => Some(TocReg)
    case 49 => Some(TocHardlink)
    case 50 => Some(TocSymlink)
    case 51 => Some(TocOther)
    case 52 => Some(TocOther)
    case 53 => Some(TocDir)
    case 54 => Some(TocOther)
    case _ => None
  }

  predicate Recorded(h: Header) {
    TypeOf(EntryType(h)).Some?
  }

  /** The fields that are unwrapped for a record can be read. */
  predicate Describable(h: Header) {
    Recorded(h) ==>
      && OctalFrom(h[MODE..MODE_END]).Ok?
      && (Recognized(h) ==> ValidUtf8(Truncate(h[UNAME..GNAME])) && ValidUtf8(Truncate(h[GNAME..GNAME_END])))
  }

  /** `link_name_bytes`. */
  function LinkBytes(h: Header): seq<Byte> {
    if h[LINK] == 0 then [] else Truncate(h[LINK..LINK_END])
  }

  /** A name as a table of contents has it. */
  function AsRawName(p: seq<Byte>): RawName {
    var cs := Components(p);
    var absolute := cs != [] && cs[0].RootDir?;
    RawName(absolute, Texts(if cs != [] && (cs[0].RootDir? || cs[0].CurDir?) then cs[1..] else cs))
  }

  /** The record of an entry whose data is at `offset`; the digest of its JSON text is left zero. */
  function RecordOf(h: Header, offset: nat): TocEntry
    requires Recorded(h) && Describable(h) && EntrySize(h).Ok?
  {
    TocEntry(AsRawName(HeaderPath(h)), TypeOf(EntryType(h)).value, EntrySize(h).value, AsRawName(LinkBytes(h)),
             LinkBytes(h), 0, 0, OctalFrom(h[MODE..MODE_END]).value, 0, offset, [], 0, 0, Zeros(DIGEST_SIZE))
  }

  /** What a record says of the header `h` it was made for: the type from byte 156, the link, the mode and the size from
      their fields, and no owner. */
  ghost predicate Tells(e: TocEntry, h: Header) {
    && (e.tocType.TocReg? <==> h[156] == 0 || h[156] == 48) && (e.tocType.TocHardlink? <==> h[156] == 49)
    && (e.tocType.TocSymlink? <==> h[156] == 50) && (e.tocType.TocDir? <==> h[156] == 53)
    && (e.tocType.TocOther? <==> h[156] in {51, 52, 54}) && !e.tocType.TocChunk?
    && e.linkBytes == Truncate(h[157..257]) && e.linkName == AsRawName(Truncate(h[157..257]))
    && OctalFrom(h[100..108]) == Ok(e.mode) && NumFieldFrom(h[124..136]) == Ok(e.size)
    && e.uid == 0 && e.gid == 0 && e.numLink == 0 && e.xattrs == [] && e.chunkOffset == 0 && e.chunkSize == 0
  }

  lemma LinkIsField(h: Header)
    ensures LinkBytes(h) == Truncate(h[157..257])
  {
    hide Truncate;
    TruncateFirst(h[157..257]);
  }

  lemma TruncateFirst(b: seq<Byte>)
    requires b != []
    ensures b[0] == 0 ==> Truncate(b) == []
  {
  }

  lemma RecordTells(h: Header, offset: nat)
    requires Recorded(h) && Describable(h) && EntrySize(h).Ok?
    ensures Tells(RecordOf(h, offset), h)
  {
    hide AsRawName, HeaderPath, LinkBytes, OctalFrom, NumFieldFrom, Truncate, Recognized;
    LinkIsField(h);
  }

  /** The same, of a header that agrees in those fields. */
  lemma TellsKept(e: TocEntry, h: Header, g: Header)
    requires Tells(e, g) && Kept(h, g)
    ensures Tells(e, h)
  {
    hide AsRawName, OctalFrom, NumFieldFrom, Truncate;
    assert g[156] == g[155..345][1] && h[156] == h[155..345][1];
    SliceOfSlice(g, 155, 345, 157, 257);
    SliceOfSlice(h, 155, 345, 157, 257);
    SliceOfSlice(g, 100, 148, 100, 108);
    SliceOfSlice(h, 100, 148, 100, 108);
    SliceOfSlice(g, 100, 148, 124, 136);
    SliceOfSlice(h, 100, 148, 124, 136);
  }

  /** Which headers get a record, and what has to be readable for it: the mode, and in a GNU or ustar header the names
      of owner and group. */
  lemma RecordedIff(h: Header)
    ensures Recorded(h) <==> h[156] == 0 || 48 <= h[156] <= 54
    ensures Describable(h) <==>
            (h[156] == 0 || 48 <= h[156] <= 54 ==>
               && OctalFrom(h[100..108]).Ok?
               && (IsGnu(h) || IsUstar(h) ==> ValidUtf8(Truncate(h[265..297])) && ValidUtf8(Truncate(h[297..329]))))
  {
    hide OctalFrom, Truncate, ValidUtf8, IsGnu, IsUstar;
  }

  // ----- whole archives -----

  lemma ItemGoesOn(s: Option<seq<Byte>>, longPath: Option<seq<Byte>>, longLink: Option<seq<Byte>>)
    ensures match ItemNext(s, longPath, longLink)
            case Some(Ok((item, rest))) => s.Some? && Sound(item)
                && (rest.Some? ==> |rest.value| < |s.value| && Complete(item))
            case Some(Err(e)) => e == Other
            case None => true
    decreases if s.Some? then |s.value| else 0
  {
    hide CksumOk, EntrySize, Recognized;
    if s.Some? {
      RawGoesOn(s.value);
      match RawNext(s.value) {
        case Some(Ok(raw)) =>
          RawWhole(s.value);
          if raw.rest.Some? {
            ItemGoesOn(raw.rest, Some(raw.data), longLink);
            ItemGoesOn(raw.rest, longPath, Some(raw.data));
          }
        case _ =>
      }
    }
  }

  /** A member whose header the reader accepts. */
  predicate Sound(item: Item) {
    EntrySize(item.header) == Ok(item.size) && CksumOk(item.header)
  }

  /** A member with all the data that its header announces. */
  predicate Complete(item: Item) {
    Sound(item) && |item.data| == item.size
  }

  lemma RawWhole(s: seq<Byte>)
    ensures match RawNext(s)
            case Some(Ok(raw)) =>
              && EntrySize(raw.header) == Ok(raw.size) && CksumOk(raw.header)
              && (raw.rest.Some? ==> |raw.data| == raw.size)
            case _ => true
  {
    hide CksumOk, EntrySize;
  }

  /** All members that `Entries` returns from where the archive continues, or its first error. */
  function Items(s: Option<seq<Byte>>): Result<seq<Item>>
    decreases if s.Some? then |s.value| + 1 else 0
  {
    ItemGoesOn(s, None, None);
    match ItemNext(s, None, None)
    case None => Ok([])
    case Some(Err(e)) => Err(e)
    case Some(Ok((item, rest))) =>
      var more :- Items(rest);
      Ok([item] + more)
  }

  lemma ItemsStep(s: Option<seq<Byte>>)
    ensures match ItemNext(s, None, None)
            case None => Items(s) == Ok([])
            case Some(Err(_)) => Items(s).Err?
            case Some(Ok((item, rest))) =>
              && (rest.Some? ==> s.Some? && |rest.value| < |s.value| && Complete(item))
              && (rest.None? ==> Items(s).Err?)
              && (Items(s).Ok? ==> Items(rest).Ok? && Items(s).value == [item] + Items(rest).value)
  {
    hide Complete, RawNext;
    ItemGoesOn(s, None, None);
    match ItemNext(s, None, None) {
      case Some(Ok((_, rest))) => if rest.None? { assert ItemNext(rest, None, None) == Some(Err(Other)); }
      case _ =>
    }
  }

  /** An archive is read to its end only if no member's data is cut short. */
  lemma {:induction false} ItemsComplete(s: Option<seq<Byte>>)
    ensures Items(s).Ok? ==> forall i :: 0 <= i < |Items(s).value| ==> Complete(Items(s).value[i])
    decreases if s.Some? then |s.value| + 1 else 0
  {
    hide Complete, ItemNext, Items;
    ItemsStep(s);
    match ItemNext(s, None, None) {
      case Some(Ok((_, rest))) => if rest.Some? { ItemsComplete(rest); }
      case _ =>
    }
  }

  // ----- concatenation -----

  /** An item that `append` gets past. */
  predicate Accepted(item: Item, prefix: seq<Byte>) {
    Renamable(item.header, prefix) && Describable(NewHeader(item.header, prefix))
  }

  ghost predicate AllAccepted(items: seq<Item>, prefix: seq<Byte>) {
    forall i :: 0 <= i < |items| ==> Sound(items[i]) && Accepted(items[i], prefix)
  }

  /** What is written for `items`: each with its new header. */
  ghost function Rewritten(items: seq<Item>, prefix: seq<Byte>): seq<Byte>
    requires AllAccepted(items, prefix)
  {
    if items == [] then []
    else
      var item := items[|items| - 1];
      Rewritten(items[..|items| - 1], prefix) + Member(NewHeader(item.header, prefix), item.data)
  }

  /** The records of `items` written from position `start`. */
  ghost function Records(items: seq<Item>, prefix: seq<Byte>, start: nat): seq<TocEntry>
    requires AllAccepted(items, prefix)
  {
    if items == [] then []
    else
      var front, h := items[..|items| - 1], NewHeader(items[|items| - 1].header, prefix);
      NewSize(items[|items| - 1], prefix);
      Records(front, prefix, start)
      + if Recorded(h) then [RecordOf(h, start + |Rewritten(front, prefix)| + BLOCK)] else []
  }

  lemma NewSize(item: Item, prefix: seq<Byte>)
    requires Sound(item) && Renamable(item.header, prefix)
    ensures EntrySize(NewHeader(item.header, prefix)) == Ok(item.size)
    ensures EntryType(NewHeader(item.header, prefix)) == EntryType(item.header)
  {
    hide NewHeader, Renamable, EntrySize, Kept;
    RenamedKept(item.header, prefix);
    KeptFields(item.header, NewHeader(item.header, prefix));
  }

  /** The archive can be added: it is read to its end, every renamed path fits its header, and every record can be
      made. */
  ghost predicate Concatenable(archive: seq<Byte>, prefix: seq<Byte>) {
    Items(Some(archive)).Ok? && forall i :: 0 <= i < |Items(Some(archive)).value| ==>
        Accepted(Items(Some(archive)).value[i], prefix)
  }

  ghost function After(done: seq<Item>, rest: Result<seq<Item>>): Result<seq<Item>> {
    match rest
    case Ok(more) => Ok(done + more)
    case Err(e) => Err(e)
  }

  /** A successful add: the members of its archive, where the bucket ended before it, and what was recorded. */
  datatype Add = Add(prefix: seq<Byte>, items: seq<Item>, start: nat, index: seq<TocEntry>)

  /** The bytes and the records are those of the add, whose members are whole. */
  ghost predicate Wrote(a: Add, bytes: seq<Byte>) {
    && AllAccepted(a.items, a.prefix) && (forall i :: 0 <= i < |a.items| ==> Complete(a.items[i]))
    && bytes == Rewritten(a.items, a.prefix) && a.index == Records(a.items, a.prefix, a.start)
  }

  /** After its first `base` bytes the bucket holds what the adds wrote, one after another, with their records. */
  ghost predicate Accounts(file: seq<Byte>, base: nat, adds: seq<Add>)
    decreases |adds|
  {
    if adds == [] then |file| == base
    else
      var a := adds[|adds| - 1];
      a.start <= |file| && Wrote(a, file[a.start..]) && Accounts(file[..a.start], base, adds[..|adds| - 1])
  }

  class NpmBucketStore {
    var file: seq<Byte>
    var position: nat
    ghost var base: nat
    ghost var adds: seq<Add>

    constructor (bytes: seq<Byte>)
      ensures file == bytes && position == base == |bytes| && adds == []
      ensures Accounts(file, base, adds)
    {
      file, position, base, adds := bytes, |bytes|, |bytes|, [];
    }

    /** `io::copy` of the current member: all there is of its data, in pieces. */
    method Copy(f: Entries) returns (len: nat, ghost data: seq<Byte>)
      requires f.Valid()
      modifies this`file, f`pos, f`remaining
      ensures f.Valid() && file == old(file) + data && len == |data|
      ensures data == f.src[old(f.pos)..]
                [..if |f.src| - old(f.pos) < old(f.remaining) then |f.src| - old(f.pos) else old(f.remaining)]
    {
      len, data := 0, [];
      while true
        invariant len == |data| && f.Valid() && f.pos == old(f.pos) + |data| && f.remaining == old(f.remaining) - |data|
        invariant data == f.src[old(f.pos)..f.pos] && file == old(file) + data
        decreases f.remaining
      {
        var piece := f.Read(8192);
        if piece == [] {
          break;
        }
        file := file + piece;
        len := len + |piece|;
        data := data + piece;
      }
      assert data == f.src[old(f.pos)..][..|data|];
    }

    /** One round of `append`: the new header, the data, zeros up to the next block, and a record. */
    method AppendEntry(f: Entries, item: Item, prefix: seq<Byte>, start: nat,
        origin: nat) returns (r: Result<Option<TocEntry>>, ghost data: seq<Byte>)
      requires f.Valid() && origin <= |file| && EntrySize(item.header).Ok?
      modifies this`file, f`pos, f`remaining
      ensures f.Valid() && |file| >= |old(file)|
      ensures data == f.src[old(f.pos)..]
                [..if |f.src| - old(f.pos) < old(f.remaining) then |f.src| - old(f.pos) else old(f.remaining)]
      ensures r.Ok? <==> Accepted(item, prefix)
      ensures r.Ok? ==>
                var h := NewHeader(item.header, prefix);
                && file == old(file) + Member(h, data) && EntrySize(h).Ok?
                && r.value == if Recorded(h) then Some(RecordOf(h, start + (|old(file)| - origin) + BLOCK)) else None
      ensures r.Ok? ==>
                && (r.value.Some? <==> item.header[156] == 0 || 48 <= item.header[156] <= 54)
                && (r.value.Some? ==> Tells(r.value.value, item.header))
    {
      hide Tells, Kept, Renamable, NewHeader, EntrySize, OctalFrom, HeaderPath, AsRawName, LinkBytes, Recognized,
          TypeOf;
      data := f.src[f.pos..][..if |f.src| - f.pos < f.remaining then |f.src| - f.pos else f.remaining];
      var header := NewTarHeader(item.header, prefix);
      if header.Err? {
        return Err(Other), data;
      }
      file := file + header.value;
      var offset := start + (|file| - origin);
      var len;
      len, data := Copy(f);
      var remaining := BLOCK - len % BLOCK;
      if remaining < BLOCK {
        file := file + Zeros(remaining);
      }
      assert file == old(file) + Member(header.value, data);
      SizeKept(item.header, prefix);
      if !Describable(header.value) {
        return Err(Other), data;
      }
      r := Ok(if Recorded(header.value) then Some(RecordOf(header.value, offset)) else None);
      RecordedIff(header.value);
      RenamedKept(item.header, prefix);
      KeptFields(item.header, header.value);
      if r.value.Some? {
        RecordTells(header.value, offset);
        TellsKept(r.value.value, item.header, header.value);
      }
    }

    /** `append`: Ok exactly for an archive that is read to its end, all of whose new headers can be made. */
    method Append(start: nat, prefix: seq<Byte>, archive: seq<Byte>) returns (r: Result<seq<TocEntry>>,
        ghost items: seq<Item>)
      modifies this`file
      ensures r.Ok? <==> Concatenable(archive, prefix)
      ensures r.Ok? ==> Items(Some(archive)) == Ok(items) && AllAccepted(items, prefix)
      ensures r.Ok? ==> file == old(file) + Rewritten(items, prefix) && r.value == Records(items, prefix, start)
    {
      hide Rewritten, Records, ItemNext, Accepted, Sound, Complete, AllAccepted, Concatenable, Items, After, Member,
          RecordOf, NewHeader, EntrySize, Recorded, Tells;
      var origin := |file|;
      var entries := new Entries(archive);
      var index: seq<TocEntry> := [];
      items := [];
      assert archive[0..] == archive;
      NothingYet(prefix, start, Items(Some(archive)));
      assert file == old(file) + [];
      while true
        invariant fresh(entries) && entries.Valid() && entries.gnuLongname == None && entries.gnuLonglink == None
        invariant AllAccepted(items, prefix)
        invariant file == old(file) + Rewritten(items, prefix) && index == Records(items, prefix, start)
        invariant Items(Some(archive)) == After(items, Items(entries.Ahead()))
        decreases if entries.Ahead().Some? then |entries.Ahead().value| + 1 else 0
      {
        ghost var ahead := entries.Ahead();
        ItemGoesOn(ahead, None, None);
        Step(archive, prefix, items, ahead);
        var next := entries.Next();
        if next.None? {
          return Ok(index), items;
        }
        if next.value.Err? {
          return Err(Other), items;
        }
        ghost var item := ItemNext(ahead, None, None).value.value.0;
        SameHeader(item, next.value.value, prefix);
        var entry, data := AppendEntry(entries, next.value.value, prefix, start, origin);
        if entry.Err? {
          return Err(Other), items;
        }
        Grows(items, item, prefix, start, old(file));
        if entry.value.Some? {
          index := index + [entry.value.value];
        }
        items := items + [item];
      }
    }

    /** The success path of `do_add_package`; what a failed add leaves behind is not stated. */
    method AddPackage(prefix: seq<Byte>, archive: seq<Byte>) returns (r: Result<(nat, seq<TocEntry>)>)
      requires position == |file| && Accounts(file, base, adds)
      modifies this
      ensures r.Ok? <==> Concatenable(archive, prefix)
      ensures base == old(base)
      ensures r.Ok? ==>
                && position == |file| == old(position) + r.value.0 && old(file) <= file
                && Items(Some(archive)).Ok?
                && adds == old(adds) + [Add(prefix, Items(Some(archive)).value, old(position), r.value.1)]
                && Accounts(file, base, adds)
    {
      hide Rewritten, Records, Items, Concatenable, AllAccepted, Complete, Accounts;
      var before := |file|;
      var index, items := Append(position, prefix, archive);
      if index.Err? {
        return Err(Other);
      }
      var written := |file| - before;
      ItemsComplete(Some(archive));
      ghost var a := Add(prefix, items, position, index.value);
      Accounted(old(file), base, adds, a, file);
      adds := adds + [a];
      position := position + written;
      r := Ok((written, index.value));
    }
  }

  lemma SizeKept(h: Header, prefix: seq<Byte>)
    requires Renamable(h, prefix)
    ensures EntrySize(NewHeader(h, prefix)) == EntrySize(h)
  {
    hide NewHeader, Renamable, EntrySize, Kept;
    RenamedKept(h, prefix);
    KeptFields(h, NewHeader(h, prefix));
  }

  lemma NothingYet(prefix: seq<Byte>, start: nat, all: Result<seq<Item>>)
    ensures AllAccepted([], prefix) && Rewritten([], prefix) == [] && Records([], prefix, start) == []
    ensures After([], all) == all
  {
    match all {
      case Ok(more) => assert [] + more == more;
      case Err(_) =>
    }
  }

  /** What the next member means for the whole archive. */
  lemma Step(archive: seq<Byte>, prefix: seq<Byte>, items: seq<Item>, ahead: Option<seq<Byte>>)
    requires AllAccepted(items, prefix) && Items(Some(archive)) == After(items, Items(ahead))
    ensures match ItemNext(ahead, None, None)
            case None => Items(Some(archive)) == Ok(items) && Concatenable(archive, prefix)
            case Some(Err(_)) => !Concatenable(archive, prefix)
            case Some(Ok((item, rest))) =>
              && Items(Some(archive)) == After(items + [item], Items(rest))
              && (!Accepted(item, prefix) ==> !Concatenable(archive, prefix))
  {
    hide ItemNext, Accepted, Sound;
    match ItemNext(ahead, None, None) {
      case None => assert items + [] == items;
      case Some(Err(_)) =>
      case Some(Ok((item, rest))) =>
        if Items(rest).Ok? {
          assert items + ([item] + Items(rest).value) == (items + [item]) + Items(rest).value;
          assert Items(Some(archive)).value[|items|] == item;
        }
    }
  }

  lemma SameHeader(item: Item, read: Item, prefix: seq<Byte>)
    requires Sound(item) && read.header == item.header
    ensures EntrySize(read.header).Ok? && (Accepted(read, prefix) <==> Accepted(item, prefix))
  {
    hide CksumOk, EntrySize, Renamable, Describable;
  }

  lemma Grows(items: seq<Item>, item: Item, prefix: seq<Byte>, start: nat, before: seq<Byte>)
    requires AllAccepted(items, prefix) && Sound(item) && Accepted(item, prefix)
    ensures AllAccepted(items + [item], prefix) && EntrySize(NewHeader(item.header, prefix)).Ok?
    ensures before + Rewritten(items, prefix) + Member(NewHeader(item.header, prefix), item.data)
              == before + Rewritten(items + [item], prefix)
    ensures var h := NewHeader(item.header, prefix);
            Records(items + [item], prefix, start)
            == if Recorded(h) then Records(items, prefix, start)
                + [RecordOf(h, start + |Rewritten(items, prefix)| + BLOCK)]
               else Records(items, prefix, start)
  {
    hide NewHeader, Renamable, Describable, Sound, Member, RecordOf, Recorded, EntrySize;
    var all := items + [item];
    assert all[..|all| - 1] == items;
    NewSize(item, prefix);
  }

  lemma Accounted(file: seq<Byte>, base: nat, adds: seq<Add>, a: Add, after: seq<Byte>)
    requires Accounts(file, base, adds) && a.start == |file| && AllAccepted(a.items, a.prefix)
    requires forall i :: 0 <= i < |a.items| ==> Complete(a.items[i])
    requires after == file + Rewritten(a.items, a.prefix) && a.index == Records(a.items, a.prefix, a.start)
    ensures Accounts(after, base, adds + [a])
  {
    hide Rewritten, Records, Complete, AllAccepted;
    assert (adds + [a])[..|adds|] == adds;
    assert after[..a.start] == file && after[a.start..] == Rewritten(a.items, a.prefix);
  }

  // ----- what the records address -----

  /** Where the data of item `j` is in what is written for `items`. */
  ghost function DataAt(items: seq<Item>, prefix: seq<Byte>, j: nat): nat
    requires j < |items| && AllAccepted(items, prefix)
  {
    |Rewritten(items[..j], prefix)| + BLOCK
  }

  /** `e` is the record of item `j`. */
  ghost predicate IsRecord(e: TocEntry, items: seq<Item>, prefix: seq<Byte>, start: nat, j: nat)
    requires AllAccepted(items, prefix)
  {
    && j < |items| && Recorded(items[j].header)
    && e.offset == start + DataAt(items, prefix, j) && e.size == items[j].size
    && e.name == AsRawName(HeaderPath(NewHeader(items[j].header, prefix)))
    && Tells(e, items[j].header)
  }

  lemma {:induction false} MembersAreBlocks(items: seq<Item>, prefix: seq<Byte>)
    requires AllAccepted(items, prefix)
    ensures |Rewritten(items, prefix)| % BLOCK == 0
  {
    hide NewHeader, Renamable, Describable, Sound, Member, Blocks;
    if items != [] {
      MembersAreBlocks(items[..|items| - 1], prefix);
      MemberLength(NewHeader(items[|items| - 1].header, prefix), items[|items| - 1].data);
    }
  }

  lemma MemberLength(h: Header, data: seq<Byte>)
    ensures |Member(h, data)| == BLOCK + Blocks(|data|) && Blocks(|data|) >= |data| && Blocks(|data|) % BLOCK == 0
    ensures Member(h, data)[BLOCK..BLOCK + |data|] == data
  {
    PaddedBlocks(|data|);
    assert Member(h, data)[BLOCK..] == data + Padding(|data|);
  }

  /** Item `j`'s data is where its record will say. */
  lemma {:induction false} DataIsThere(items: seq<Item>, prefix: seq<Byte>, j: nat)
    requires AllAccepted(items, prefix) && j < |items|
    ensures var at, written := DataAt(items, prefix, j), Rewritten(items, prefix);
            && at + |items[j].data| <= |written| && written[at..at + |items[j].data|] == items[j].data
            && at >= BLOCK && at % BLOCK == 0
  {
    hide NewHeader, Renamable, Describable, Sound, Member;
    var n := |items| - 1;
    var front, item := items[..n], items[n];
    var m := Member(NewHeader(item.header, prefix), item.data);
    MemberLength(NewHeader(item.header, prefix), item.data);
    MembersAreBlocks(items[..j], prefix);
    var before := Rewritten(front, prefix);
    if j == n {
      assert (before + m)[|before| + BLOCK..|before| + BLOCK + |item.data|] == m[BLOCK..BLOCK + |item.data|];
    } else {
      DataIsThere(front, prefix, j);
      assert front[..j] == items[..j];
      var at := DataAt(items, prefix, j);
      assert (before + m)[at..at + |items[j].data|] == before[at..at + |items[j].data|];
    }
  }

  lemma RecordMade(items: seq<Item>, prefix: seq<Byte>, start: nat, j: nat)
    requires j < |items| && AllAccepted(items, prefix) && Recorded(items[j].header)
    ensures var h := NewHeader(items[j].header, prefix);
            && Recorded(h) && Describable(h) && EntrySize(h) == Ok(items[j].size)
            && IsRecord(RecordOf(h, start + DataAt(items, prefix, j)), items, prefix, start, j)
  {
    hide NewHeader, Renamable, AsRawName, LinkBytes, OctalFrom, HeaderPath, EntrySize, CksumOk, DataAt, Recognized,
        Tells, TypeOf, Kept;
    NewSize(items[j], prefix);
    var h := NewHeader(items[j].header, prefix);
    RenamedKept(items[j].header, prefix);
    RecordTells(h, start + DataAt(items, prefix, j));
    TellsKept(RecordOf(h, start + DataAt(items, prefix, j)), items[j].header, h);
  }

  /** The last item's part of the bytes. */
  lemma LastBytes(items: seq<Item>, prefix: seq<Byte>)
    requires items != [] && AllAccepted(items, prefix) && Complete(items[|items| - 1])
    ensures AllAccepted(items[..|items| - 1], prefix)
    ensures |Rewritten(items, prefix)| == DataAt(items, prefix, |items| - 1) + Blocks(items[|items| - 1].size)
  {
    hide NewHeader, Renamable, Describable, Member, EntrySize, CksumOk;
    var item := items[|items| - 1];
    MemberLength(NewHeader(item.header, prefix), item.data);
  }

  /** The last item's record, if it has one. */
  lemma LastRecord(items: seq<Item>, prefix: seq<Byte>, start: nat) returns (es: seq<TocEntry>)
    requires items != [] && AllAccepted(items, prefix)
    ensures AllAccepted(items[..|items| - 1], prefix)
    ensures Records(items, prefix, start) == Records(items[..|items| - 1], prefix, start) + es
    ensures if Recorded(items[|items| - 1].header) then
              |es| == 1 && IsRecord(es[0], items, prefix, start, |items| - 1)
            else es == []
  {
    hide NewHeader, Renamable, Describable, Member, TypeOf, RecordOf, EntrySize, CksumOk, IsRecord;
    var item := items[|items| - 1];
    NewSize(item, prefix);
    es := [];
    if Recorded(item.header) {
      RecordMade(items, prefix, start, |items| - 1);
      es := [RecordOf(NewHeader(item.header, prefix), start + DataAt(items, prefix, |items| - 1))];
    }
  }

  lemma RecordStays(e: TocEntry, items: seq<Item>, prefix: seq<Byte>, start: nat, j: nat)
    requires items != [] && AllAccepted(items, prefix) && AllAccepted(items[..|items| - 1], prefix)
    ensures IsRecord(e, items[..|items| - 1], prefix, start, j) <==>
            j < |items| - 1 && IsRecord(e, items, prefix, start, j)
  {
    hide Rewritten, NewHeader, AsRawName, TypeOf;
    if j < |items| - 1 { assert items[..|items| - 1][..j] == items[..j]; }
  }

  /** The ranges are in order, apart by at least a header, from `from` to `to`. */
  ghost predicate Apart(index: seq<TocEntry>, from: nat, to: nat) {
    && (forall k :: 0 <= k < |index| ==> from <= index[k].offset && index[k].offset + index[k].size <= to)
    && (forall k, l :: 0 <= k < l < |index| ==> index[k].offset + index[k].size + BLOCK <= index[l].offset)
  }

  lemma NoneApart(from: nat, to: nat)
    ensures Apart([], from, to)
  {
  }

  lemma OneMoreApart(index: seq<TocEntry>, es: seq<TocEntry>, from: nat, mid: nat, to: nat)
    requires Apart(index, from, mid) && from - BLOCK <= mid <= to
    requires |es| <= 1 && (es != [] ==> es[0].offset == mid + BLOCK && es[0].offset + es[0].size <= to)
    ensures Apart(index + es, from, to)
  {
  }

  /** The recorded ranges are apart, inside what was written. */
  lemma {:induction false} RecordsApart(items: seq<Item>, prefix: seq<Byte>, start: nat)
    requires AllAccepted(items, prefix) && forall i :: 0 <= i < |items| ==> Complete(items[i])
    ensures Apart(Records(items, prefix, start), start + BLOCK, start + |Rewritten(items, prefix)|)
  {
    hide AllAccepted, Complete, Records, Rewritten, Recorded, IsRecord, Apart;
    if items != [] {
      var n := |items| - 1;
      LastBytes(items, prefix);
      var es := LastRecord(items, prefix, start);
      RecordsApart(items[..n], prefix, start);
      BlocksCover(items[n].size);
      if Recorded(items[n].header) { RecordSays(es[0], items, prefix, start, n); }
      OneMoreApart(Records(items[..n], prefix, start), es, start + BLOCK, start + |Rewritten(items[..n], prefix)|,
          start + |Rewritten(items, prefix)|);
    } else {
      NothingYet(prefix, start, Ok([]));
      NoneApart(start + BLOCK, start);
    }
  }

  /** Every record is that of an item. */
  lemma {:induction false} RecordHasItem(items: seq<Item>, prefix: seq<Byte>, start: nat, k: nat) returns (j: nat)
    requires AllAccepted(items, prefix) && forall i :: 0 <= i < |items| ==> Complete(items[i])
    requires k < |Records(items, prefix, start)|
    ensures IsRecord(Records(items, prefix, start)[k], items, prefix, start, j)
  {
    hide AllAccepted, Complete, Records, Rewritten, IsRecord, Recorded;
    if items == [] { NothingYet(prefix, start, Ok([])); }
    j := |items| - 1;
    var front := items[..j];
    var es := LastRecord(items, prefix, start);
    if k < |Records(front, prefix, start)| {
      j := RecordHasItem(front, prefix, start, k);
      RecordStays(Records(front, prefix, start)[k], items, prefix, start, j);
    }
  }

  /** Every item of a type that is recorded has its record. */
  lemma {:induction false} ItemHasRecord(items: seq<Item>, prefix: seq<Byte>, start: nat, j: nat) returns (k: nat)
    requires AllAccepted(items, prefix) && forall i :: 0 <= i < |items| ==> Complete(items[i])
    requires j < |items| && Recorded(items[j].header)
    ensures k < |Records(items, prefix, start)| && IsRecord(Records(items, prefix, start)[k], items, prefix, start, j)
  {
    hide AllAccepted, Complete, Records, Rewritten, IsRecord, Recorded;
    var n := |items| - 1;
    var es := LastRecord(items, prefix, start);
    if j == n {
      k := |Records(items, prefix, start)| - 1;
    } else {
      k := ItemHasRecord(items[..n], prefix, start, j);
      RecordStays(Records(items[..n], prefix, start)[k], items, prefix, start, j);
    }
  }

  // ----- over all adds -----

  lemma {:induction false} AddsApart(file: seq<Byte>, base: nat, adds: seq<Add>, a: nat)
    requires Accounts(file, base, adds) && a < |adds|
    ensures base <= adds[a].start <= |file| && (adds[a].start - base) % BLOCK == 0
    ensures AllAccepted(adds[a].items, adds[a].prefix)
              && (forall i :: 0 <= i < |adds[a].items| ==> Complete(adds[a].items[i]))
    ensures adds[a].index == Records(adds[a].items, adds[a].prefix, adds[a].start)
    ensures var end := adds[a].start + |Rewritten(adds[a].items, adds[a].prefix)|;
            && end <= |file| && file[adds[a].start..end] == Rewritten(adds[a].items, adds[a].prefix)
            && (forall b :: a < b < |adds| ==> end <= adds[b].start)
    decreases |adds|
  {
    hide AllAccepted, Complete, Records, Rewritten;
    var last := adds[|adds| - 1];
    FileLength(file[..last.start], base, adds[..|adds| - 1]);
    if a < |adds| - 1 {
      AddsApart(file[..last.start], base, adds[..|adds| - 1], a);
      assert adds[..|adds| - 1][a] == adds[a];
      var end := adds[a].start + |Rewritten(adds[a].items, adds[a].prefix)|;
      assert file[..last.start][adds[a].start..end] == file[adds[a].start..end];
      forall b | a < b < |adds|
        ensures end <= adds[b].start
      {
        if b < |adds| - 1 { assert adds[..|adds| - 1][b] == adds[b]; }
      }
    }
  }

  lemma {:induction false} FileLength(file: seq<Byte>, base: nat, adds: seq<Add>)
    requires Accounts(file, base, adds)
    ensures |file| >= base && (|file| - base) % BLOCK == 0
    decreases |adds|
  {
    hide AllAccepted, Complete, Records, Rewritten;
    if adds != [] {
      var a := adds[|adds| - 1];
      FileLength(file[..a.start], base, adds[..|adds| - 1]);
      MembersAreBlocks(a.items, a.prefix);
    }
  }

  lemma RecordSays(e: TocEntry, items: seq<Item>, prefix: seq<Byte>, start: nat, j: nat)
    requires AllAccepted(items, prefix) && IsRecord(e, items, prefix, start, j)
    ensures j < |items| && e.offset == start + DataAt(items, prefix, j) && e.size == items[j].size
    ensures e.chunkOffset == 0 && e.chunkSize == 0 && Recorded(items[j].header)
  {
    hide AllAccepted, DataAt, AsRawName, TypeOf, HeaderPath, Recorded, LinkBytes;
  }

  lemma RecordIsTold(e: TocEntry, items: seq<Item>, prefix: seq<Byte>, start: nat, j: nat)
    requires AllAccepted(items, prefix) && IsRecord(e, items, prefix, start, j)
    ensures j < |items| && Tells(e, items[j].header)
  {
    hide AllAccepted, DataAt, AsRawName, HeaderPath, Recorded, Tells;
  }

  /** Bucket addressing, over any run of successful adds: each record selects exactly the data of an entry of its own
      archive, in whole blocks from where the bucket began. */
  lemma RecordSelects(file: seq<Byte>, base: nat, adds: seq<Add>, a: nat, k: nat) returns (j: nat)
    requires Accounts(file, base, adds) && a < |adds| && k < |adds[a].index|
    ensures var e, add := adds[a].index[k], adds[a];
            && AllAccepted(add.items, add.prefix) && IsRecord(e, add.items, add.prefix, add.start, j)
            && e.size == |add.items[j].data| && e.offset + e.size <= |file|
            && file[e.offset..e.offset + e.size] == add.items[j].data
            && e.offset >= base + BLOCK && (e.offset - base) % BLOCK == 0
  {
    hide AllAccepted, Records, Rewritten, Sound, Accounts, IsRecord, DataAt;
    var add := adds[a];
    AddsApart(file, base, adds, a);
    j := RecordHasItem(add.items, add.prefix, add.start, k);
    RecordSays(add.index[k], add.items, add.prefix, add.start, j);
    DataIsThere(add.items, add.prefix, j);
    var at, n := DataAt(add.items, add.prefix, j), |add.items[j].data|;
    SliceOfSlice(file, add.start, add.start + |Rewritten(add.items, add.prefix)|, add.start + at, add.start + at + n);
  }

  /** The ranges that were recorded are in increasing order, over all adds, with a header before each. */
  lemma RecordsIncrease(file: seq<Byte>, base: nat, adds: seq<Add>, a: nat, k: nat, b: nat, l: nat)
    requires Accounts(file, base, adds) && a <= b < |adds| && k < |adds[a].index| && l < |adds[b].index|
    requires a < b || k < l
    ensures adds[a].index[k].offset + adds[a].index[k].size + BLOCK <= adds[b].index[l].offset
  {
    hide AllAccepted, Complete, Records, Rewritten, Accounts;
    AddsApart(file, base, adds, a);
    AddsApart(file, base, adds, b);
    RecordsApart(adds[a].items, adds[a].prefix, adds[a].start);
    RecordsApart(adds[b].items, adds[b].prefix, adds[b].start);
  }

  /** `append` succeeds only if every entry's copied length is the size in its header. */
  lemma CopiedInFull(archive: seq<Byte>, prefix: seq<Byte>)
    requires Concatenable(archive, prefix)
    ensures forall i :: 0 <= i < |Items(Some(archive)).value| ==>
              var item := Items(Some(archive)).value[i];
              && |item.data| == item.size
              && Renamable(item.header, prefix) && EntrySize(NewHeader(item.header, prefix)) == Ok(|item.data|)
  {
    hide Sound, Renamable, Describable, NewHeader, EntrySize, Items;
    ItemsComplete(Some(archive));
    forall i | 0 <= i < |Items(Some(archive)).value|
      ensures EntrySize(NewHeader(Items(Some(archive)).value[i].header, prefix))
                == Ok(|Items(Some(archive)).value[i].data|)
    {
      assert Complete(Items(Some(archive)).value[i]) && Accepted(Items(Some(archive)).value[i], prefix);
      NewSize(Items(Some(archive)).value[i], prefix);
    }
  }

  // ----- names -----

  /** The first component of a normal path is replaced by a normal prefix, and the others stay. */
  lemma RenamedNormal(p: seq<Byte>, names: seq<Name>, prefix: seq<Byte>, first: seq<Name>)
    requires Normalized(p, names) && |names| >= 2 && Normalized(prefix, first)
    ensures Normalized(Renamed(p, prefix), first + names[1..])
  {
    hide Components, Join;
    NormalComponents(p, names);
    JoinEnds(first);
    assert Texts(AsNormal(names)[1..]) == names[1..];
    JoinAppend(first, names[1..]);
    JoinStarts(first);
  }

  /** The new header has the renamed path, and its record the renamed name, except that a path that fits the name field
      does not clear an old ustar prefix. */
  lemma RecordedPathIff(h: Header, prefix: seq<Byte>, names: seq<Name>, first: seq<Name>)
    requires Normalized(HeaderPath(h), names) && |names| >= 2 && Normalized(prefix, first) && Renamable(h, prefix)
    ensures var q := Renamed(HeaderPath(h), prefix);
            && (HeaderPath(NewHeader(h, prefix)) == q <==> !(IsUstar(h) && |q| <= NAME_END && h[PREFIX] != 0))
            && AsRawName(q) == RawName(false, first + names[1..])
  {
    hide HeaderPath, PathFits, WithPath, WithCksum, Renamed, Normalized, Kept, AsRawName, IsUstar;
    var q := Renamed(HeaderPath(h), prefix);
    RenamedNormal(HeaderPath(h), names, prefix, first);
    RenamedKept(h, prefix);
    KeptFields(h, NewHeader(h, prefix));
    PathReadsBackIff(h, q, first + names[1..]);
    NormalRawName(q, first + names[1..]);
  }

  lemma NormalRawName(q: seq<Byte>, names: seq<Name>)
    requires Normalized(q, names)
    ensures AsRawName(q) == RawName(false, names)
  {
    hide Components, Join;
    NormalComponents(q, names);
    assert Texts(AsNormal(names)) == names;
  }

  lemma {:induction false} SplitNames(names: seq<Name>)
    requires names != [] && forall i :: 0 <= i < |names| ==> IsName(names[i])
    ensures Body(Split(Join(names))) == AsNormal(names) && Texts(AsNormal(names)) == names
  {
    hide Split, Join, Body;
    SplitJoin(names);
    BodyOfNames(names);
  }

  /** A leading slash makes a name absolute, a leading `./` does not count, and a slash alone is the root. */
  lemma RawNames(q: seq<Byte>, names: seq<Name>)
    requires Normalized(q, names)
    ensures AsRawName(q) == AsRawName([46, 47] + q) == RawName(false, names)
    ensures AsRawName([47] + q) == RawName(true, names) && AsRawName([47]) == RawName(true, [])
  {
    hide Components, Split, Join, Body;
    NormalRawName(q, names);
    SplitNames(names);
    ComponentsRead([46], q);
    assert [46] + [47] + q == [46, 47] + q;
    ComponentsRead([], q);
    assert [] + [47] + q == [47] + q;
    ComponentsRead([], []);
    assert [] + [47] + [] == [47];
    assert Texts([]) == [];
    assert ([RootDir] + AsNormal(names))[1..] == ([CurDir] + AsNormal(names))[1..] == AsNormal(names);
  }

  // ----- buckets are archives -----

  /** What a reader of the bucket finds for an item: the new header and the same data. */
  function Reread(item: Item, prefix: seq<Byte>): Item
    requires Renamable(item.header, prefix)
  {
    Item(NewHeader(item.header, prefix), None, None, item.size, item.data)
  }

  ghost function RereadAll(items: seq<Item>, prefix: seq<Byte>): (r: seq<Item>)
    requires AllAccepted(items, prefix)
    ensures |r| == |items|
  {
    seq(|items|, i requires 0 <= i < |items| => Reread(items[i], prefix))
  }

  /** The checksum field ends in NUL or white space. */
  predicate CksumEnds(h: Header) {
    h[CKSUM_END - 1] == 0 || IsWhite([h[CKSUM_END - 1]])
  }

  /** What was written for an item is read as a member again exactly if its checksum field ended in NUL or white space:
      the last byte is never written. */
  lemma RereadIff(item: Item, prefix: seq<Byte>, more: seq<Byte>)
    requires Complete(item) && Renamable(item.header, prefix) && PlainType(item.header)
    ensures var read := ItemNext(Some(Member(NewHeader(item.header, prefix), item.data) + more), None, None);
            read == Some(Ok((Reread(item, prefix), Some(more)))) <==> CksumEnds(item.header)
    ensures CksumOk(NewHeader(item.header, prefix)) <==> CksumEnds(item.header)
  {
    hide NewHeader, Renamable, Member, RawNext, CksumOk, EntrySize, Kept, IsGnu, IsUstar;
    var h := NewHeader(item.header, prefix);
    NewSize(item, prefix);
    NewCksumIff(item.header, prefix);
    if CksumOk(h) {
      RawOfMember(h, item.data, more);
    } else {
      ItemGoesOn(Some(Member(h, item.data) + more), None, None);
    }
  }

  lemma NewCksumIff(h: Header, prefix: seq<Byte>)
    requires Renamable(h, prefix)
    ensures CksumOk(NewHeader(h, prefix)) <==> CksumEnds(h)
  {
    hide Renamed, HeaderPath, PathFits, WithPath, WithCksum, CksumOk, Kept;
    var m := WithPath(h, Renamed(HeaderPath(h), prefix));
    RenamedKept(h, prefix);
    KeptFields(h, NewHeader(h, prefix));
    SetCksumAcceptedIff(m);
    CksumKeeps(m);
  }

  /** Whole members of a plain type, whose checksum can be set. */
  ghost predicate AllReadable(items: seq<Item>) {
    forall i :: 0 <= i < |items| ==> Complete(items[i]) && PlainType(items[i].header) && CksumEnds(items[i].header)
  }

  /** The members of a package read back from the bucket: those of its archive with their new headers. */
  lemma {:induction false} RereadsItems(items: seq<Item>, prefix: seq<Byte>, more: seq<Byte>)
    requires AllAccepted(items, prefix)
    requires AllReadable(items)
    ensures Items(Some(Rewritten(items, prefix) + more)) == After(RereadAll(items, prefix), Items(Some(more)))
    decreases |items|
  {
    hide AllAccepted, AllReadable, NewHeader, Renamable, Member, Reread, Rewritten, RereadAll, After, Items;
    NothingYet(prefix, 0, Items(Some(more)));
    if items == [] {
      assert [] + more == more;
      RereadNone(prefix);
    } else {
      var n := |items| - 1;
      var front, last := items[..n], items[n];
      LastReread(items, prefix, more);
      var m := Member(NewHeader(last.header, prefix), last.data);
      RereadsItems(front, prefix, m + more);
      assert Rewritten(front, prefix) + (m + more) == Rewritten(items, prefix) + more;
      AfterTwice(RereadAll(front, prefix), Reread(last, prefix), Items(Some(more)));
    }
  }

  lemma RereadNone(prefix: seq<Byte>)
    ensures RereadAll([], prefix) == []
  {
  }

  lemma LastReread(items: seq<Item>, prefix: seq<Byte>, more: seq<Byte>)
    requires items != [] && AllAccepted(items, prefix) && AllReadable(items)
    ensures var front, last := items[..|items| - 1], items[|items| - 1];
            && AllReadable(front) && AllAccepted(front, prefix) && Renamable(last.header, prefix)
            && Rewritten(items, prefix) == Rewritten(front, prefix) + Member(NewHeader(last.header, prefix), last.data)
            && RereadAll(items, prefix) == RereadAll(front, prefix) + [Reread(last, prefix)]
            && Items(Some(Member(NewHeader(last.header, prefix), last.data) + more))
                == After([Reread(last, prefix)], Items(Some(more)))
  {
    hide NewHeader, Renamable, Describable, Member, ItemNext, Complete, PlainType, CksumEnds, Reread, CksumOk,
        EntrySize;
    RereadIff(items[|items| - 1], prefix, more);
  }

  lemma AfterTwice(done: seq<Item>, item: Item, rest: Result<seq<Item>>)
    ensures After(done, After([item], rest)) == After(done + [item], rest)
  {
    match rest {
      case Ok(more) => assert done + ([item] + more) == (done + [item]) + more;
      case Err(_) =>
    }
  }
}
