/** Archive headers of 512 bytes: their size, type and path, and the checksum that the reader tests. */
module TarHeader {
  import opened Wrappers
  import opened Bytes
  import opened TarFields
  import opened TarPaths
  import opened Ustar

  const SIZE := 124
  const CKSUM := 148
  const CKSUM_END := 156
  const LINKFLAG := 156
  const MAGIC := 257

  /** `ustar` and the blanks of the GNU and POSIX formats. */
  const GNU_MAGIC: seq<Byte> := [117, 115, 116, 97, 114, 32, 32, 0]
  const USTAR_MAGIC: seq<Byte> := [117, 115, 116, 97, 114, 0, 48, 48]

  predicate IsGnu(h: Header) { h[MAGIC..MAGIC + 8] == GNU_MAGIC }
  predicate IsUstar(h: Header) { h[MAGIC..MAGIC + 8] == USTAR_MAGIC }

  /** `entry_size`. */
  function EntrySize(h: Header): Result<nat> {
    NumFieldFrom(h[SIZE..SIZE + 12])
  }

  function EntryType(h: Header): Byte {
    h[LINKFLAG]
  }

  /** `Header::path_bytes`. */
  function HeaderPath(h: Header): seq<Byte> {
    if IsUstar(h) then PathBytes(h) else Truncate(h[..NAME_END])
  }

  // ----- checksum -----

  function Sum(b: seq<Byte>): nat {
    if b == [] then 0 else Sum(b[..|b| - 1]) + b[|b| - 1]
  }

  /** The sum of all bytes, those of the checksum field taken as spaces. */
  function HeaderSum(h: Header): nat {
    Sum(h[..CKSUM]) + 8 * 32 + Sum(h[CKSUM_END..])
  }

  /** `calculate_cksum`. */
  method CalculateCksum(h: array<Byte>) returns (sum: nat)
    requires h.Length == HEADER_SIZE
    ensures sum == HeaderSum(h[..])
  {
    sum := 0;
    for i := 0 to CKSUM
      invariant sum == Sum(h[..i])
    {
      assert h[..i + 1][..i] == h[..i];
      sum := sum + h[i];
    }
    for i := 0 to 8
      invariant sum == Sum(h[..CKSUM]) + i * 32
    {
      sum := sum + 32;
    }
    ghost var rest := h[CKSUM_END..];
    for i := CKSUM_END to HEADER_SIZE
      invariant sum == Sum(h[..CKSUM]) + 8 * 32 + Sum(rest[..i - CKSUM_END])
    {
      assert rest[..i + 1 - CKSUM_END][..i - CKSUM_END] == rest[..i - CKSUM_END];
      sum := sum + h[i];
    }
    assert rest[..HEADER_SIZE - CKSUM_END] == rest;
    assert h[..][..CKSUM] == h[..CKSUM] && h[..][CKSUM_END..] == rest;
  }

  /** `set_cksum`, as the new header. */
  function WithCksum(h: Header): Header {
    Splice(h, CKSUM, OctalDigits(HeaderSum(h), 7))
  }

  method SetCksum(h: array<Byte>)
    requires h.Length == HEADER_SIZE
    modifies h
    ensures h[..] == WithCksum(old(h[..]))
  {
    var sum := CalculateCksum(h);
    OctalInto(h, CKSUM, 8, sum);
  }

  /** The reader's test. */
  predicate CksumOk(h: Header) {
    match OctalFrom(h[CKSUM..CKSUM_END])
    case Ok(v) => v % U32 == HeaderSum(h)
    case Err(_) => false
  }

  lemma {:induction false} SumBound(b: seq<Byte>)
    ensures Sum(b) <= 255 * |b|
  {
    if b != [] { SumBound(b[..|b| - 1]); }
  }

  /** Setting the checksum changes no byte that it sums. */
  lemma SumStays(h: Header)
    ensures HeaderSum(WithCksum(h)) == HeaderSum(h)
    ensures WithCksum(h)[CKSUM..CKSUM_END] == OctalDigits(HeaderSum(h), 7) + [h[CKSUM_END - 1]]
    ensures 256 <= HeaderSum(h) < Pow8(7)
  {
    hide Sum, OctalDigits;
    SevenDigits(HeaderSum(h));
    assert WithCksum(h)[..CKSUM] == h[..CKSUM];
    assert WithCksum(h)[CKSUM_END..] == h[CKSUM_END..];
    SumBound(h[..CKSUM]);
    SumBound(h[CKSUM_END..]);
    Pow8Values();
  }

  lemma SevenDigits(v: nat)
    ensures |OctalDigits(v, 7)| == 7 && IsOctal(OctalDigits(v, 7))
  {
  }

  /** The reader accepts a header whose checksum was set exactly when the last byte of the field, which is left alone,
      is NUL or ASCII white space. */
  lemma SetCksumAcceptedIff(h: Header)
    ensures CksumOk(WithCksum(h)) <==> h[CKSUM_END - 1] == 0 || IsWhite([h[CKSUM_END - 1]])
  {
    hide HeaderSum, WithCksum, OctalFrom, OctalDigits, OctalValue;
    var v, last := HeaderSum(h), h[CKSUM_END - 1];
    SumStays(h);
    SevenDigits(v);
    DigitsValue(v, 7);
    Pow8Values();
    FieldReads(OctalDigits(v, 7), last);
    OtherValues(OctalDigits(v, 7), last, v);
  }

  /** A field whose last byte is something else is an error, or a number eight times as large. */
  lemma OtherValues(digits: seq<Byte>, last: Byte, v: nat)
    requires |digits| == 7 && IsOctal(digits) && OctalValue(digits) == v && 0 < v < Pow8(7)
    ensures OctalFrom(digits + [last]).Ok? && OctalFrom(digits + [last]).value % U32 == v ==>
              OctalFrom(digits + [last]) == Ok(v)
  {
    hide OctalFrom, OctalValue;
    Pow8Values();
    if last != 0 && !IsWhite([last]) {
      if 48 <= last < 56 { DigitEnds(digits, last); } else { OtherEnds(digits, last); }
    } else {
      FieldReads(digits, last);
    }
  }

  // ----- paths -----

  /** `Header::set_path`: in a ustar header the path may be split, in others it goes into the name. */
  method SetHeaderPath(h: array<Byte>, path: seq<Byte>) returns (r: Result<()>)
    requires h.Length == HEADER_SIZE
    modifies h
    ensures r.Ok? <==> PathFits(old(h[..]), path)
    ensures r.Ok? ==> h[..] == WithPath(old(h[..]), path)
    ensures SameButPath(old(h[..]), h[..])
  {
    hide PathText, TooMuch, Written, FittingParent;
    ghost var s: Header := h[..];
    if h[MAGIC..MAGIC + 8] == USTAR_MAGIC {
      r := SetPath(h, path);
    } else {
      r := CopyPathInto(h, 0, NAME_END, path, false);
      KeptBetween(s, h[..], NAME_END, NAME_END, HEADER_SIZE);
    }
  }

  /** The path has a place in the header. */
  predicate PathFits(h: Header, path: seq<Byte>) {
    if IsUstar(h) && |path| > NAME_END then
      && FittingParent(path).Some? && Fits(PathText(FittingParent(path).value, false), PREFIX_END - PREFIX)
      && Fits(PathText(path[|FittingParent(path).value| + 1..], false), NAME_END)
    else Fits(PathText(path, false), NAME_END)
  }

  /** The header with the path set. */
  function WithPath(h: Header, path: seq<Byte>): Header
    requires PathFits(h, path)
  {
    if IsUstar(h) && |path| > NAME_END then
      Written(Written(h, PREFIX, PREFIX_END, PathText(FittingParent(path).value, false).value),
              0, NAME_END, PathText(path[|FittingParent(path).value| + 1..], false).value)
    else Written(h, 0, NAME_END, PathText(path, false).value)
  }

  /** Nothing outside the name and the prefix differs, and in a header that is not ustar nothing outside the name. */
  ghost predicate SameButPath(h: Header, g: Header) {
    g[NAME_END..PREFIX] == h[NAME_END..PREFIX] && g[PREFIX_END..] == h[PREFIX_END..]
    && (!IsUstar(h) ==> g[PREFIX..PREFIX_END] == h[PREFIX..PREFIX_END])
  }

  // ----- where the fields are -----

  /** The places that the reader takes a header's size, type, format, checksum and path from. */
  lemma HeaderAt(h: Header)
    ensures EntrySize(h) == NumFieldFrom(h[124..136]) && EntryType(h) == h[156]
    ensures IsGnu(h) <==> h[257..265] == [117, 115, 116, 97, 114, 32, 32, 0]
    ensures IsUstar(h) <==> h[257..265] == [117, 115, 116, 97, 114, 0, 48, 48]
    ensures CksumOk(h) <==> OctalFrom(h[148..156]).Ok?
                            && OctalFrom(h[148..156]).value % 0x1_0000_0000 == Sum(h[..148]) + 256 + Sum(h[156..])
    ensures !IsUstar(h) ==> HeaderPath(h) == Truncate(h[..100])
    ensures IsUstar(h) && h[345] == 0 && 92 !in h[..100] ==> HeaderPath(h) == Truncate(h[..100])
    ensures IsUstar(h) && h[345] != 0 ==> HeaderPath(h) == Truncate(h[345..500]) + [47] + Truncate(h[..100])
  {
    hide Sum, OctalFrom, NumFieldFrom, Truncate;
    FirstOfPrefix(h);
  }

  lemma FirstOfPrefix(h: Header)
    ensures h[PREFIX..PREFIX_END][0] == h[345]
    ensures h[345] != 0 ==> Truncate(h[PREFIX..PREFIX_END]) != []
  {
  }

  /** A sum counts every byte once. */
  lemma SumCounts(b: seq<Byte>, c: Byte)
    ensures Sum([]) == 0 && Sum(b + [c]) == Sum(b) + c
  {
    assert (b + [c])[..|b|] == b;
  }

  /** What a text field holds ends before its first NUL. */
  lemma TruncateStops(text: seq<Byte>, rest: seq<Byte>)
    requires 0 !in text
    ensures Truncate(text) == text && Truncate(text + [0] + rest) == text
  {
    FirstNulIs(text, rest);
  }
}
