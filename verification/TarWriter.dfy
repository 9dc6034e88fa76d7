/** Writing archives: `append_data`, with a long-name entry for paths that do not fit, and `finish`. */
module TarWriter {
  import opened Wrappers
  import opened Bytes
  import opened TarFields
  import opened TarPaths
  import opened Ustar
  import opened TarHeader

  const BLOCK := 512
  const LONG_NAME: Byte := 76
  const LONG_LINK: Byte := 75
  const PAX: Byte := 120
  const SPARSE: Byte := 83

  /** `././@LongLink`. */
  const LONG_LINK_NAME: seq<Byte> := [46, 47, 46, 47, 64, 76, 111, 110, 103, 76, 105, 110, 107]

  /** Zeros up to the next block boundary. */
  function Padding(len: nat): seq<Byte> {
    Zeros((BLOCK - len % BLOCK) % BLOCK)
  }

  /** A header and its data as they stand in an archive. */
  function Member(h: Header, data: seq<Byte>): seq<Byte> {
    h + (data + Padding(|data|))
  }

  // ----- a header with some fields set -----

  lemma SpliceField(s: seq<Byte>, lo: nat, x: seq<Byte>, a: nat, b: nat)
    requires lo + |x| <= |s| && a <= b <= |s|
    ensures b <= lo || lo + |x| <= a ==> Splice(s, lo, x)[a..b] == s[a..b]
    ensures a == lo && b >= lo + |x| ==> Splice(s, lo, x)[a..b] == Splice(s[a..b], 0, x)
  {
    var t := Splice(s, lo, x);
    if a == lo && b >= lo + |x| {
      assert t[a..b] == x + s[lo + |x|..b];
      assert s[a..b][|x|..] == s[lo + |x|..b];
    }
  }

  /** The header of a long-name entry for `size` bytes and a NUL. */
  ghost predicate IsLongName(h: Header, size: nat) {
    IsGnu(h) && EntryType(h) == LONG_NAME && EntrySize(h) == Ok(size + 1) && CksumOk(h)
  }

  /** `prepare_header`, for a long name: a GNU header of type `L` with the name `././@LongLink`. */
  method PrepareHeader(size: nat) returns (h: array<Byte>)
    requires size + 1 < U64
    ensures fresh(h) && h.Length == HEADER_SIZE && IsLongName(h[..], size)
    ensures h[156] == 76 && h[257..265] == [117, 115, 116, 97, 114, 32, 32, 0]
    ensures NumbersAre(h[..], 0x1A4, 0, 0, size + 1, 0)
    ensures h[..13] == [46, 47, 46, 47, 64, 76, 111, 110, 103, 76, 105, 110, 107] && h[13..100] == Zeros(87)
  {
    hide NumText, OctalDigits, HeaderSum, WithCksum, OctalFrom;
    h := new Byte[HEADER_SIZE](_ => 0);
    for i := 0 to 8
      invariant forall k :: 0 <= k < i ==> h[MAGIC + k] == GNU_MAGIC[k]
      invariant forall k :: 0 <= k < MAGIC || MAGIC + 8 <= k < HEADER_SIZE ==> h[k] == 0
    {
      h[MAGIC + i] := GNU_MAGIC[i];
    }
    for i := 0 to |LONG_LINK_NAME|
      invariant h[MAGIC..MAGIC + 8] == GNU_MAGIC
      invariant forall k :: 0 <= k < i ==> h[k] == LONG_LINK_NAME[k]
      invariant forall k :: |LONG_LINK_NAME| <= k < MAGIC ==> h[k] == 0
    {
      h[i] := LONG_LINK_NAME[i];
    }
    ghost var name := h[..NAME_END];
    assert name[..13] == LONG_LINK_NAME && name[13..] == Zeros(87);
    SetNumbers(h, size);
    ghost var numbers := h[..CKSUM];
    h[LINKFLAG] := LONG_NAME;
    ghost var s: Header := h[..];
    SetCksum(h);
    CksumKeeps(s);
    assert h[..NAME_END] == name && h[..CKSUM] == numbers;
    assert h[..13] == name[..13] && h[13..100] == name[13..];
    LongNameDone(s, size);
    NumbersStay(s, h[..], size);
  }

  /** The mode, owner, group, size and time of a header. */
  ghost predicate NumbersAre(h: Header, mode: nat, uid: nat, gid: nat, size: nat, mtime: nat) {
    && NumFieldFrom(h[100..108]) == Ok(mode) && NumFieldFrom(h[108..116]) == Ok(uid)
    && NumFieldFrom(h[116..124]) == Ok(gid) && NumFieldFrom(h[124..136]) == Ok(size)
    && NumFieldFrom(h[136..148]) == Ok(mtime)
  }

  /** The numeric fields of a long-name header: mode, owner, time and size. */
  method SetNumbers(h: array<Byte>, size: nat)
    requires h.Length == HEADER_SIZE && size + 1 < U64
    requires h[MAGIC..MAGIC + 8] == GNU_MAGIC && forall k :: NAME_END <= k < MAGIC ==> h[k] == 0
    modifies h
    ensures h[MAGIC..MAGIC + 8] == GNU_MAGIC && h[CKSUM_END - 1] == 0 && h[..NAME_END] == old(h[..NAME_END])
    ensures NumbersAre(h[..], 0x1A4, 0, 0, size + 1, 0)
  {
    hide NumText, OctalDigits, NumFieldFrom, Splice;
    ghost var s0: Header := h[..];
    ModeText();
    NumberFits(0, 8);
    NumberFits(0, 12);
    NumberFits(size + 1, 12);
    OctalInto(h, NAME_END, 8, 0x1A4);
    ghost var s1: Header := h[..];
    NumFieldInto(h, 108, 8, 0);
    ghost var s2: Header := h[..];
    NumFieldInto(h, 116, 8, 0);
    ghost var s3: Header := h[..];
    NumFieldInto(h, 136, 12, 0);
    ghost var s4: Header := h[..];
    NumFieldInto(h, SIZE, 12, size + 1);
    NumberSet(s0, s1, NAME_END, 8, 0x1A4);
    NumberSet(s1, s2, 108, 8, 0);
    NumberSet(s2, s3, 116, 8, 0);
    NumberSet(s3, s4, 136, 12, 0);
    NumberSet(s4, h[..], SIZE, 12, size + 1);
    assert s0[MAGIC..MAGIC + 8] == GNU_MAGIC && s0[CKSUM_END - 1] == 0;
  }

  lemma ModeText()
    ensures NumText(0x1A4, 8) == OctalDigits(0x1A4, 7)
  {
    hide OctalDigits;
  }

  /** Setting a number in a field of zeros, between the name and the checksum, changes that field only. */
  lemma NumberSet(s: Header, t: Header, lo: nat, len: nat, v: nat)
    requires NAME_END <= lo && lo + len <= CKSUM && (len == 8 || len == 12) && v < U64 && (len == 8 ==> v < 0x1000)
    requires s[lo..lo + len] == Zeros(len) && |NumText(v, len)| <= len && t == Splice(s, lo, NumText(v, len))
    ensures NumFieldFrom(t[lo..lo + len]) == Ok(v)
    ensures t[MAGIC..MAGIC + 8] == s[MAGIC..MAGIC + 8] && t[CKSUM_END - 1] == s[CKSUM_END - 1]
    ensures t[..NAME_END] == s[..NAME_END]
    ensures forall a, b :: 0 <= a <= b <= HEADER_SIZE && (b <= lo || lo + len <= a) ==> t[a..b] == s[a..b]
  {
    hide NumText, NumFieldFrom, Zeros;
    SpliceField(s, lo, NumText(v, len), lo, lo + len);
    ZerosAre(len);
    NumFieldRoundTripIff(Zeros(len), v);
    NumberSmall(v, len);
  }

  lemma NumberSmall(v: nat, len: nat)
    requires len == 8 ==> v < 0x1000
    ensures NeedsExtension(v, len) ==> len != 8
  {
  }

  lemma ZerosAre(n: nat)
    ensures |Zeros(n)| == n && forall i :: 0 <= i < n ==> Zeros(n)[i] == 0
  {
  }

  lemma DigitCount(v: nat, n: nat)
    ensures |OctalDigits(v, n)| == n
  {
  }

  lemma NumberFits(v: nat, len: nat)
    requires len >= 8
    ensures |NumText(v, len)| <= len
  {
  }

  lemma NumbersStay(s: Header, t: Header, size: nat)
    requires NumbersAre(s, 0x1A4, 0, 0, size + 1, 0) && t[..CKSUM] == s[..CKSUM]
    ensures NumbersAre(t, 0x1A4, 0, 0, size + 1, 0)
  {
    hide NumFieldFrom;
    Within(s, t, 100, 108);
    Within(s, t, 108, 116);
    Within(s, t, 116, 124);
    Within(s, t, 124, 136);
    Within(s, t, 136, 148);
  }

  lemma Within(s: Header, t: Header, a: nat, b: nat)
    requires t[..CKSUM] == s[..CKSUM] && a <= b <= CKSUM
    ensures t[a..b] == s[a..b]
  {
    assert forall k :: 0 <= k < CKSUM ==> t[k] == t[..CKSUM][k] && s[k] == s[..CKSUM][k];
  }

  lemma LongNameDone(s: Header, size: nat)
    requires s[MAGIC..MAGIC + 8] == GNU_MAGIC && s[CKSUM_END - 1] == 0 && EntrySize(s) == Ok(size + 1)
               && EntryType(s) == LONG_NAME
    ensures IsLongName(WithCksum(s), size)
  {
    hide OctalDigits, HeaderSum, NumFieldFrom, CksumOk;
    SetCksumAcceptedIff(s);
    CksumKeeps(s);
  }

  /** Setting the checksum changes seven bytes only. */
  lemma CksumKeeps(h: Header)
    ensures forall k :: 0 <= k < CKSUM || CKSUM_END - 1 <= k < HEADER_SIZE ==> WithCksum(h)[k] == h[k]
    ensures WithCksum(h)[SIZE..SIZE + 12] == h[SIZE..SIZE + 12] && WithCksum(h)[MAGIC..MAGIC + 8] == h[MAGIC..MAGIC + 8]
    ensures WithCksum(h)[..CKSUM] == h[..CKSUM] && WithCksum(h)[CKSUM_END..] == h[CKSUM_END..]
  {
    hide OctalDigits, HeaderSum;
    DigitCount(HeaderSum(h), 7);
  }

  // ----- appending -----

  /** What `append_data` leaves of a header besides its path and checksum. */
  ghost predicate Kept(h: Header, g: Header) {
    && g[NAME_END..CKSUM] == h[NAME_END..CKSUM] && g[CKSUM_END - 1..PREFIX] == h[CKSUM_END - 1..PREFIX]
    && g[PREFIX_END..] == h[PREFIX_END..]
  }

  /** The first name bytes of a path that does not fit, which `append_data` puts into the header instead. */
  function CutPath(path: seq<Byte>): seq<Byte>
    requires |path| >= NAME_END
  {
    path[..NAME_END]
  }

  /** A path that fits no header, but whose first bytes do. */
  predicate GoesLong(h: Header, path: seq<Byte>) {
    !PathFits(h, path) && |path| >= NAME_END && Fits(PathText(CutPath(path), false), NAME_END)
  }

  class Builder {
    var obj: seq<Byte>
    var finished: bool

    constructor ()
      ensures obj == [] && !finished
    {
      obj, finished := [], false;
    }

    /** `append`: the header, the data, and zeros up to the next block. */
    method Append(header: Header, data: seq<Byte>)
      modifies this`obj
      ensures obj == old(obj) + Member(header, data)
    {
      obj := obj + header;
      var len := |data|;
      obj := obj + data;
      var remaining := BLOCK - len % BLOCK;
      if remaining < BLOCK {
        obj := obj + Zeros(remaining);
      }
      assert obj == old(obj) + Member(header, data);
    }

    /** `append_data`; `long` is the header of the long-name entry, if there is one. */
    method AppendData(header: array<Byte>, path: seq<Byte>, data: seq<Byte>) returns (r: Result<()>, ghost long: Header)
      requires header.Length == HEADER_SIZE && |path| + 1 < U64
      modifies this`obj, header
      ensures r.Ok? <==> PathFits(old(header[..]), path) || GoesLong(old(header[..]), path)
      ensures r.Ok? ==> Kept(old(header[..]), header[..]) && header[..] == WithCksum(header[..])
      ensures r.Ok? && PathFits(old(header[..]), path) ==>
                && header[..] == WithCksum(WithPath(old(header[..]), path))
                && obj == old(obj) + Member(header[..], data)
      ensures r.Ok? && !PathFits(old(header[..]), path) ==>
                IsLongName(long, |path|) && obj == old(obj) + Member(long, path + [0]) + Member(header[..], data)
    {
      hide PathText, TooMuch, Written, FittingParent, WithCksum, WithPath, Member, IsLongName, Kept;
      ghost var h: Header := header[..];
      long := h;
      r := SetHeaderPath(header, path);
      ghost var g: Header := header[..];
      if r.Err? {
        if |path| < NAME_END {
          return;
        }
        var header2 := PrepareHeader(|path|);
        long := header2[..];
        Append(header2[..], path + [0]);
        r := SetHeaderPath(header, path[..NAME_END]);
        CutFits(g, path);
        if r.Err? {
          return;
        }
      }
      ghost var m: Header := header[..];
      SetCksum(header);
      PathTwice(h, g, m);
      CksumKept(h, m);
      Append(header[..], data);
    }

    /** `finish`: two blocks of zeros, once. */
    method Finish()
      modifies this
      ensures finished && obj == if old(finished) then old(obj) else old(obj) + Zeros(1024)
    {
      if finished {
        return;
      }
      finished := true;
      obj := obj + Zeros(1024);
    }
  }

  /** A path of at most 100 bytes fits any header alike. */
  lemma CutFits(g: Header, path: seq<Byte>)
    requires |path| >= NAME_END
    ensures PathFits(g, CutPath(path)) <==> Fits(PathText(CutPath(path), false), NAME_END)
  {
    hide PathText;
  }

  lemma PathTwice(h: Header, g: Header, m: Header)
    requires SameButPath(h, g) && (m == g || SameButPath(g, m))
    ensures m[NAME_END..PREFIX] == h[NAME_END..PREFIX] && m[PREFIX_END..] == h[PREFIX_END..]
  {
  }

  lemma CksumKept(h: Header, m: Header)
    requires m[NAME_END..PREFIX] == h[NAME_END..PREFIX] && m[PREFIX_END..] == h[PREFIX_END..]
    ensures Kept(h, WithCksum(m)) && WithCksum(WithCksum(m)) == WithCksum(m)
  {
    hide OctalDigits, HeaderSum, WithCksum;
    CksumKeeps(m);
    SumStays(m);
    CksumAgain(m);
    var g := WithCksum(m);
    KeptBetween(h, m, NAME_END, NAME_END, PREFIX);
    KeptBetween(h, m, PREFIX_END, PREFIX_END, HEADER_SIZE);
  }

  lemma CksumAgain(m: Header)
    requires HeaderSum(WithCksum(m)) == HeaderSum(m)
    ensures WithCksum(WithCksum(m)) == WithCksum(m)
  {
    hide OctalDigits, HeaderSum;
    DigitCount(HeaderSum(m), 7);
  }
}
