/** Numeric header fields: octal text, and the big-endian extension for numbers that do not fit it. */
module TarFields {
  import opened Wrappers
  import opened Bytes
  import opened Utf8

  // ----- text -----

  /** `truncate`: up to the first NUL. */
  function Truncate(b: seq<Byte>): seq<Byte> {
    match FirstNul(b)
    case Some(i) => b[..i]
    case None => b
  }

  /** The encoding of one white-space character, as `str::trim` knows them. */
  predicate IsWhite(c: seq<Byte>) {
    || (|c| == 1 && (9 <= c[0] <= 13 || c[0] == 32))
    || c == [0xC2, 0x85] || c == [0xC2, 0xA0] || c == [0xE1, 0x9A, 0x80]
    || (|c| == 3 && c[0] == 0xE2 && c[1] == 0x80
        && (0x80 <= c[2] <= 0x8A || c[2] == 0xA8 || c[2] == 0xA9 || c[2] == 0xAF))
    || c == [0xE2, 0x81, 0x9F] || c == [0xE3, 0x80, 0x80]
  }

  function TrimStart(b: seq<Byte>): seq<Byte> {
    if |b| >= 1 && IsWhite(b[..1]) then TrimStart(b[1..])
    else if |b| >= 2 && IsWhite(b[..2]) then TrimStart(b[2..])
    else if |b| >= 3 && IsWhite(b[..3]) then TrimStart(b[3..])
    else b
  }

  function TrimEnd(b: seq<Byte>): seq<Byte> {
    if |b| >= 1 && IsWhite(b[|b| - 1..]) then TrimEnd(b[..|b| - 1])
    else if |b| >= 2 && IsWhite(b[|b| - 2..]) then TrimEnd(b[..|b| - 2])
    else if |b| >= 3 && IsWhite(b[|b| - 3..]) then TrimEnd(b[..|b| - 3])
    else b
  }

  // ----- octal numbers -----

  function Pow8(n: nat): (p: nat)
    ensures p > 0
  {
    if n == 0 then 1 else 8 * Pow8(n - 1)
  }

  predicate IsOctal(b: seq<Byte>) {
    forall i :: 0 <= i < |b| ==> 48 <= b[i] < 56
  }

  /** The value of octal digits. */
  function OctalValue(b: seq<Byte>): int {
    if b == [] then 0 else 8 * OctalValue(b[..|b| - 1]) + (b[|b| - 1] as int - 48)
  }

  /** `u64::from_str_radix(_, 8)`: an optional `+`, then at least one digit, and no overflow. */
  function ParseOctal(b: seq<Byte>): Result<nat> {
    var digits := if b != [] && b[0] == 43 then b[1..] else b;
    if digits != [] && IsOctal(digits) && 0 <= OctalValue(digits) < U64 then Ok(OctalValue(digits)) else Err(Other)
  }

  /** `octal_from`. */
  function OctalFrom(b: seq<Byte>): Result<nat> {
    if !ValidUtf8(Truncate(b)) then Err(Other) else ParseOctal(TrimEnd(TrimStart(Truncate(b))))
  }

  /** The `n` low octal digits of `v`, most significant first. */
  function OctalDigits(v: nat, n: nat): (b: seq<Byte>)
    ensures |b| == n && IsOctal(b)
    decreases n
  {
    if n == 0 then [] else OctalDigits(v / 8, n - 1) + [48 + v % 8]
  }

  /** `format!("{:o}")`. */
  function OctalText(v: nat): (b: seq<Byte>)
    ensures |b| >= 1
  {
    if v < 8 then [48 + v] else OctalText(v / 8) + [48 + v % 8]
  }

  /** The `i`-th digit from the right, zeros going on for ever. */
  function DigitFromRight(v: nat, i: nat): Byte {
    if i == 0 then 48 + v % 8 else DigitFromRight(v / 8, i - 1)
  }

  lemma {:induction false} TextDigit(v: nat, i: nat)
    ensures (if i < |OctalText(v)| then OctalText(v)[|OctalText(v)| - 1 - i] else 48) == DigitFromRight(v, i)
    decreases v
  {
    if v < 8 {
      if i > 0 { ZeroDigit(i - 1); }
    } else if i > 0 {
      TextDigit(v / 8, i - 1);
    }
  }

  lemma {:induction false} ZeroDigit(i: nat)
    ensures DigitFromRight(0, i) == 48
  {
    if i > 0 { ZeroDigit(i - 1); }
  }

  lemma {:induction false} DigitsAt(v: nat, n: nat, i: nat)
    requires i < n
    ensures OctalDigits(v, n)[n - 1 - i] == DigitFromRight(v, i)
    decreases n
  {
    if i > 0 { DigitsAt(v / 8, n - 1, i - 1); }
  }

  /** `s` with `x` in place of as many bytes from `lo` on. */
  function Splice(s: seq<Byte>, lo: nat, x: seq<Byte>): (r: seq<Byte>)
    requires lo + |x| <= |s|
    ensures |r| == |s|
  {
    s[..lo] + x + s[lo + |x|..]
  }

  /** `octal_into`, for the field of `len` bytes at `lo`: the digits right-aligned before the last byte, which is left
      as it is. */
  method OctalInto(dst: array<Byte>, lo: nat, len: nat, val: nat)
    requires 0 < len && lo + len <= dst.Length
    modifies dst
    ensures dst[..] == Splice(old(dst[..]), lo, OctalDigits(val, len - 1))
  {
    hide OctalText, OctalDigits, DigitFromRight;
    var text := OctalText(val);
    var n := len - 1;
    for i := 0 to n
      invariant forall k :: lo + n - i <= k < lo + n ==> dst[k] == DigitFromRight(val, lo + n - 1 - k)
      invariant forall k :: 0 <= k < lo + n - i || lo + n <= k < dst.Length ==> dst[k] == old(dst[k])
    {
      TextDigit(val, i);
      dst[lo + n - 1 - i] := if i < |text| then text[|text| - 1 - i] else 48;
    }
    forall k | lo <= k < lo + n
      ensures dst[k] == OctalDigits(val, n)[k - lo]
    {
      DigitsAt(val, n, lo + n - 1 - k);
    }
  }

  // ----- reading octal text back -----

  lemma {:induction false} DigitsValue(v: nat, n: nat)
    requires v < Pow8(n)
    ensures OctalValue(OctalDigits(v, n)) == v
    decreases n
  {
    if n > 0 {
      DigitsValue(v / 8, n - 1);
      assert OctalDigits(v, n)[..n - 1] == OctalDigits(v / 8, n - 1);
    }
  }

  lemma {:induction false} ValueBound(b: seq<Byte>)
    requires IsOctal(b)
    ensures 0 <= OctalValue(b) < Pow8(|b|)
  {
    if b != [] { ValueBound(b[..|b| - 1]); }
  }

  lemma {:induction false} Pow8Monotone(m: nat, n: nat)
    requires m <= n
    ensures Pow8(m) <= Pow8(n)
    decreases n
  {
    if m < n { Pow8Monotone(m, n - 1); }
  }

  lemma Pow8Values()
    ensures Pow8(7) == 0x20_0000 && Pow8(11) == 0x2_0000_0000 && Pow8(12) < U64
  {
    assert Pow8(7) == 8 * 8 * 8 * 8 * 8 * 8 * 8 * Pow8(0);
    assert Pow8(11) == 8 * 8 * 8 * 8 * Pow8(7);
  }

  lemma DigitsNotWhite(c: seq<Byte>)
    requires c != [] && IsOctal(c)
    ensures !IsWhite(c)
  {
    assert 48 <= c[0] < 56;
  }

  lemma TrimStartStops(b: seq<Byte>)
    requires |b| >= 1 ==> !IsWhite(b[..1])
    requires |b| >= 2 ==> !IsWhite(b[..2])
    requires |b| >= 3 ==> !IsWhite(b[..3])
    ensures TrimStart(b) == b
  {
    hide IsWhite;
  }

  lemma TrimEndStops(b: seq<Byte>)
    requires |b| >= 1 ==> !IsWhite(b[|b| - 1..])
    requires |b| >= 2 ==> !IsWhite(b[|b| - 2..])
    requires |b| >= 3 ==> !IsWhite(b[|b| - 3..])
    ensures TrimEnd(b) == b
  {
    hide IsWhite;
  }

  /** Digits stay as they are when trimmed. */
  lemma DigitsTrimmed(b: seq<Byte>)
    requires b != [] && IsOctal(b)
    ensures TrimStart(b) == b && TrimEnd(b) == b
  {
    hide IsWhite, TrimStart, TrimEnd;
    DigitsNotWhite(b[..1]);
    DigitsNotWhite(b[|b| - 1..]);
    if |b| >= 2 {
      DigitsNotWhite(b[..2]);
      DigitsNotWhite(b[|b| - 2..]);
    }
    if |b| >= 3 {
      DigitsNotWhite(b[..3]);
      DigitsNotWhite(b[|b| - 3..]);
    }
    TrimStartStops(b);
    TrimEndStops(b);
  }

  lemma DigitsParse(b: seq<Byte>)
    requires b != [] && IsOctal(b) && |b| <= 12
    ensures ParseOctal(b) == Ok(OctalValue(b))
  {
    ValueBound(b);
    Pow8Monotone(|b|, 12);
    Pow8Values();
  }

  lemma DigitsAreText(b: seq<Byte>)
    requires IsOctal(b)
    ensures Ascii(b) && 0 !in b
  {
  }

  lemma NulEnds(digits: seq<Byte>)
    requires digits != [] && IsOctal(digits) && |digits| <= 11
    ensures OctalFrom(digits + [0]) == Ok(OctalValue(digits))
  {
    hide ValidUtf8, ParseOctal, TrimStart, TrimEnd, OctalValue, FirstNul;
    DigitsAreText(digits);
    DigitsTrimmed(digits);
    DigitsParse(digits);
    FirstNulIs(digits, []);
    assert digits + [0] + [] == digits + [0];
    assert Truncate(digits + [0]) == digits;
    AsciiIsValid(digits);
  }

  lemma WhiteEnds(digits: seq<Byte>, last: Byte)
    requires digits != [] && IsOctal(digits) && |digits| <= 11 && IsWhite([last]) && 0 < last < 0x80
    ensures OctalFrom(digits + [last]) == Ok(OctalValue(digits))
  {
    hide ValidUtf8, ParseOctal, TrimStart, TrimEnd, OctalValue, Truncate, IsWhite;
    DigitsAreText(digits);
    DigitsTrimmed(digits);
    DigitsParse(digits);
    NoNul(digits, last);
    AsciiIsValid(digits + [last]);
    LastTrimmed(digits, last);
  }

  lemma DigitEnds(digits: seq<Byte>, last: Byte)
    requires digits != [] && IsOctal(digits) && |digits| <= 11 && 48 <= last < 56
    ensures OctalFrom(digits + [last]) == Ok(8 * OctalValue(digits) + (last - 48)) && OctalValue(digits) >= 0
  {
    hide ValidUtf8, ParseOctal, TrimStart, TrimEnd, OctalValue, Truncate, IsWhite;
    OneMoreDigit(digits, last);
    DigitsAreText(digits);
    DigitsAreText(digits + [last]);
    NoNul(digits, last);
    AsciiIsValid(digits + [last]);
    DigitsTrimmed(digits + [last]);
    DigitsParse(digits + [last]);
  }

  lemma OtherEnds(digits: seq<Byte>, last: Byte)
    requires digits != [] && IsOctal(digits) && last != 0 && !IsWhite([last]) && !(48 <= last < 56)
    ensures OctalFrom(digits + [last]).Err?
  {
    hide ValidUtf8, ParseOctal, TrimStart, TrimEnd, OctalValue, Truncate, IsWhite;
    DigitsAreText(digits);
    NoNul(digits, last);
    if last >= 0x80 {
      LoneByteIsInvalid(digits, last);
    } else {
      LastTrimmed(digits, last);
      NotADigit(digits, last);
    }
  }

  /** Digits followed by one more byte read as the digits' value exactly when that byte is NUL or ASCII white space, or
      is a zero after zeros. */
  lemma FieldReads(digits: seq<Byte>, last: Byte)
    requires digits != [] && IsOctal(digits) && |digits| <= 11
    ensures OctalFrom(digits + [last]) == Ok(OctalValue(digits))
            <==> last == 0 || IsWhite([last]) || (last == 48 && OctalValue(digits) == 0)
  {
    hide OctalFrom, OctalValue;
    if last == 0 {
      NulEnds(digits);
    } else if IsWhite([last]) {
      WhiteEnds(digits, last);
    } else if 48 <= last < 56 {
      DigitEnds(digits, last);
    } else {
      OtherEnds(digits, last);
    }
  }

  lemma OneMoreDigit(digits: seq<Byte>, last: Byte)
    requires IsOctal(digits) && 48 <= last < 56
    ensures OctalValue(digits + [last]) == 8 * OctalValue(digits) + (last - 48)
    ensures OctalValue(digits) >= 0 && IsOctal(digits + [last])
  {
    assert (digits + [last])[..|digits|] == digits;
    ValueBound(digits);
  }

  lemma NoNul(digits: seq<Byte>, last: Byte)
    requires 0 !in digits && last != 0
    ensures Truncate(digits + [last]) == digits + [last]
  {
    assert 0 !in digits + [last];
  }

  /** A byte above the ASCII range at the end of digits is not UTF-8. */
  lemma {:induction false} LoneByteIsInvalid(digits: seq<Byte>, last: Byte)
    requires IsOctal(digits) && last >= 0x80
    ensures !ValidUtf8(digits + [last])
  {
    if digits != [] {
      assert (digits + [last])[1..] == digits[1..] + [last];
      LoneByteIsInvalid(digits[1..], last);
    }
  }

  lemma LastTrimmed(digits: seq<Byte>, last: Byte)
    requires digits != [] && IsOctal(digits) && last < 0x80
    ensures TrimStart(digits + [last]) == digits + [last]
    ensures IsWhite([last]) ==> TrimEnd(digits + [last]) == TrimEnd(digits)
    ensures !IsWhite([last]) ==> TrimEnd(digits + [last]) == digits + [last]
  {
    hide TrimStart, TrimEnd, IsWhite;
    var b := digits + [last];
    assert b[|b| - 1..] == [last] && b[..|b| - 1] == digits;
    NoWhiteStart(b);
    if IsWhite([last]) { WhiteEndGoes(b); } else { NoWhiteEnd(b); }
  }

  lemma NoWhiteStart(b: seq<Byte>)
    requires b != [] && 48 <= b[0] < 56
    ensures TrimStart(b) == b
  {
    hide TrimEnd, IsWhite;
    DigitIsNotWhite(b[..1]);
    if |b| >= 2 { DigitIsNotWhite(b[..2]); }
    if |b| >= 3 { DigitIsNotWhite(b[..3]); }
  }

  lemma DigitIsNotWhite(c: seq<Byte>)
    requires c != [] && 48 <= c[0] < 56
    ensures !IsWhite(c)
  {
  }

  lemma AsciiEndIsNotWhite(c: seq<Byte>)
    requires |c| >= 2 && c[|c| - 1] < 0x80
    ensures !IsWhite(c)
  {
  }

  lemma WhiteEndGoes(b: seq<Byte>)
    requires b != [] && IsWhite(b[|b| - 1..])
    ensures TrimEnd(b) == TrimEnd(b[..|b| - 1])
  {
    hide TrimStart, IsWhite;
  }

  lemma NoWhiteEnd(b: seq<Byte>)
    requires b != [] && b[|b| - 1] < 0x80 && !IsWhite(b[|b| - 1..])
    ensures TrimEnd(b) == b
  {
    hide TrimStart, IsWhite;
    if |b| >= 2 { AsciiEndIsNotWhite(b[|b| - 2..]); }
    if |b| >= 3 { AsciiEndIsNotWhite(b[|b| - 3..]); }
  }

  lemma NotADigit(digits: seq<Byte>, last: Byte)
    requires digits != [] && IsOctal(digits) && !(48 <= last < 56)
    ensures ParseOctal(digits + [last]).Err?
  {
    var b := digits + [last];
    assert b[0] == digits[0];
    assert b[|b| - 1] == last;
  }

  // ----- the binary extension -----

  /** The eight bytes of `v`, most significant first. */
  function Be(v: nat, n: nat): (b: seq<Byte>)
    ensures |b| == n
    decreases n
  {
    if n == 0 then [] else Be(v / 256, n - 1) + [v % 256]
  }

  function FromBe(b: seq<Byte>): nat {
    if b == [] then 0 else 256 * FromBe(b[..|b| - 1]) + b[|b| - 1]
  }

  lemma {:induction false} BeRoundTrip(v: nat, n: nat)
    requires v < Pow256(n)
    ensures FromBe(Be(v, n)) == v
    decreases n
  {
    if n > 0 {
      BeRoundTrip(v / 256, n - 1);
      assert Be(v, n)[..n - 1] == Be(v / 256, n - 1);
    }
  }

  function WithFlag(b: Byte): (r: Byte)
    ensures r >= 0x80 && (b >= 0x80 ==> r == b) && (b < 0x80 ==> r == b + 0x80)
  {
    if b >= 0x80 then b else b + 0x80
  }

  /** `numeric_extended_into`: the number in the last eight bytes, zeros before, and the top bit set. */
  function Extended(v: nat, len: nat): (b: seq<Byte>)
    requires len >= 8
    ensures |b| == len
  {
    var b := Zeros(len - 8) + Be(v, 8);
    b[0 := WithFlag(b[0])]
  }

  /** `numeric_extended_from`: in an eight-byte field the first byte without its top bit counts, in a longer one only
      the last eight bytes do. */
  function ExtendedFrom(b: seq<Byte>): nat
    requires |b| >= 8
  {
    if |b| == 8 then FromBe([if b[0] >= 0x80 then b[0] - 0x80 else b[0] + 0x80] + b[1..]) else FromBe(b[|b| - 8..])
  }

  lemma TwelveByteExtended(v: nat)
    requires v < U64
    ensures ExtendedFrom(Extended(v, 12)) == v
  {
    Pow256Values();
    BeRoundTrip(v, 8);
    assert Extended(v, 12)[4..] == Be(v, 8);
  }

  lemma {:induction false} FirstByteWeighs(b: seq<Byte>)
    requires b != []
    ensures FromBe(b) == b[0] * Pow256(|b| - 1) + FromBe(b[1..])
    decreases |b|
  {
    if |b| > 1 {
      var front := b[..|b| - 1];
      FirstByteWeighs(front);
      assert front[1..] == b[1..][..|b| - 2] && b[1..][|b| - 2] == b[|b| - 1];
      ScaleUp(b[0], Pow256(|b| - 2));
    }
  }

  lemma ScaleUp(x: nat, p: nat)
    ensures 256 * (x * p) == x * (256 * p)
  {
  }

  lemma {:induction false} BytesBound(b: seq<Byte>)
    ensures FromBe(b) < Pow256(|b|)
  {
    if b != [] { BytesBound(b[..|b| - 1]); }
  }

  /** In an eight-byte field the top bit is lost. */
  lemma EightByteExtended(v: nat)
    requires v < U64
    ensures ExtendedFrom(Extended(v, 8)) == v <==> v < 0x8000_0000_0000_0000
  {
    Pow256Values();
    BeRoundTrip(v, 8);
    var b := Be(v, 8);
    assert Zeros(0) + b == b;
    FirstByteWeighs(b);
    var d: seq<Byte> := [WithFlag(b[0]) - 0x80] + b[1..];
    FirstByteWeighs(d);
    assert d[1..] == b[1..];
    BytesBound(b[1..]);
    SeventhPower();
  }

  lemma SeventhPower()
    ensures Pow256(7) == 0x100_0000_0000_0000
  {
    Pow256Values();
    assert Pow256(8) == 256 * Pow256(7);
  }

  // ----- the two together -----

  predicate NeedsExtension(v: nat, len: nat) {
    v >= 0x2_0000_0000 || (v >= 0x20_0000 && len == 8)
  }

  /** What `num_field_wrapper_into` writes, from the start of a field of `len` bytes. */
  function NumText(v: nat, len: nat): (b: seq<Byte>)
    requires len >= 8
    ensures |b| <= len
  {
    if NeedsExtension(v, len) then Extended(v, len) else OctalDigits(v, len - 1)
  }

  /** The field afterwards. */
  function NumField(old_: seq<Byte>, v: nat): (b: seq<Byte>)
    requires |old_| >= 8
    ensures |b| == |old_|
  {
    Splice(old_, 0, NumText(v, |old_|))
  }

  /** `num_field_wrapper_from`. */
  function NumFieldFrom(b: seq<Byte>): Result<nat>
    requires |b| >= 8
  {
    if b[0] >= 0x80 then Ok(ExtendedFrom(b)) else OctalFrom(b)
  }

  /** `numeric_extended_into`, for the field of `len` bytes at `lo`. */
  method ExtendedInto(dst: array<Byte>, lo: nat, len: nat, src: nat)
    requires len >= 8 && lo + len <= dst.Length
    modifies dst
    ensures dst[..] == Splice(old(dst[..]), lo, Extended(src, len))
  {
    hide Be, Zeros;
    ZerosAndBe(src, len);
    var value := Zeros(len - 8) + Be(src, 8);
    for i := 0 to len
      invariant forall k :: lo <= k < lo + i ==> dst[k] == value[k - lo]
      invariant forall k :: 0 <= k < lo || lo + i <= k < dst.Length ==> dst[k] == old(dst[k])
    {
      dst[lo + i] := value[i];
    }
    dst[lo] := WithFlag(dst[lo]);
    ghost var x := Extended(src, len);
    assert forall k :: lo <= k < lo + len ==> dst[k] == x[k - lo];
    SplicedIs(old(dst[..]), dst[..], lo, x);
  }

  lemma SplicedIs(s: seq<Byte>, t: seq<Byte>, lo: nat, x: seq<Byte>)
    requires lo + |x| <= |s| == |t|
    requires forall k :: lo <= k < lo + |x| ==> t[k] == x[k - lo]
    requires forall k :: 0 <= k < lo || lo + |x| <= k < |s| ==> t[k] == s[k]
    ensures t == Splice(s, lo, x)
  {
  }

  lemma ZerosAndBe(v: nat, len: nat)
    requires len >= 8
    ensures |Zeros(len - 8) + Be(v, 8)| == len
  {
  }

  /** `num_field_wrapper_into`, for the field of `len` bytes at `lo`. */
  method NumFieldInto(dst: array<Byte>, lo: nat, len: nat, src: nat)
    requires len >= 8 && lo + len <= dst.Length && src < U64
    modifies dst
    ensures dst[..] == Splice(old(dst[..]), lo, NumText(src, len))
  {
    hide Extended, OctalDigits;
    if src >= 0x2_0000_0000 || (src >= 0x20_0000 && len == 8) {
      ExtendedInto(dst, lo, len, src);
    } else {
      OctalInto(dst, lo, len, src);
    }
  }

  /** A field reads back as the number written exactly when the number fits: for the extension, any number in twelve
      bytes and numbers below 2^63 in eight; for octal, when the byte that is left alone is NUL or white space. */
  lemma NumFieldRoundTripIff(old_: seq<Byte>, v: nat)
    requires |old_| == 8 || |old_| == 12
    requires v < U64
    ensures NumFieldFrom(NumField(old_, v)) == Ok(v)
            <==> if NeedsExtension(v, |old_|) then |old_| == 12 || v < 0x8000_0000_0000_0000
                 else old_[|old_| - 1] == 0 || IsWhite([old_[|old_| - 1]]) || (old_[|old_| - 1] == 48 && v == 0)
  {
    hide OctalFrom, Extended, ExtendedFrom, NumField;
    var n := |old_|;
    if NeedsExtension(v, n) {
      ExtendedFlag(v, n);
      ExtendedField(old_, v);
      if n == 12 { TwelveByteExtended(v); } else { EightByteExtended(v); }
    } else {
      OctalField(old_, v);
    }
  }

  lemma ExtendedField(old_: seq<Byte>, v: nat)
    requires |old_| >= 8 && NeedsExtension(v, |old_|)
    ensures NumField(old_, v) == Extended(v, |old_|)
  {
    hide Extended;
  }

  lemma OctalField(old_: seq<Byte>, v: nat)
    requires (|old_| == 8 || |old_| == 12) && !NeedsExtension(v, |old_|)
    ensures NumFieldFrom(NumField(old_, v)) == Ok(v)
            <==> old_[|old_| - 1] == 0 || IsWhite([old_[|old_| - 1]]) || (old_[|old_| - 1] == 48 && v == 0)
  {
    hide OctalFrom, OctalValue, OctalDigits, IsWhite;
    var n := |old_|;
    Pow8Values();
    DigitsValue(v, n - 1);
    FieldReads(OctalDigits(v, n - 1), old_[n - 1]);
    assert NumField(old_, v) == OctalDigits(v, n - 1) + [old_[n - 1]];
  }

  lemma ExtendedFlag(v: nat, n: nat)
    requires n >= 8
    ensures Extended(v, n)[0] >= 0x80
  {
  }

  // ----- what the bytes of a field mean -----

  /** The big-endian number in eight bytes from `at`. */
  function Be64At(b: seq<Byte>, at: nat): nat
    requires at + 8 <= |b|
  {
    b[at] as int * 0x100_0000_0000_0000 + b[at + 1] as int * 0x1_0000_0000_0000 + b[at + 2] as int * 0x100_0000_0000
    + b[at + 3] as int * 0x1_0000_0000 + b[at + 4] as int * 0x100_0000 + b[at + 5] as int * 0x1_0000
    + b[at + 6] as int * 0x100 + b[at + 7]
  }

  lemma FromBeStep(b: seq<Byte>, n: nat)
    requires n < |b|
    ensures FromBe(b[..n + 1]) == 256 * FromBe(b[..n]) + b[n] && FromBe(b[..0]) == 0
  {
    assert b[..n + 1][..n] == b[..n];
  }

  lemma FromBeAt(b: seq<Byte>)
    requires |b| == 8
    ensures FromBe(b) == Be64At(b, 0)
  {
    hide FromBe;
    FromBeStep(b, 0); FromBeStep(b, 1); FromBeStep(b, 2); FromBeStep(b, 3);
    FromBeStep(b, 4); FromBeStep(b, 5); FromBeStep(b, 6); FromBeStep(b, 7);
    assert b[..8] == b;
  }

  /** A field whose first bit is set is a big-endian number: the last eight bytes, or all eight without that bit. */
  lemma ExtendedAt(b: seq<Byte>)
    requires |b| == 8 || |b| == 12
    ensures b[0] >= 0x80 && |b| == 12 ==> NumFieldFrom(b) == Ok(Be64At(b, 4))
    ensures b[0] >= 0x80 && |b| == 8 ==> NumFieldFrom(b) == Ok(Be64At(b, 0) - 0x8000_0000_0000_0000)
    ensures b[0] < 0x80 ==> NumFieldFrom(b) == OctalFrom(b)
  {
    hide FromBe, OctalFrom;
    if b[0] >= 0x80 {
      if |b| == 12 {
        FromBeAt(b[4..]);
      } else {
        var c: seq<Byte> := [b[0] - 0x80] + b[1..];
        FromBeAt(c);
        assert forall i :: 1 <= i < 8 ==> c[i] == b[i];
      }
    }
  }

  /** Each digit weighs eight times the next, and `0` is byte 48. */
  lemma OctalWeighs(digits: seq<Byte>, d: nat)
    requires d < 8
    ensures OctalValue([]) == 0 && OctalValue(digits + [48 + d]) == 8 * OctalValue(digits) + d
    ensures IsOctal(digits + [48 + d]) <==> IsOctal(digits)
  {
    assert (digits + [48 + d])[..|digits|] == digits;
  }

  /** A plus sign may come before the digits, which have to be there and to fit 64 bits. */
  lemma ParseOctalIff(b: seq<Byte>)
    ensures var digits := if b != [] && b[0] == 43 then b[1..] else b;
            && (ParseOctal(b).Ok? <==>
                  digits != [] && IsOctal(digits) && 0 <= OctalValue(digits) < 0x1_0000_0000_0000_0000)
            && (ParseOctal(b).Ok? ==> ParseOctal(b) == Ok(OctalValue(digits)))
  {
    hide OctalValue, IsOctal;
  }

  /** The scalar values with the property `White_Space` of Unicode. */
  predicate WhiteSpace(c: int) {
    || 0x9 <= c <= 0xD || c == 0x20 || c == 0x85 || c == 0xA0 || c == 0x1680 || 0x2000 <= c <= 0x200A
    || c == 0x2028 || c == 0x2029 || c == 0x202F || c == 0x205F || c == 0x3000
  }

  lemma WhiteEncoded(c: int)
    requires WhiteSpace(c)
    ensures IsWhite(Encode(c))
  {
  }

  /** What is trimmed is exactly the encodings of those. */
  lemma WhiteIff(b: seq<Byte>)
    ensures IsWhite(b) <==> exists c :: WhiteSpace(c) && Encode(c) == b
  {
    hide Encode;
    if c :| WhiteSpace(c) && Encode(c) == b { WhiteEncoded(c); }
    if IsWhite(b) { var c := WhiteDecoded(b); }
  }

  lemma WhiteDecoded(b: seq<Byte>) returns (c: int)
    requires IsWhite(b)
    ensures WhiteSpace(c) && Encode(c) == b
  {
    if |b| == 1 {
      c := b[0];
    } else if |b| == 2 {
      c := if b[1] == 0x85 then 0x85 else 0xA0;
    } else if b[0] == 0xE1 {
      c := 0x1680;
    } else if b[0] == 0xE3 {
      c := 0x3000;
    } else if b[1] == 0x81 {
      c := 0x205F;
    } else {
      c := 0x2000 + b[2] as int - 0x80;
      assert Encode(c) == [0xE2, 0x80, b[2]];
    }
  }

  /** The single bytes that are white space: tab to carriage return, and the blank. */
  lemma WhiteBytes(c: Byte)
    ensures IsWhite([c]) <==> 9 <= c <= 13 || c == 32
  {
  }
}
