/** Well-formed UTF-8, as `std::str::from_utf8` and `OsStr::to_str` accept it. */
module Utf8 {
  import opened Bytes

  predicate Tail(b: seq<Byte>, n: nat) {
    |b| > n && forall i :: 1 <= i <= n ==> 0x80 <= b[i] < 0xC0
  }

  /** The length of the first character, 0 if there is none. */
  function CharLen(b: seq<Byte>): (n: nat)
    ensures n <= |b|
  {
    if b == [] then 0
    else if b[0] < 0x80 then 1
    else if 0xC2 <= b[0] < 0xE0 && Tail(b, 1) then 2
    else if 0xE0 <= b[0] < 0xF0 && Tail(b, 2)
            && (b[0] == 0xE0 ==> b[1] >= 0xA0) && (b[0] == 0xED ==> b[1] < 0xA0) then 3
    else if 0xF0 <= b[0] < 0xF5 && Tail(b, 3)
            && (b[0] == 0xF0 ==> b[1] >= 0x90) && (b[0] == 0xF4 ==> b[1] < 0x90) then 4
    else 0
  }

  predicate ValidUtf8(b: seq<Byte>) {
    b == [] || (CharLen(b) > 0 && ValidUtf8(b[CharLen(b)..]))
  }

  ghost predicate Ascii(b: seq<Byte>) {
    forall i :: 0 <= i < |b| ==> b[i] < 0x80
  }

  lemma {:induction false} AsciiIsValid(b: seq<Byte>)
    requires Ascii(b)
    ensures ValidUtf8(b)
  {
    if b != [] { AsciiIsValid(b[1..]); }
  }

  // ----- what well-formed UTF-8 is -----

  /** A Unicode scalar value. */
  predicate Scalar(c: int) {
    0 <= c < 0xD800 || 0xE000 <= c < 0x11_0000
  }

  /** Its encoding, section 3 of RFC 3629. */
  function Encode(c: int): (b: seq<Byte>)
    requires Scalar(c)
    ensures b != []
  {
    if c < 0x80 then [c]
    else if c < 0x800 then [0xC0 + c / 0x40, 0x80 + c % 0x40]
    else if c < 0x1_0000 then [0xE0 + c / 0x1000, 0x80 + c / 0x40 % 0x40, 0x80 + c % 0x40]
    else [0xF0 + c / 0x4_0000, 0x80 + c / 0x1000 % 0x40, 0x80 + c / 0x40 % 0x40, 0x80 + c % 0x40]
  }

  ghost predicate Scalars(cs: seq<int>) {
    forall i :: 0 <= i < |cs| ==> Scalar(cs[i])
  }

  ghost function EncodeAll(cs: seq<int>): seq<Byte>
    requires Scalars(cs)
  {
    if cs == [] then [] else Encode(cs[0]) + EncodeAll(cs[1..])
  }

  lemma Six(y: nat, z: nat)
    requires z < 0x40
    ensures (y * 0x40 + z) / 0x40 == y && (y * 0x40 + z) % 0x40 == z
  {
  }

  lemma SixBits(w: nat, x: nat, y: nat, z: nat)
    requires x < 0x40 && y < 0x40 && z < 0x40
    ensures var c := w * 0x4_0000 + x * 0x1000 + y * 0x40 + z;
            c / 0x4_0000 == w && c / 0x1000 == w * 0x40 + x && c / 0x1000 % 0x40 == x
            && c / 0x40 % 0x40 == y && c % 0x40 == z
  {
    var c := w * 0x4_0000 + x * 0x1000 + y * 0x40 + z;
    var c1 := w * 0x1000 + x * 0x40 + y;
    var c2 := w * 0x40 + x;
    Six(c1, z);
    Six(c2, y);
    Six(w, x);
    assert c == c1 * 0x40 + z && c1 == c2 * 0x40 + y;
    assert c / 0x40 == c1 && c1 / 0x40 == c2 && c2 / 0x40 == w;
    Twice(c);
  }

  lemma Twice(c: nat)
    ensures c / 0x1000 == c / 0x40 / 0x40 && c / 0x4_0000 == c / 0x40 / 0x40 / 0x40
  {
  }

  lemma Decoded3(b: seq<Byte>) returns (c: int)
    requires CharLen(b) == 3
    ensures Scalar(c) && Encode(c) == b[..3]
  {
    var x, y, z := b[0] as int - 0xE0, b[1] as int - 0x80, b[2] as int - 0x80;
    c := x * 0x1000 + y * 0x40 + z;
    SixBits(0, x, y, z);
  }

  lemma Decoded4(b: seq<Byte>) returns (c: int)
    requires CharLen(b) == 4
    ensures Scalar(c) && Encode(c) == b[..4]
  {
    var w, x, y, z := b[0] as int - 0xF0, b[1] as int - 0x80, b[2] as int - 0x80, b[3] as int - 0x80;
    c := w * 0x4_0000 + x * 0x1000 + y * 0x40 + z;
    SixBits(w, x, y, z);
  }

  /** The character that the first bytes encode. */
  lemma Decoded(b: seq<Byte>) returns (c: int)
    requires CharLen(b) > 0
    ensures Scalar(c) && Encode(c) == b[..CharLen(b)]
  {
    var n := CharLen(b);
    if n == 1 {
      c := b[0];
    } else if n == 2 {
      c := (b[0] as int - 0xC0) * 0x40 + (b[1] as int - 0x80);
    } else if n == 3 {
      c := Decoded3(b);
    } else {
      c := Decoded4(b);
    }
  }

  lemma EncodedLength(c: int, rest: seq<Byte>)
    requires Scalar(c)
    ensures CharLen(Encode(c) + rest) == |Encode(c)|
  {
  }

  lemma {:induction false} ValidIsEncoded(b: seq<Byte>) returns (cs: seq<int>)
    requires ValidUtf8(b)
    ensures Scalars(cs) && EncodeAll(cs) == b
    decreases |b|
  {
    hide CharLen, Encode;
    cs := [];
    if b != [] {
      var c := Decoded(b);
      var rest := ValidIsEncoded(b[CharLen(b)..]);
      cs := [c] + rest;
      assert cs[1..] == rest;
    }
  }

  lemma {:induction false} EncodedIsValid(cs: seq<int>)
    requires Scalars(cs)
    ensures ValidUtf8(EncodeAll(cs))
  {
    hide CharLen, Encode;
    if cs != [] {
      EncodedIsValid(cs[1..]);
      EncodedLength(cs[0], EncodeAll(cs[1..]));
      assert EncodeAll(cs)[|Encode(cs[0])|..] == EncodeAll(cs[1..]);
    }
  }

  /** The bytes that are accepted are exactly the encodings of sequences of scalar values. */
  lemma ValidIff(b: seq<Byte>)
    ensures ValidUtf8(b) <==> exists cs :: Scalars(cs) && EncodeAll(cs) == b
  {
    hide ValidUtf8, EncodeAll;
    if ValidUtf8(b) { var cs := ValidIsEncoded(b); }
    if cs :| Scalars(cs) && EncodeAll(cs) == b { EncodedIsValid(cs); }
  }
}
