/** Bytes, little-endian integers, byte-wise string order and the 8-byte alignment used by every other module. */
module Bytes {
  import opened Wrappers

  type Byte = b: int | 0 <= b < 256
  type Name = seq<Byte>

  const U32: nat := 0x1_0000_0000
  type Word = w: nat | w < U32

  const U64: nat := 0x1_0000_0000_0000_0000

  // ----- alignment -----

  const ALIGNMENT := 8

  /** `align_to_rafs`: round up to the next multiple of 8. */
  function Align(size: nat): (r: nat)
    ensures r % ALIGNMENT == 0
    ensures size <= r < size + ALIGNMENT
  {
    if size % ALIGNMENT == 0 then size else size + (ALIGNMENT - size % ALIGNMENT)
  }

  const DIGEST_SIZE := 32

  /** `RafsDigest`, whose default is all zeros. */
  type RafsDigest = d: seq<Byte> | |d| == DIGEST_SIZE witness seq(DIGEST_SIZE, _ => 0)

  function Zeros(n: nat): (z: seq<Byte>)
    ensures |z| == n
  {
    seq(n, _ => 0)
  }

  // ----- little-endian integers -----

  /** The `n` low bytes of `v`, least significant first (`to_le_bytes`). */
  function Le(v: nat, n: nat): (b: seq<Byte>)
    ensures |b| == n
    decreases n
  {
    if n == 0 then [] else [v % 256] + Le(v / 256, n - 1)
  }

  /** `from_le_bytes`. */
  function FromLe(b: seq<Byte>): nat {
    if b == [] then 0 else b[0] + 256 * FromLe(b[1..])
  }

  function Pow256(n: nat): (p: nat)
    ensures p > 0
  {
    if n == 0 then 1 else 256 * Pow256(n - 1)
  }

  lemma {:induction false} LeRoundTrip(v: nat, n: nat)
    requires v < Pow256(n)
    ensures FromLe(Le(v, n)) == v
    decreases n
  {
    if n > 0 {
      LeRoundTrip(v / 256, n - 1);
      assert Le(v, n)[1..] == Le(v / 256, n - 1);
    }
  }

  lemma Pow256Values()
    ensures Pow256(2) == 0x1_0000
    ensures Pow256(4) == U32
    ensures Pow256(8) == U64
  {
    assert Pow256(4) == 256 * 256 * 256 * 256 * Pow256(0);
    assert Pow256(8) == 256 * 256 * 256 * 256 * Pow256(4);
  }

  lemma LeLength(v: nat, n: nat)
    ensures |Le(v, n)| == n
  {
  }

  lemma SliceOfSlice(s: seq<Byte>, lo: nat, hi: nat, a: nat, b: nat)
    requires lo <= a <= b <= hi <= |s|
    ensures s[lo..hi][a - lo..b - lo] == s[a..b]
  {
    var t := s[lo..hi];
    forall k | 0 <= k < b - a
      ensures t[a - lo..b - lo][k] == s[a..b][k]
    {
      assert t[a - lo + k] == s[a + k];
    }
  }

  // ----- numbers at fixed places -----

  /** The little-endian number in two, four or eight bytes from `at`. */
  function U16At(b: seq<Byte>, at: nat): nat
    requires at + 2 <= |b|
  {
    b[at] as int + 0x100 * (b[at + 1] as int)
  }

  function U32At(b: seq<Byte>, at: nat): nat
    requires at + 4 <= |b|
  {
    U16At(b, at) + 0x1_0000 * U16At(b, at + 2)
  }

  function U64At(b: seq<Byte>, at: nat): nat
    requires at + 8 <= |b|
  {
    U32At(b, at) + 0x1_0000_0000 * U32At(b, at + 4)
  }

  /** `FromLe` reads them. */
  lemma FromLeAt(b: seq<Byte>, at: nat)
    ensures at + 2 <= |b| ==> FromLe(b[at..at + 2]) == U16At(b, at)
    ensures at + 4 <= |b| ==> FromLe(b[at..at + 4]) == U32At(b, at)
    ensures at + 8 <= |b| ==> FromLe(b[at..at + 8]) == U64At(b, at)
  {
    if at + 2 <= |b| { FromLePair(b[at..at + 2]); }
    if at + 4 <= |b| {
      var s := b[at..at + 4];
      FromLePair(s);
      FromLePair(s[2..]);
    }
    if at + 8 <= |b| {
      var s := b[at..at + 8];
      FromLePair(s);
      FromLePair(s[2..]);
      FromLePair(s[4..]);
      FromLePair(s[6..]);
      assert s[2..][2..] == s[4..] && s[4..][2..] == s[6..];
    }
  }

  /** `Le` writes them. */
  lemma LeAt(v: nat)
    ensures v < 0x1_0000 ==> U16At(Le(v, 2), 0) == v
    ensures v < 0x1_0000_0000 ==> U32At(Le(v, 4), 0) == v
    ensures v < 0x1_0000_0000_0000_0000 ==> U64At(Le(v, 8), 0) == v
  {
    hide Le, FromLe;
    Pow256Values();
    if v < 0x1_0000 {
      LeRoundTrip(v, 2);
      FromLeAt(Le(v, 2), 0);
      assert Le(v, 2)[0..2] == Le(v, 2);
    }
    if v < 0x1_0000_0000 {
      LeRoundTrip(v, 4);
      FromLeAt(Le(v, 4), 0);
      assert Le(v, 4)[0..4] == Le(v, 4);
    }
    if v < 0x1_0000_0000_0000_0000 {
      LeRoundTrip(v, 8);
      FromLeAt(Le(v, 8), 0);
      assert Le(v, 8)[0..8] == Le(v, 8);
    }
  }

  lemma FromLePair(s: seq<Byte>)
    requires |s| >= 2
    ensures FromLe(s) == s[0] + 0x100 * s[1] + 0x1_0000 * FromLe(s[2..])
  {
    assert s[1..][1..] == s[2..];
  }

  /** The position of the first NUL. */
  function FirstNul(b: seq<Byte>): (r: Option<nat>)
    ensures r.Some? ==> r.value < |b| && b[r.value] == 0 && 0 !in b[..r.value]
    ensures r.None? ==> 0 !in b
  {
    if b == [] then None
    else if b[0] == 0 then Some(0)
    else match FirstNul(b[1..])
         case Some(i) => assert b[..i + 1] == [b[0]] + b[1..][..i]; Some(i + 1)
         case None => assert b == [b[0]] + b[1..]; None
  }

  lemma {:induction false} FirstNulIs(key: seq<Byte>, rest: seq<Byte>)
    requires 0 !in key
    ensures FirstNul(key + [0] + rest) == Some(|key|)
  {
    if key != [] {
      assert (key + [0] + rest)[1..] == key[1..] + [0] + rest;
      FirstNulIs(key[1..], rest);
    }
  }

  // ----- byte-wise order of names (`OsStr` comparison) -----

  predicate Less(a: Name, b: Name) {
    b != [] && (a == [] || a[0] < b[0] || (a[0] == b[0] && Less(a[1..], b[1..])))
  }

  /** `a` and `b` differ first at position `i`, where `a` has the smaller byte; or `a` ends there. */
  ghost predicate LessAt(a: Name, b: Name, i: nat) {
    i <= |a| && i < |b| && a[..i] == b[..i] && (i == |a| || a[i] < b[i])
  }

  /** The order is lexicographic. */
  lemma {:induction false} LessIff(a: Name, b: Name)
    ensures Less(a, b) <==> exists i: nat :: LessAt(a, b, i)
  {
    if a != [] && b != [] && a[0] == b[0] {
      LessIff(a[1..], b[1..]);
      forall i: nat
        ensures LessAt(a, b, i) <==> i > 0 && LessAt(a[1..], b[1..], i - 1)
      {
        if i > 0 && i <= |a| && i < |b| {
          assert a[..i] == [a[0]] + a[1..][..i - 1] && b[..i] == [b[0]] + b[1..][..i - 1];
        }
      }
      if i: nat :| LessAt(a[1..], b[1..], i) { assert LessAt(a, b, i + 1); }
    } else {
      if Less(a, b) { assert LessAt(a, b, 0); }
      if i: nat :| LessAt(a, b, i) {
        if i > 0 { assert a[..i][0] == b[..i][0]; }
      }
    }
  }

  lemma {:induction false} LessIrreflexive(a: Name)
    ensures !Less(a, a)
  {
    if a != [] { LessIrreflexive(a[1..]); }
  }

  lemma {:induction false} LessTotal(a: Name, b: Name)
    ensures a == b || Less(a, b) || Less(b, a)
  {
    if a != [] && b != [] && a[0] == b[0] {
      LessTotal(a[1..], b[1..]);
      assert a == [a[0]] + a[1..] && b == [b[0]] + b[1..];
    }
  }

  lemma {:induction false} LessTransitive(a: Name, b: Name, c: Name)
    requires Less(a, b) && Less(b, c)
    ensures Less(a, c)
  {
    if a != [] && a[0] == b[0] == c[0] {
      LessTransitive(a[1..], b[1..], c[1..]);
    }
  }

  lemma LessAsymmetric(a: Name, b: Name)
    requires Less(a, b)
    ensures !Less(b, a)
  {
    if Less(b, a) {
      LessTransitive(a, b, a);
      LessIrreflexive(a);
    }
  }
}
