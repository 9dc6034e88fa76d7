/** Extended attributes on disk: `XAttrs::store_inner` and `parse_xattr`. */
module XAttrs {
  import opened Wrappers
  import opened Bytes

  type Pair = (Name, seq<Byte>)

  function PairSize(p: Pair): nat {
    |p.0| + 1 + |p.1|
  }

  function PairBytes(p: Pair): (b: seq<Byte>)
    ensures |b| == 4 + PairSize(p)
  {
    Le(PairSize(p) % U32, 4) + p.0 + [0] + p.1
  }

  function AllPairs(ps: seq<Pair>): (b: seq<Byte>)
    ensures |b| == XattrSize(ps)
  {
    if ps == [] then [] else PairBytes(ps[0]) + AllPairs(ps[1..])
  }

  /** `XAttrs::size`: four bytes of length, the key, a NUL and the value of every pair. */
  function XattrSize(ps: seq<Pair>): nat {
    if ps == [] then 0 else 4 + PairSize(ps[0]) + XattrSize(ps[1..])
  }

  /** The bytes of a stored attribute list, padded to the alignment. */
  function XattrBytes(ps: seq<Pair>): (b: seq<Byte>)
    ensures |b| == if ps == [] then 0 else 8 + Align(XattrSize(ps))
  {
    if ps == [] then [] else Le(XattrSize(ps) % U64, 8) + AllPairs(ps) + Zeros(Align(XattrSize(ps)) - XattrSize(ps))
  }

  lemma {:induction false} AllPairsAppend(ps: seq<Pair>, p: Pair)
    ensures AllPairs(ps + [p]) == AllPairs(ps) + PairBytes(p)
    ensures XattrSize(ps + [p]) == XattrSize(ps) + 4 + PairSize(p)
  {
    hide PairBytes;
    if ps == [] {
      assert ps + [p] == [p] && [p][1..] == [];
      assert AllPairs([p]) == PairBytes(p) + AllPairs([]);
    } else {
      assert (ps + [p])[1..] == ps[1..] + [p];
      AllPairsAppend(ps[1..], p);
    }
  }

  /** The body of the loop in `store_inner`: the bytes with one more pair written, and how many that were. */
  method StorePair(b: seq<Byte>, p: Pair) returns (b': seq<Byte>, size: nat)
    ensures b' == b + PairBytes(p) && size == 4 + PairSize(p)
  {
    hide Le;
    var pairSize := |p.0| + 1 + |p.1|;
    LeLength(pairSize % U32, 4);
    b' := b + Le(pairSize % U32, 4);
    size := 4;
    b' := b' + p.0 + [0];
    size := size + |p.0| + 1;
    b' := b' + p.1;
    size := size + |p.1|;
    assert b' == b + PairBytes(p);
  }

  /** `XAttrs::store_inner`. */
  method StoreXattrs(ps: seq<Pair>) returns (b: seq<Byte>, size: nat)
    ensures b == XattrBytes(ps) && size == |b|
  {
    hide AllPairs, PairBytes, Le, PairSize, XattrSize, Align, XattrBytes;
    b, size := [], 0;
    if ps != [] {
      b := Le(XattrSize(ps) % U64, 8);
      size := 8;
      ghost var head := b;
      LeLength(XattrSize(ps) % U64, 8);
      NoPairs();
      assert head + [] == head;
      for i := 0 to |ps|
        invariant b == head + AllPairs(ps[..i]) && size == |b|
      {
        assert ps[..i + 1] == ps[..i] + [ps[i]];
        AllPairsAppend(ps[..i], ps[i]);
        PairLength(ps[i]);
        var written;
        ghost var before := b;
        b, written := StorePair(b, ps[i]);
        assert before + PairBytes(ps[i]) == head + (AllPairs(ps[..i]) + PairBytes(ps[i]));
        size := size + written;
      }
      assert ps[..|ps|] == ps;
    }
    ListIs(ps, b);
    AlignGrows(size);
    var padding := Align(size) - size;
    b := b + Zeros(padding);
    size := size + padding;
  }

  /** A list is stored with zeros up to the next multiple of eight. */
  lemma ListIs(ps: seq<Pair>, b: seq<Byte>)
    requires b == if ps == [] then [] else Le(XattrSize(ps) % U64, 8) + AllPairs(ps)
    ensures Align(|b|) >= |b| && XattrBytes(ps) == b + Zeros(Align(|b|) - |b|)
  {
    hide AllPairs, Le, Align, XattrSize;
    PairsLength(ps);
    LeLength(XattrSize(ps) % U64, 8);
    AlignShift(XattrSize(ps));
    assert [] + Zeros(0) == [];
  }

  lemma AlignShift(n: nat)
    ensures Align(8 + n) == 8 + Align(n) && Align(n) >= n && Align(0) == 0
  {
  }

  lemma AlignGrows(size: nat)
    ensures Align(size) >= size
  {
  }

  lemma PairLength(p: Pair)
    ensures |PairBytes(p)| == 4 + PairSize(p)
  {
  }

  lemma NoPairs()
    ensures AllPairs([]) == []
  {
  }

  lemma PairsLength(ps: seq<Pair>)
    ensures |AllPairs(ps)| == XattrSize(ps)
  {
  }

  // ----- parsing -----

  /** The pairs in the bytes `rest`: a pair without a NUL is passed over. A length that overruns the data, on which the
      source panics, is an error. */
  function Parse(rest: seq<Byte>): Result<seq<Pair>>
    decreases |rest|
  {
    if rest == [] then Ok([])
    else if |rest| < 4 then Err(Einval)
    else
      var size := FromLe(rest[..4]);
      if |rest| < 4 + size then Err(Einval)
      else
        var pair := rest[4..4 + size];
        var pairs :- Parse(rest[4 + size..]);
        match FirstNul(pair)
        case Some(pos) => Ok([(pair[..pos], pair[pos + 1..])] + pairs)
        case None => Ok(pairs)
  }

  /** `parse_xattr`, collecting every pair. */
  method ParseXattr(data: seq<Byte>, size: nat) returns (r: Result<seq<Pair>>)
    requires size <= |data|
    ensures r == Parse(data[..size])
  {
    var i, rest, pairs := 0, data[..size], [];
    assert Parse(rest).Ok? ==> [] + Parse(rest).value == Parse(rest).value;
    while i < size
      invariant i + |rest| == size
      invariant Parse(data[..size]) == match Parse(rest) case Ok(more) => Ok(pairs + more) case Err(e) => Err(e)
    {
      if |rest| < 4 {
        return Err(Einval);
      }
      var pairSize := FromLe(rest[..4]);
      i := i + 4;
      if |rest| < 4 + pairSize {
        return Err(Einval);
      }
      var pair := rest[4..4 + pairSize];
      ghost var more := Parse(rest[4 + pairSize..]);
      var pos := FirstNul(pair);
      if pos.Some? {
        var p := (pair[..pos.value], pair[pos.value + 1..]);
        assert more.Ok? ==> pairs + ([p] + more.value) == (pairs + [p]) + more.value;
        pairs := pairs + [p];
      }
      i := i + pairSize;
      rest := rest[4 + pairSize..];
    }
    assert pairs + [] == pairs;
    r := Ok(pairs);
  }

  /** Keys without NUL, and pairs whose length fits its field. */
  predicate Storable(ps: seq<Pair>) {
    forall i :: 0 <= i < |ps| ==> 0 !in ps[i].0 && PairSize(ps[i]) < U32
  }

  lemma ParseOne(p: Pair, rest: seq<Byte>)
    requires 0 !in p.0 && PairSize(p) < U32
    ensures var b := PairBytes(p) + rest;
            && |b| >= 4 && FromLe(b[..4]) == PairSize(p) && b[4 + PairSize(p)..] == rest
            && b[4..4 + PairSize(p)] == p.0 + [0] + p.1
            && FirstNul(p.0 + [0] + p.1) == Some(|p.0|)
            && (p.0 + [0] + p.1)[..|p.0|] == p.0 && (p.0 + [0] + p.1)[|p.0| + 1..] == p.1
  {
    hide Le, FromLe, FirstNul;
    Pow256Values();
    LeRoundTrip(PairSize(p), 4);
    LeLength(PairSize(p), 4);
    FirstNulIs(p.0, p.1);
    assert (PairBytes(p) + rest)[..4] == Le(PairSize(p), 4);
  }

  /** Parsing what was stored gives back every pair, in order. */
  lemma {:induction false} ParseStored(ps: seq<Pair>)
    requires Storable(ps)
    ensures Parse(AllPairs(ps)) == Ok(ps)
  {
    hide FirstNul, PairBytes;
    if ps != [] {
      ParseOne(ps[0], AllPairs(ps[1..]));
      ParseStored(ps[1..]);
      assert ps == [ps[0]] + ps[1..];
    }
  }

  lemma Parts(a: seq<Byte>, b: seq<Byte>, c: seq<Byte>)
    ensures (a + b + c)[..|a|] == a && (a + b + c)[|a|..][..|b|] == b
  {
  }

  /** The size field counts exactly the pairs, and the padding is accounted for. */
  lemma StoredSize(ps: seq<Pair>)
    requires ps != [] && XattrSize(ps) < U64
    ensures FromLe(XattrBytes(ps)[..8]) == XattrSize(ps)
    ensures XattrBytes(ps)[8..][..XattrSize(ps)] == AllPairs(ps)
    ensures |XattrBytes(ps)| == 8 + Align(XattrSize(ps))
  {
    hide Le, FromLe, AllPairs;
    Pow256Values();
    LeRoundTrip(XattrSize(ps), 8);
    PairsLength(ps);
    LeLength(XattrSize(ps), 8);
    Parts(Le(XattrSize(ps), 8), AllPairs(ps), Zeros(Align(XattrSize(ps)) - XattrSize(ps)));
  }

  /** Where the `k`-th pair of a stored list starts. */
  function PairStart(ps: seq<Pair>, k: nat): nat
    requires k <= |ps|
  {
    if k == 0 then 8 else PairStart(ps, k - 1) + 5 + |ps[k - 1].0| + |ps[k - 1].1|
  }

  lemma {:induction false} StartShifts(ps: seq<Pair>, k: nat)
    requires 0 < k <= |ps|
    ensures PairStart(ps, k) == 5 + |ps[0].0| + |ps[0].1| + PairStart(ps[1..], k - 1)
    decreases k
  {
    if k > 1 { StartShifts(ps, k - 1); }
  }

  /** A pair's bytes: the length of all that follows, the key, a NUL and the value. */
  lemma PairBytesAt(p: Pair)
    requires |p.0| + 1 + |p.1| < 0x1_0000_0000
    ensures var b, n := PairBytes(p), |p.0|;
            && |b| == 5 + n + |p.1| && U32At(b, 0) == n + 1 + |p.1|
            && b[4..4 + n] == p.0 && b[4 + n] == 0 && b[5 + n..] == p.1
  {
    hide Le, U32At;
    LeAt(PairSize(p));
    LeLength(PairSize(p), 4);
    Prefix32(Le(PairSize(p), 4), p.0 + [0] + p.1);
    assert PairBytes(p) == Le(PairSize(p), 4) + (p.0 + [0] + p.1);
  }

  lemma Prefix32(head: seq<Byte>, rest: seq<Byte>)
    requires |head| == 4
    ensures U32At(head + rest, 0) == U32At(head, 0)
  {
  }

  lemma {:induction false} PairsAt(ps: seq<Pair>, k: nat)
    requires k < |ps|
    ensures var b, from := AllPairs(ps), PairStart(ps, k) - 8;
            0 <= from <= from + 4 + PairSize(ps[k]) <= |b| && b[from..from + 4 + PairSize(ps[k])] == PairBytes(ps[k])
    decreases k
  {
    hide PairBytes;
    if k > 0 {
      PairsAt(ps[1..], k - 1);
      StartShifts(ps, k);
      assert AllPairs(ps)[4 + PairSize(ps[0])..] == AllPairs(ps[1..]);
    }
  }

  lemma {:induction false} AllPairsEnd(ps: seq<Pair>, k: nat)
    requires k <= |ps|
    ensures PairStart(ps, k) == 8 + XattrSize(ps[..k])
  {
    hide PairBytes;
    if k > 0 {
      AllPairsEnd(ps, k - 1);
      assert ps[..k] == ps[..k - 1] + [ps[k - 1]];
      AllPairsAppend(ps[..k - 1], ps[k - 1]);
    } else {
      assert ps[..0] == [];
    }
  }

  /** The pair `p` is stored at the place `from`. */
  ghost predicate PairAt(b: seq<Byte>, from: nat, p: Pair) {
    var n := |p.0|;
    && from + 5 + n + |p.1| <= |b| && U32At(b, from) == n + 1 + |p.1|
    && b[from + 4..from + 4 + n] == p.0 && b[from + 4 + n] == 0 && b[from + 5 + n..from + 5 + n + |p.1|] == p.1
  }

  lemma PairIsAt(b: seq<Byte>, from: nat, p: Pair)
    requires |p.0| + 1 + |p.1| < 0x1_0000_0000 && from + 5 + |p.0| + |p.1| <= |b|
    requires b[from..from + 5 + |p.0| + |p.1|] == PairBytes(p)
    ensures PairAt(b, from, p)
  {
    hide PairBytes;
    PairBytesAt(p);
    var s := PairBytes(p);
    assert forall i :: 0 <= i < |s| ==> s[i] == b[from + i];
    assert s[4..4 + |p.0|] == b[from + 4..from + 4 + |p.0|];
    assert s[5 + |p.0|..] == b[from + 5 + |p.0|..from + 5 + |p.0| + |p.1|];
  }

  lemma ListEnd(ps: seq<Pair>)
    requires ps != []
    ensures var b := XattrBytes(ps);
            |b| % 8 == 0 && 0 <= |b| - (8 + XattrSize(ps)) < 8 && forall i :: 8 + XattrSize(ps) <= i < |b| ==> b[i] == 0
  {
    hide Le, AllPairs;
    PairsLength(ps);
    LeLength(XattrSize(ps) % U64, 8);
  }

  lemma ListHead(ps: seq<Pair>)
    requires ps != [] && XattrSize(ps) < U64
    ensures var b := XattrBytes(ps);
            && |b| >= 8 + |AllPairs(ps)| && U64At(b, 0) == XattrSize(ps) && b[8..8 + |AllPairs(ps)|] == AllPairs(ps)
  {
    hide Le, AllPairs;
    PairsLength(ps);
    LeAt(XattrSize(ps));
    LeLength(XattrSize(ps), 8);
  }

  /** A stored list starts with its length, and has its pairs one after the other. */
  lemma XattrBytesAt(ps: seq<Pair>, k: nat)
    requires k < |ps| && |ps[k].0| + 1 + |ps[k].1| < 0x1_0000_0000 && PairStart(ps, |ps|) < 0x1_0000_0000_0000_0000
    ensures var b := XattrBytes(ps);
            && |b| >= 8 && U64At(b, 0) == PairStart(ps, |ps|) - 8 && PairAt(b, PairStart(ps, k), ps[k])
            && |b| % 8 == 0 && |b| - PairStart(ps, |ps|) < 8 && forall i :: PairStart(ps, |ps|) <= i < |b| ==> b[i] == 0
  {
    hide AllPairs, PairBytes, XattrBytes, XattrSize, PairAt, U64At, U32At, Align;
    AllPairsEnd(ps, |ps|);
    assert ps[..|ps|] == ps;
    ListHead(ps);
    ListEnd(ps);
    PairsAt(ps, k);
    var b, from, n := XattrBytes(ps), PairStart(ps, k), 4 + PairSize(ps[k]);
    SliceOfSlice(b, 8, 8 + |AllPairs(ps)|, from, from + n);
    PairIsAt(b, from, ps[k]);
  }
}
