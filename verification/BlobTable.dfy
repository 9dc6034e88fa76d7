/** The blob table: `OndiskBlobTable` and its text-like encoding. */
module BlobTable {
  import opened Wrappers
  import opened Bytes
  import opened Utf8

  /** `OndiskBlobTableEntry`. */
  datatype BlobEntry = BlobEntry(blobId: Name, readaheadOffset: nat, readaheadSize: nat)

  function EntrySize(e: BlobEntry): nat {
    8 + |e.blobId|
  }

  function EntryBytes(e: BlobEntry): (b: seq<Byte>)
    ensures |b| == EntrySize(e)
  {
    Le(e.readaheadOffset % U32, 4) + Le(e.readaheadSize % U32, 4) + e.blobId
  }

  /** The entries, separated by NULs. */
  function Joined(es: seq<BlobEntry>): (b: seq<Byte>)
    ensures |b| == JoinedSize(es)
  {
    if es == [] then [] else if |es| == 1 then EntryBytes(es[0]) else EntryBytes(es[0]) + [0] + Joined(es[1..])
  }

  function JoinedSize(es: seq<BlobEntry>): nat {
    if es == [] then 0 else if |es| == 1 then EntrySize(es[0]) else EntrySize(es[0]) + 1 + JoinedSize(es[1..])
  }

  function TableBytes(es: seq<BlobEntry>): (b: seq<Byte>)
    ensures |b| == Align(JoinedSize(es))
  {
    Joined(es) + Zeros(Align(JoinedSize(es)) - JoinedSize(es))
  }

  /** `parse_string`: the text up to the first NUL and the text from there on. */
  function ParseString(buf: seq<Byte>): Result<(seq<Byte>, seq<Byte>)> {
    if !ValidUtf8(buf) then Err(Einval)
    else match FirstNul(buf)
         case Some(pos) => Ok((buf[..pos], buf[pos..]))
         case None => Ok((buf, []))
  }

  /** The entries in the bytes `input`. */
  function Parse(input: seq<Byte>): Result<seq<BlobEntry>>
    decreases |input|
  {
    if |input| < 9 then Ok([])
    else
      var text :- ParseString(input[8..]);
      var (blobId, rest) := text;
      var e := BlobEntry(blobId, FromLe(input[..4]), FromLe(input[4..8]));
      if rest == [] || rest[0] != 0 || |rest| <= 9 then Ok([e])
      else
        var es :- Parse(rest[1..]);
        Ok([e] + es)
  }

  class OndiskBlobTable {
    var entries: seq<BlobEntry>

    constructor ()
      ensures entries == []
    {
      entries := [];
    }

    /** `size`: what `store` accounts for. */
    function Size(): nat
      reads this
    {
      Align(JoinedSize(entries))
    }

    method Add(blobId: Name, readaheadOffset: nat, readaheadSize: nat) returns (index: nat)
      modifies this
      ensures entries == old(entries) + [BlobEntry(blobId, readaheadOffset, readaheadSize)] && index == |old(entries)|
    {
      entries := entries + [BlobEntry(blobId, readaheadOffset, readaheadSize)];
      index := |entries| - 1;
    }

    /** `store_inner`. */
    method Store() returns (b: seq<Byte>, size: nat)
      ensures b == TableBytes(entries) && size == |b| == Size()
    {
      hide Joined, EntryBytes;
      b, size := [], 0;
      JoinedNone();
      for i := 0 to |entries|
        invariant b + Joined(entries[i..]) == Joined(entries) && size == |b|
      {
        JoinedStep(entries, i);
        var e := entries[i];
        ghost var before := b;
        b := b + EntryBytes(e);
        if i != |entries| - 1 {
          size := size + 8 + |e.blobId| + 1;
          b := b + [0];
          assert before + (EntryBytes(e) + [0] + Joined(entries[i + 1..])) == b + Joined(entries[i + 1..]);
        } else {
          size := size + 8 + |e.blobId|;
          assert b + [] == b;
        }
      }
      assert b + [] == b;
      JoinedLength(entries);
      var padding := Align(size) - size;
      b := b + Zeros(padding);
      size := size + padding;
    }

    /** `load_from_slice`. */
    method LoadFromSlice(input: seq<Byte>) returns (r: Result<()>)
      modifies this
      ensures match Parse(input)
              case Ok(es) => r == Ok(()) && entries == old(entries) + es
              case Err(e) => r == Err(e)
    {
      hide ParseString, FromLe;
      var rest := input;
      ghost var all := Parse(input);
      ghost var done := [];
      assert all.Ok? ==> all.value == [] + all.value;
      while true
        invariant entries == old(entries) + done
        invariant all == match Parse(rest) case Ok(es) => Ok(done + es) case Err(e) => Err(e)
        decreases |rest|
      {
        if |rest| < 9 {
          assert done + [] == done;
          break;
        }
        var text := ParseString(rest[8..]);
        if text.Err? {
          return Err(text.error);
        }
        var (blobId, left) := text.value;
        ghost var e := BlobEntry(blobId, FromLe(rest[..4]), FromLe(rest[4..8]));
        entries := entries + [BlobEntry(blobId, FromLe(rest[..4]), FromLe(rest[4..8]))];
        ParsedIsShorter(rest[8..]);
        if left == [] || left[0] != 0 || |left| <= 9 {
          done := done + [e];
          break;
        }
        ghost var more := Parse(left[1..]);
        assert more.Ok? ==> done + ([e] + more.value) == (done + [e]) + more.value;
        done := done + [e];
        rest := left[1..];
      }
      r := Ok(());
    }
  }

  lemma ParsedIsShorter(buf: seq<Byte>)
    ensures ParseString(buf).Ok? ==> |ParseString(buf).value.1| <= |buf|
  {
  }

  lemma JoinedNone()
    ensures Joined([]) == []
  {
  }

  lemma JoinedLength(es: seq<BlobEntry>)
    ensures |Joined(es)| == JoinedSize(es)
  {
  }

  lemma JoinedStep(es: seq<BlobEntry>, i: nat)
    requires i < |es|
    ensures Joined(es[i..]) == if i == |es| - 1 then EntryBytes(es[i])
              else EntryBytes(es[i]) + [0] + Joined(es[i + 1..])
    ensures |EntryBytes(es[i])| == 8 + |es[i].blobId|
  {
    assert es[i..][0] == es[i] && es[i..][1..] == es[i + 1..];
  }

  // ----- what was stored loads back -----

  /** A non-empty ASCII id without NUL, and 32-bit read-ahead fields. */
  ghost predicate GoodEntry(e: BlobEntry) {
    e.blobId != [] && 0 !in e.blobId && Ascii(e.blobId) && e.readaheadOffset < U32 && e.readaheadSize < U32
  }

  /** The read-ahead fields of the entry read as text as well, since the text before it is looked for in all the
      rest. */
  ghost predicate TextEntry(e: BlobEntry) {
    Ascii(Le(e.readaheadOffset % U32, 4)) && Ascii(Le(e.readaheadSize % U32, 4))
  }

  ghost predicate Loadable(es: seq<BlobEntry>) {
    && (forall i :: 0 <= i < |es| ==> GoodEntry(es[i]))
    && (forall i :: 1 <= i < |es| ==> TextEntry(es[i]))
  }

  lemma EntryIsText(e: BlobEntry)
    requires GoodEntry(e) && TextEntry(e)
    ensures Ascii(EntryBytes(e))
  {
    hide Le;
  }

  lemma AsciiAppend(a: seq<Byte>, b: seq<Byte>)
    requires Ascii(a) && Ascii(b)
    ensures Ascii(a + b)
  {
  }

  lemma {:induction false} JoinedIsText(es: seq<BlobEntry>)
    requires forall i :: 0 <= i < |es| ==> GoodEntry(es[i]) && TextEntry(es[i])
    ensures Ascii(Joined(es))
  {
    hide EntryBytes, Ascii, TextEntry, GoodEntry;
    if es == [] {
      NothingIsText();
    } else {
      EntryIsText(es[0]);
      if |es| > 1 {
        JoinedIsText(es[1..]);
        NulIsText();
        AsciiAppend(EntryBytes(es[0]), [0]);
        AsciiAppend(EntryBytes(es[0]) + [0], Joined(es[1..]));
      }
    }
  }

  lemma NothingIsText()
    ensures Ascii([])
  {
  }

  lemma NulIsText()
    ensures Ascii([0])
  {
  }

  lemma PaddingIsText(n: nat)
    ensures Ascii(Zeros(n))
  {
  }

  /** The id of the first entry is found before the NUL or the end that follows it. */
  lemma TextFound(blobId: Name, rest: seq<Byte>)
    requires 0 !in blobId && Ascii(blobId) && Ascii(rest) && (rest != [] ==> rest[0] == 0)
    ensures ParseString(blobId + rest) == Ok((blobId, rest))
  {
    hide ValidUtf8, Ascii;
    AsciiAppend(blobId, rest);
    AsciiIsValid(blobId + rest);
    if rest == [] {
      assert blobId + rest == blobId;
    } else {
      assert blobId + rest == blobId + [0] + rest[1..];
      FirstNulIs(blobId, rest[1..]);
    }
  }

  lemma FieldsRead(e: BlobEntry, rest: seq<Byte>)
    requires GoodEntry(e)
    ensures var b := EntryBytes(e) + rest;
            && FromLe(b[..4]) == e.readaheadOffset && FromLe(b[4..8]) == e.readaheadSize && b[8..] == e.blobId + rest
  {
    hide Le, FromLe;
    Pow256Values();
    LeRoundTrip(e.readaheadOffset, 4);
    LeRoundTrip(e.readaheadSize, 4);
    LeLength(e.readaheadOffset, 4);
    LeLength(e.readaheadSize, 4);
    var b := EntryBytes(e) + rest;
    assert b[..4] == Le(e.readaheadOffset, 4);
    assert b[4..8] == Le(e.readaheadSize, 4);
    assert b[8..] == e.blobId + rest;
  }

  /** An entry's bytes: two little-endian numbers and the id. */
  lemma EntryBytesAt(e: BlobEntry)
    ensures var b := EntryBytes(e);
            && |b| == 8 + |e.blobId| && U32At(b, 0) == e.readaheadOffset % 0x1_0000_0000
            && U32At(b, 4) == e.readaheadSize % 0x1_0000_0000 && b[8..] == e.blobId
  {
    hide Le;
    LeAt(e.readaheadOffset % U32);
    LeAt(e.readaheadSize % U32);
    LeLength(e.readaheadOffset % U32, 4);
    LeLength(e.readaheadSize % U32, 4);
  }

  /** Where the `k`-th entry of a table starts. */
  function EntryStart(es: seq<BlobEntry>, k: nat): nat
    requires k <= |es|
  {
    if k == 0 then 0 else EntryStart(es, k - 1) + 9 + |es[k - 1].blobId|
  }

  lemma {:induction false} StartShifts(es: seq<BlobEntry>, k: nat)
    requires 0 < k <= |es|
    ensures EntryStart(es, k) == 9 + |es[0].blobId| + EntryStart(es[1..], k - 1)
    decreases k
  {
    if k > 1 { StartShifts(es, k - 1); }
  }

  lemma FirstStart(es: seq<BlobEntry>)
    ensures EntryStart(es, 0) == 0
  {
  }

  lemma SliceBehind(head: seq<Byte>, b: seq<Byte>, from: nat, n: nat)
    requires from + n <= |b|
    ensures (head + b)[|head| + from..|head| + from + n] == b[from..from + n]
  {
  }

  /** A stored table has its entries in order, with one NUL after each but the last, and ends in NULs. */
  lemma {:induction false} TableBytesAt(es: seq<BlobEntry>, k: nat)
    requires k < |es|
    ensures var b, from, e := TableBytes(es), EntryStart(es, k), es[k];
            && from + 8 + |e.blobId| <= |b| && U32At(b, from) == e.readaheadOffset % 0x1_0000_0000
            && U32At(b, from + 4) == e.readaheadSize % 0x1_0000_0000
            && b[from + 8..from + 8 + |e.blobId|] == e.blobId
            && (k < |es| - 1 ==> from + 8 + |e.blobId| < |b| && b[from + 8 + |e.blobId|] == 0)
            && (k == |es| - 1 ==> |b| % 8 == 0 && |b| - (from + 8 + |e.blobId|) < 8
                                  && forall i :: from + 8 + |e.blobId| <= i < |b| ==> b[i] == 0)
  {
    hide Joined, EntryBytes;
    JoinedAt(es, k);
    EntryBytesAt(es[k]);
    var j, from := Joined(es), EntryStart(es, k);
    assert j[from..from + 8 + |es[k].blobId|] == EntryBytes(es[k]);
    JoinedLength(es);
  }

  lemma {:induction false} JoinedAt(es: seq<BlobEntry>, k: nat)
    requires k < |es|
    ensures var b, from, e := Joined(es), EntryStart(es, k), es[k];
            && from + 8 + |e.blobId| <= |b| && b[from..from + 8 + |e.blobId|] == EntryBytes(e)
            && (k < |es| - 1 ==> from + 8 + |e.blobId| < |b| && b[from + 8 + |e.blobId|] == 0)
            && (k == |es| - 1 ==> |b| == from + 8 + |e.blobId|)
    decreases |es|
  {
    hide EntryBytes, Joined, EntryStart;
    JoinedStep(es, 0);
    assert es[0..] == es;
    FirstStart(es);
    if k > 0 {
      JoinedAt(es[1..], k - 1);
      StartShifts(es, k);
      var head := EntryBytes(es[0]) + [0];
      assert Joined(es) == head + Joined(es[1..]);
      SliceBehind(head, Joined(es[1..]), EntryStart(es[1..], k - 1), 8 + |es[k].blobId|);
    }
  }

  /** Loading a stored table, padding and all, gives back every entry. */
  lemma {:induction false} StoredTableLoads(es: seq<BlobEntry>, padding: nat)
    requires Loadable(es) && es != [] && padding < ALIGNMENT
    ensures Parse(Joined(es) + Zeros(padding)) == Ok(es)
    decreases |es|
  {
    hide ParseString, EntryBytes, TextEntry, Ascii;
    var e, pad := es[0], Zeros(padding);
    PaddingIsText(padding);
    JoinedStep(es, 0);
    assert es[0..] == es;
    var rest := if |es| == 1 then pad else [0] + (Joined(es[1..]) + pad);
    assert Joined(es) + pad == EntryBytes(e) + rest;
    if |es| > 1 {
      JoinedIsText(es[1..]);
      NulIsText();
      AsciiAppend(Joined(es[1..]), pad);
      AsciiAppend([0], Joined(es[1..]) + pad);
      JoinedStep(es, 1);
      StoredTableLoads(es[1..], padding);
      assert rest[1..] == Joined(es[1..]) + pad;
      assert es == [e] + es[1..];
    } else {
      assert es == [e];
    }
    ParseFirst(e, rest);
  }

  /** The first entry is read, and the next one if the rest is long enough for it. */
  lemma ParseFirst(e: BlobEntry, rest: seq<Byte>)
    requires GoodEntry(e) && Ascii(rest) && (rest != [] ==> rest[0] == 0)
    ensures |rest| <= 9 ==> Parse(EntryBytes(e) + rest) == Ok([e])
    ensures |rest| > 9 && Parse(rest[1..]).Ok? ==> Parse(EntryBytes(e) + rest) == Ok([e] + Parse(rest[1..]).value)
  {
    hide ParseString;
    FieldsRead(e, rest);
    TextFound(e.blobId, rest);
  }

  /** Storing a table and loading it in exactly the bytes that `size` accounts for. */
  lemma TableRoundTrip(es: seq<BlobEntry>)
    requires Loadable(es)
    ensures |TableBytes(es)| == Align(JoinedSize(es))
    ensures Parse(TableBytes(es)) == Ok(es)
  {
    hide Parse, Joined, Loadable;
    if es == [] {
      EmptyTable();
    } else {
      StoredTableLoads(es, Align(JoinedSize(es)) - JoinedSize(es));
    }
  }

  lemma EmptyTable()
    ensures Parse(TableBytes([])) == Ok([])
  {
  }
}
