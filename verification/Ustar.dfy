/** ustar headers: a path of up to 255 bytes in two fields, split at a component boundary (POSIX `pax`, section "ustar
    Interchange Format"). */
module Ustar {
  import opened Wrappers
  import opened Bytes
  import opened TarFields
  import opened TarPaths

  const HEADER_SIZE := 512
  const NAME_END := 100
  const PREFIX := 345
  const PREFIX_END := 500

  type Header = h: seq<Byte> | |h| == HEADER_SIZE witness Zeros(HEADER_SIZE)

  // ----- parents -----

  /** A path without its trailing separators and `.` components. */
  function TrimTail(p: seq<Byte>): (r: seq<Byte>)
    ensures |r| <= |p|
  {
    if |p| >= 2 && p[|p| - 1] == SLASH then TrimTail(p[..|p| - 1])
    else if |p| >= 2 && p[|p| - 1] == 46 && p[|p| - 2] == SLASH then TrimTail(p[..|p| - 1])
    else p
  }

  /** A path without what follows its last slash. */
  function DropLast(p: seq<Byte>): (r: seq<Byte>)
    ensures |r| <= |p|
    ensures p != [] && p[|p| - 1] != SLASH ==> |r| < |p|
  {
    if p == [] || p[|p| - 1] == SLASH then p else DropLast(p[..|p| - 1])
  }

  /** `Path::parent`. */
  function Parent(p: seq<Byte>): (r: Option<seq<Byte>>)
    ensures r.Some? ==> |r.value| < |p|
  {
    var q := TrimTail(p);
    if q == [] || q[|q| - 1] == SLASH then None else Some(TrimTail(DropLast(q)))
  }

  /** The longest ancestor that fits the prefix field. */
  function FittingParent(p: seq<Byte>): (r: Option<seq<Byte>>)
    ensures r.Some? ==> |r.value| < |p| && |r.value| <= PREFIX_END - PREFIX
    decreases |p|
  {
    match Parent(p)
    case None => None
    case Some(q) => if |q| <= PREFIX_END - PREFIX then Some(q) else FittingParent(q)
  }

  // ----- the two fields -----

  /** `UstarHeader::path_bytes`. */
  function PathBytes(h: Header): seq<Byte> {
    var name, prefix := h[..NAME_END], h[PREFIX..PREFIX_END];
    if prefix[0] == 0 && 92 !in name then Truncate(name)
    else if Truncate(prefix) != [] then Truncate(prefix) + [SLASH] + Truncate(name)
    else Truncate(name)
  }

  /** What goes where: nothing into the prefix for a path that fits the name field. */
  predicate Fits(text: Result<seq<Byte>>, room: nat) {
    text.Ok? && !TooMuch(text.value, room)
  }

  /** A text fits if it is no longer than the field and has no NUL. */
  lemma FitsIff(text: seq<Byte>, room: nat)
    ensures Fits(Ok(text), room) <==> |text| <= room && forall i :: 0 <= i < |text| ==> text[i] != 0
  {
  }

  /** `UstarHeader::set_path`. */
  method SetPath(h: array<Byte>, path: seq<Byte>) returns (r: Result<()>)
    requires h.Length == HEADER_SIZE
    modifies h
    ensures |path| <= NAME_END ==>
              && (r.Ok? <==> Fits(PathText(path, false), NAME_END))
              && (r.Ok? ==> h[..] == Written(old(h[..]), 0, NAME_END, PathText(path, false).value))
    ensures |path| > NAME_END ==>
              var prefix := FittingParent(path);
              && (r.Ok? <==> && prefix.Some? && Fits(PathText(prefix.value, false), PREFIX_END - PREFIX)
                             && Fits(PathText(path[|prefix.value| + 1..], false), NAME_END))
              && (r.Ok? ==>
                    h[..] == Written(Written(old(h[..]), PREFIX, PREFIX_END, PathText(prefix.value, false).value),
                                             0, NAME_END, PathText(path[|prefix.value| + 1..], false).value))
    ensures h[NAME_END..PREFIX] == old(h[NAME_END..PREFIX]) && h[PREFIX_END..] == old(h[PREFIX_END..])
  {
    hide PathText, TooMuch, Written;
    ghost var s := h[..];
    if |path| <= NAME_END {
      r := CopyPathInto(h, 0, NAME_END, path, false);
      KeptBetween(s, h[..], NAME_END, NAME_END, HEADER_SIZE);
    } else {
      var prefix := path;
      while true
        invariant |prefix| <= |path| && FittingParent(prefix) == FittingParent(path)
        decreases |prefix|
      {
        var parent := Parent(prefix);
        if parent.None? {
          return Err(Other);
        }
        prefix := parent.value;
        if |prefix| <= PREFIX_END - PREFIX {
          break;
        }
      }
      assert FittingParent(path) == Some(prefix);
      r := CopyPathInto(h, PREFIX, PREFIX_END, prefix, false);
      ghost var t := h[..];
      KeptBetween(s, t, 0, 0, PREFIX);
      KeptBetween(s, t, PREFIX_END, PREFIX_END, HEADER_SIZE);
      if r.Err? {
        return;
      }
      r := CopyPathInto(h, 0, NAME_END, path[|prefix| + 1..], false);
      KeptBetween(t, h[..], NAME_END, NAME_END, HEADER_SIZE);
    }
  }

  /** What two byte strings share between `lo` and `hi` they share in any part of it. */
  lemma KeptBetween(s: seq<Byte>, t: seq<Byte>, from: nat, lo: nat, hi: nat)
    requires |s| == |t| && from <= lo <= hi <= |s| && t[from..hi] == s[from..hi]
    ensures forall k :: lo <= k < hi ==> t[k] == s[k]
  {
    forall k | lo <= k < hi
      ensures t[k] == s[k]
    {
      assert t[from..hi][k - from] == t[k] && s[from..hi][k - from] == s[k];
    }
  }

  // ----- normal paths -----

  lemma {:induction false} JoinSnoc(names: seq<Name>, last: Name)
    requires names != []
    ensures Join(names + [last]) == Join(names) + [SLASH] + last
  {
    if |names| == 1 {
      assert names + [last] == [names[0], last];
      assert Join([last]) == last && (names + [last])[1..] == [last];
    } else {
      assert (names + [last])[1..] == names[1..] + [last];
      JoinSnoc(names[1..], last);
      assert names[0] + [SLASH] + (Join(names[1..]) + [SLASH] + last) == Join(names) + [SLASH] + last;
    }
  }

  lemma {:induction false} JoinAppend(a: seq<Name>, b: seq<Name>)
    requires a != [] && b != []
    ensures Join(a + b) == Join(a) + [SLASH] + Join(b)
  {
    if |a| == 1 {
      assert (a + b)[1..] == b && (a + b)[0] == a[0];
    } else {
      assert (a + b)[1..] == a[1..] + b;
      JoinAppend(a[1..], b);
      assert a[0] + [SLASH] + (Join(a[1..]) + [SLASH] + Join(b)) == Join(a) + [SLASH] + Join(b);
    }
  }

  /** A normal path has no tail to trim. */
  lemma {:induction false} NothingToTrim(names: seq<Name>)
    requires names != [] && forall i :: 0 <= i < |names| ==> IsName(names[i])
    ensures TrimTail(Join(names)) == Join(names)
  {
    JoinEnds(names);
    var p := Join(names);
    if |p| >= 2 && p[|p| - 1] == 46 && p[|p| - 2] == SLASH {
      DotIsNoName(names);
    }
  }

  lemma {:induction false} DotIsNoName(names: seq<Name>)
    requires names != [] && forall i :: 0 <= i < |names| ==> IsName(names[i])
    ensures var p := Join(names); |p| >= 2 && p[|p| - 1] == 46 ==> p[|p| - 2] != SLASH
  {
    var last := names[|names| - 1];
    if |names| > 1 {
      assert names == names[..|names| - 1] + [last];
      JoinSnoc(names[..|names| - 1], last);
    }
    LastIn(last);
    if |last| >= 2 { assert last[|last| - 2] in last; } else { assert last == [last[0]]; }
  }

  lemma {:induction false} DropName(front: seq<Byte>, name: Name)
    requires SLASH !in name && (front == [] || front[|front| - 1] == SLASH)
    ensures DropLast(front + name) == front
  {
    if name == [] {
      assert front + name == front;
    } else {
      var p := front + name;
      assert p[..|p| - 1] == front + name[..|name| - 1];
      LastIn(name);
      DropName(front, name[..|name| - 1]);
    }
  }

  lemma JoinOne(name: Name)
    ensures Join([name]) == name && Join([]) == []
  {
  }

  /** The parent of a normal path is the path without its last name. */
  lemma NormalParent(names: seq<Name>)
    requires names != [] && forall i :: 0 <= i < |names| ==> IsName(names[i])
    ensures Parent(Join(names)) == Some(Join(names[..|names| - 1]))
  {
    hide TrimTail, DropLast, Join, Parent, IsName, EndsWithSlash;
    var front, last := names[..|names| - 1], names[|names| - 1];
    assert names == front + [last];
    NothingToTrim(names);
    JoinEnds(names);
    JoinStarts(names);
    JoinOne(last);
    NameParts(last);
    if front == [] {
      assert names == [last];
      assert last == [] + last;
      DropName([], last);
      EmptyTail();
      ParentIs(Join(names), [], []);
    } else {
      FrontParent(front, last);
    }
  }

  lemma FrontParent(front: seq<Name>, last: Name)
    requires front != [] && (forall i :: 0 <= i < |front| ==> IsName(front[i])) && IsName(last)
    requires TrimTail(Join(front + [last])) == Join(front + [last]) != [] && !EndsWithSlash(Join(front + [last]))
    ensures Parent(Join(front + [last])) == Some(Join(front))
  {
    hide TrimTail, DropLast, Join, Parent, IsName, EndsWithSlash;
    JoinSnoc(front, last);
    NameParts(last);
    DropName(Join(front) + [SLASH], last);
    NothingToTrim(front);
    JoinStarts(front);
    SlashTail(Join(front));
    ParentIs(Join(front + [last]), Join(front) + [SLASH], Join(front));
  }

  lemma NameParts(name: Name)
    requires IsName(name)
    ensures SLASH !in name && name != []
  {
  }

  lemma ParentIs(p: seq<Byte>, front: seq<Byte>, r: seq<Byte>)
    requires p != [] && !EndsWithSlash(p) && TrimTail(p) == p && DropLast(p) == front && TrimTail(front) == r
    ensures Parent(p) == Some(r)
  {
  }

  lemma EmptyTail()
    ensures TrimTail([]) == []
  {
  }

  lemma SlashTail(p: seq<Byte>)
    requires p != []
    ensures TrimTail(p + [SLASH]) == TrimTail(p)
  {
    assert (p + [SLASH])[..|p|] == p;
  }

  /** The number of names in the longest ancestor that fits. */
  function FittingCount(names: seq<Name>, k: nat): (r: nat)
    requires 0 < k <= |names|
    ensures r < k
  {
    if k == 1 || |Join(names[..k - 1])| <= PREFIX_END - PREFIX then k - 1 else FittingCount(names, k - 1)
  }

  lemma {:induction false} NormalFittingParent(names: seq<Name>, k: nat)
    requires 0 < k <= |names| && forall i :: 0 <= i < |names| ==> IsName(names[i])
    ensures FittingParent(Join(names[..k])) == Some(Join(names[..FittingCount(names, k)]))
    decreases k
  {
    hide Parent, Join;
    NormalParent(names[..k]);
    assert names[..k][..k - 1] == names[..k - 1];
    if k == 1 {
      NothingJoined();
    } else if |Join(names[..k - 1])| > PREFIX_END - PREFIX {
      NormalFittingParent(names, k - 1);
    }
  }

  lemma NothingJoined()
    ensures Join([]) == []
    ensures PathText([], false).Err?
  {
    assert Split([]) == [[]];
    assert Components([]) == [];
  }

  /** Every longer ancestor is too long for the prefix. */
  lemma {:induction false} FittingIsLongest(names: seq<Name>, k: nat, j: nat)
    requires 0 < k <= |names| && FittingCount(names, k) < j < k
    ensures |Join(names[..j])| > PREFIX_END - PREFIX
    decreases k
  {
    if j < k - 1 { FittingIsLongest(names, k - 1, j); }
  }

  /** The path may be split before its `k`-th name. */
  ghost predicate SplitsAt(names: seq<Name>, k: nat) {
    0 < k < |names| && |Join(names[..k])| <= PREFIX_END - PREFIX && |Join(names[k..])| <= NAME_END
  }

  lemma NamesOf(names: seq<Name>, k: nat)
    requires 0 < k < |names| && forall i :: 0 <= i < |names| ==> IsName(names[i])
    ensures Normalized(Join(names[..k]), names[..k]) && Normalized(Join(names[k..]), names[k..])
    ensures Join(names) == Join(names[..k]) + [SLASH] + Join(names[k..])
    ensures Join(names)[|Join(names[..k])| + 1..] == Join(names[k..])
  {
    hide Join;
    assert names == names[..k] + names[k..];
    JoinAppend(names[..k], names[k..]);
  }

  lemma {:induction false} LaterSplitShortens(names: seq<Name>, j: nat, k: nat)
    requires 0 < j <= k < |names|
    ensures |Join(names[k..])| <= |Join(names[j..])|
    decreases k - j
  {
    if j < k {
      assert names[j..][1..] == names[j + 1..];
      LaterSplitShortens(names, j + 1, k);
    }
  }

  /** For a long normal path the greedy split succeeds exactly when some component boundary leaves at most 155 bytes
      before it and at most 100 after it. */
  lemma GreedySplitIff(p: seq<Byte>, names: seq<Name>)
    requires Normalized(p, names) && |p| > NAME_END
    ensures names != []
    ensures var prefix := FittingParent(p);
            (&& prefix.Some? && Fits(PathText(prefix.value, false), PREFIX_END - PREFIX)
             && Fits(PathText(p[|prefix.value| + 1..], false), NAME_END))
            <==> exists k :: SplitsAt(names, k)
    ensures forall k :: k == FittingCount(names, |names|) && SplitsAt(names, k) ==>
              && FittingParent(p) == Some(Join(names[..k])) && p[|Join(names[..k])| + 1..] == Join(names[k..])
              && PathText(Join(names[..k]), false) == Ok(Join(names[..k]))
                  && PathText(Join(names[k..]), false) == Ok(Join(names[k..]))
    ensures (exists k :: SplitsAt(names, k)) ==> SplitsAt(names, FittingCount(names, |names|))
  {
    hide PathText, Join, FittingParent;
    var k := FittingCount(names, |names|);
    NormalFittingParent(names, |names|);
    assert names[..|names|] == names;
    if j :| SplitsAt(names, j) {
      if j > k { FittingIsLongest(names, |names|, j); }
      LaterSplitShortens(names, j, k);
    }
    if k == 0 {
      NothingJoined();
      assert names[..0] == [];
    } else {
      NamesOf(names, k);
      NormalText(Join(names[..k]), names[..k], false);
      NormalText(Join(names[k..]), names[k..], false);
      FittingFits(names, |names|);
      assert SplitsAt(names, k) <==> |Join(names[k..])| <= NAME_END;
    }
  }

  lemma {:induction false} FittingFits(names: seq<Name>, k: nat)
    requires 0 < k <= |names| && FittingCount(names, k) > 0
    ensures |Join(names[..FittingCount(names, k)])| <= PREFIX_END - PREFIX
    decreases k
  {
    if k > 1 && |Join(names[..k - 1])| > PREFIX_END - PREFIX { FittingFits(names, k - 1); }
  }

  /** A text written into a field reads back up to its NUL or the end of the field. */
  lemma FieldReadsBack(s: seq<Byte>, lo: nat, hi: nat, text: seq<Byte>)
    requires lo + |text| <= hi <= |s| && 0 !in text
    ensures Truncate(Written(s, lo, hi, text)[lo..hi]) == text
  {
    var w := Written(s, lo, hi, text);
    if lo + |text| < hi {
      FirstNulIs(text, w[lo + |text| + 1..hi]);
      assert w[lo..hi] == text + [0] + w[lo + |text| + 1..hi];
    } else {
      assert w[lo..hi] == text;
    }
  }

  lemma OtherField(s: seq<Byte>, lo: nat, hi: nat, text: seq<Byte>, a: nat, b: nat)
    requires lo + |text| <= hi <= |s| && a <= b <= |s| && (b <= lo || hi <= a)
    ensures Written(s, lo, hi, text)[a..b] == s[a..b]
  {
  }

  /** A short normal path reads back exactly when the prefix was empty: `set_path` does not clear an old one. */
  lemma ShortPathRoundTripIff(h: Header, p: seq<Byte>, names: seq<Name>)
    requires Normalized(p, names) && |p| <= NAME_END
    ensures PathBytes(Written(h, 0, NAME_END, p)) == p <==> h[PREFIX] == 0
  {
    hide Written, Truncate, Normalized;
    NormalText(p, names, false);
    FieldReadsBack(h, 0, NAME_END, p);
    OtherField(h, 0, NAME_END, p, PREFIX, PREFIX_END);
    var w := Written(h, 0, NAME_END, p);
    assert w[0..NAME_END] == w[..NAME_END];
    assert w[PREFIX..PREFIX_END][0] == h[PREFIX..PREFIX_END][0] == h[PREFIX];
    FirstByte(h[PREFIX..PREFIX_END]);
  }

  lemma FirstByte(s: seq<Byte>)
    requires s != []
    ensures Truncate(s) == [] <==> s[0] == 0
  {
  }

  /** A long normal path that was split reads back, whatever the fields held before. */
  lemma LongPathRoundTrip(h: Header, prefix: seq<Byte>, name: seq<Byte>)
    requires 0 !in prefix && 0 !in name && prefix != [] && |prefix| <= PREFIX_END - PREFIX && |name| <= NAME_END
    ensures PathBytes(Written(Written(h, PREFIX, PREFIX_END, prefix), 0, NAME_END, name)) == prefix + [SLASH] + name
  {
    hide Written, Truncate;
    var g := Written(h, PREFIX, PREFIX_END, prefix);
    var w := Written(g, 0, NAME_END, name);
    FieldReadsBack(h, PREFIX, PREFIX_END, prefix);
    FieldReadsBack(g, 0, NAME_END, name);
    OtherField(g, 0, NAME_END, name, PREFIX, PREFIX_END);
    assert w[0..NAME_END] == w[..NAME_END];
    FirstByte(w[PREFIX..PREFIX_END]);
  }

  /** A long normal path that `set_path` has split is what `path_bytes` returns. */
  lemma SplitPathRoundTrip(h: Header, p: seq<Byte>, names: seq<Name>)
    requires Normalized(p, names) && |p| > NAME_END && exists k :: SplitsAt(names, k)
    ensures var prefix := FittingParent(p);
            && prefix.Some? && Fits(PathText(prefix.value, false), PREFIX_END - PREFIX)
            && Fits(PathText(p[|prefix.value| + 1..], false), NAME_END)
            && PathBytes(Written(Written(h, PREFIX, PREFIX_END, PathText(prefix.value, false).value),
                                 0, NAME_END, PathText(p[|prefix.value| + 1..], false).value)) == p
  {
    hide PathText, Join, Written, Truncate, FittingParent, PathBytes, Normalized;
    GreedySplitIff(p, names);
    var k := FittingCount(names, |names|);
    SplitParts(p, names, k);
    LongPathRoundTrip(h, Join(names[..k]), Join(names[k..]));
  }

  lemma SplitParts(p: seq<Byte>, names: seq<Name>, k: nat)
    requires Normalized(p, names) && SplitsAt(names, k)
    ensures 0 !in Join(names[..k]) && 0 !in Join(names[k..]) && Join(names[..k]) != []
    ensures p == Join(names[..k]) + [SLASH] + Join(names[k..])
  {
    hide Join;
    NamesOf(names, k);
    JoinEnds(names[..k]);
    JoinEnds(names[k..]);
    JoinStarts(names[..k]);
  }
}
