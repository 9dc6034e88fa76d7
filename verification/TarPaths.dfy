/** Paths in tar headers: their components, `copy_path_into`, and the split of long paths between two fields. */
module TarPaths {
  import opened Wrappers
  import opened Bytes

  const SLASH: Byte := 47
  const DOT: Name := [46]
  const DOTDOT: Name := [46, 46]

  // ----- components -----

  datatype Component = RootDir | CurDir | ParentDir | Normal(name: Name)

  /** The pieces between slashes. */
  function Split(p: seq<Byte>): (r: seq<Name>)
    ensures |r| >= 1
  {
    if p == [] then [[]]
    else if p[0] == SLASH then [[]] + Split(p[1..])
    else var rest := Split(p[1..]); [[p[0]] + rest[0]] + rest[1..]
  }

  /** The components of the pieces: empty pieces and `.` do not count. */
  function Body(pieces: seq<Name>): seq<Component> {
    if pieces == [] then []
    else if pieces[0] == [] || pieces[0] == DOT then Body(pieces[1..])
    else [if pieces[0] == DOTDOT then ParentDir else Normal(pieces[0])] + Body(pieces[1..])
  }

  /** `Path::components`. */
  function Components(p: seq<Byte>): seq<Component> {
    (if p != [] && p[0] == SLASH then [RootDir] else if Split(p)[0] == DOT then [CurDir] else []) + Body(Split(p))
  }

  /** The names joined by slashes. */
  function Join(names: seq<Name>): seq<Byte> {
    if names == [] then [] else if |names| == 1 then names[0] else names[0] + [SLASH] + Join(names[1..])
  }

  /** A name that is a component of its own. */
  predicate IsName(n: Name) {
    n != [] && n != DOT && n != DOTDOT && SLASH !in n && 0 !in n
  }

  /** A relative path in normal form. */
  ghost predicate Normalized(p: seq<Byte>, names: seq<Name>) {
    names != [] && p == Join(names) && forall i :: 0 <= i < |names| ==> IsName(names[i])
  }

  lemma {:induction false} SplitName(n: Name, rest: seq<Byte>)
    requires SLASH !in n
    ensures Split(n + [SLASH] + rest) == [n] + Split(rest)
    ensures Split(n) == [n]
  {
    if n == [] {
      assert [] + [SLASH] + rest == [SLASH] + rest;
    } else {
      assert (n + [SLASH] + rest)[1..] == n[1..] + [SLASH] + rest;
      SplitName(n[1..], rest);
      assert [n[0]] + n[1..] == n;
    }
  }

  lemma {:induction false} SplitJoin(names: seq<Name>)
    requires names != [] && forall i :: 0 <= i < |names| ==> SLASH !in names[i]
    ensures Split(Join(names)) == names
  {
    if |names| == 1 {
      SplitName(names[0], []);
    } else {
      SplitName(names[0], Join(names[1..]));
      SplitJoin(names[1..]);
    }
  }

  /** What a piece between slashes counts for. */
  function PieceOf(n: Name): seq<Component> {
    if n == [] || n == [46] then [] else if n == [46, 46] then [ParentDir] else [Normal(n)]
  }

  /** A path is read up to the next byte 47: a leading one is the root, a leading `.` the current directory, and every
      piece counts for itself. */
  lemma ComponentsRead(n: Name, rest: seq<Byte>)
    requires 47 !in n
    ensures Components(n) == (if n == [46] then [CurDir] else []) + PieceOf(n)
    ensures Components(n + [47] + rest)
            == (if n == [] then [RootDir] else if n == [46] then [CurDir] else []) + PieceOf(n) + Body(Split(rest))
    ensures Body(Split(n)) == PieceOf(n) && Body(Split(n + [47] + rest)) == PieceOf(n) + Body(Split(rest))
  {
    hide Split;
    SplitName(n, rest);
    BodyStep([n]);
    BodyStep([n] + Split(rest));
    assert ([n] + Split(rest))[1..] == Split(rest);
    if n != [] { assert n[0] in n && (n + [47] + rest)[0] == n[0]; }
  }

  lemma BodyStep(pieces: seq<Name>)
    requires pieces != []
    ensures Body(pieces) == PieceOf(pieces[0]) + Body(pieces[1..])
  {
  }

  function AsNormal(names: seq<Name>): (cs: seq<Component>)
    ensures |cs| == |names|
  {
    seq(|names|, i requires 0 <= i < |names| => Normal(names[i]))
  }

  lemma {:induction false} BodyOfNames(names: seq<Name>)
    requires forall i :: 0 <= i < |names| ==> IsName(names[i])
    ensures Body(names) == AsNormal(names)
  {
    if names != [] {
      BodyOfNames(names[1..]);
      assert AsNormal(names) == [Normal(names[0])] + AsNormal(names[1..]);
    }
  }

  lemma JoinStarts(names: seq<Name>)
    requires names != [] && IsName(names[0])
    ensures Join(names) != [] && Join(names)[0] == names[0][0]
  {
  }

  /** A normal path's components are its names. */
  lemma NormalComponents(p: seq<Byte>, names: seq<Name>)
    requires Normalized(p, names)
    ensures Components(p) == AsNormal(names)
  {
    hide Split, Join, Body;
    SplitJoin(names);
    BodyOfNames(names);
    JoinStarts(names);
    assert p[0] in names[0];
  }

  /** Names are joined by byte 47. */
  lemma JoinIs(n: Name, names: seq<Name>)
    ensures Join([]) == [] && Join([n]) == n && (names != [] ==> Join([n] + names) == n + [47] + Join(names))
  {
    assert ([n] + names)[1..] == names;
  }

  // ----- what is written for a path -----

  function Text(c: Component): seq<Byte> {
    match c
    case RootDir => [SLASH]
    case CurDir => DOT
    case ParentDir => DOTDOT
    case Normal(name) => name
  }

  /** The loop of `copy_path_into` over the components `cs`: the text written after `needsSlash`, and whether there was
      any; a root or parent component is refused outside link names. */
  function ComponentsText(cs: seq<Component>, alone: bool, isLink: bool, needsSlash: bool): Result<(seq<Byte>, bool)> {
    if cs == [] then Ok(([], false))
    else if !isLink && (cs[0].RootDir? || cs[0].ParentDir?) then Err(Other)
    else if !isLink && cs[0].CurDir? && !alone then ComponentsText(cs[1..], alone, isLink, needsSlash)
    else
      var rest :- ComponentsText(cs[1..], alone, isLink, needsSlash || !cs[0].RootDir?);
      Ok(((if needsSlash then [SLASH] else []) + Text(cs[0]) + rest.0, true))
  }

  predicate EndsWithSlash(p: seq<Byte>) {
    p != [] && p[|p| - 1] == SLASH
  }

  /** What `copy_path_into` writes for a path, when the field is long enough. */
  function PathText(p: seq<Byte>, isLink: bool): Result<seq<Byte>> {
    var written :- ComponentsText(Components(p), |Components(p)| == 1, isLink, false);
    if !written.1 then Err(Other)
    else Ok(written.0 + if EndsWithSlash(p) then [SLASH] else [])
  }

  lemma {:induction false} NamesText(names: seq<Name>, alone: bool, isLink: bool, needsSlash: bool)
    requires forall i :: 0 <= i < |names| ==> IsName(names[i])
    ensures ComponentsText(AsNormal(names), alone, isLink, needsSlash)
            == Ok((if names == [] then [] else (if needsSlash then [SLASH] else []) + Join(names), names != []))
  {
    if names != [] {
      hide IsName;
      NamesText(names[1..], alone, isLink, true);
      assert AsNormal(names)[1..] == AsNormal(names[1..]);
      var slash: seq<Byte> := if needsSlash then [SLASH] else [];
      if |names| == 1 {
        assert slash + names[0] + [] == slash + Join(names);
      } else {
        assert slash + names[0] + ([SLASH] + Join(names[1..])) == slash + Join(names);
      }
    }
  }

  lemma {:induction false} JoinEnds(names: seq<Name>)
    requires names != [] && forall i :: 0 <= i < |names| ==> IsName(names[i])
    ensures !EndsWithSlash(Join(names)) && 0 !in Join(names)
  {
    if |names| == 1 {
      assert Join(names) == names[0];
      LastIn(names[0]);
    } else {
      JoinEnds(names[1..]);
      JoinStarts(names[1..]);
    }
  }

  lemma LastIn(n: seq<Byte>)
    requires n != []
    ensures n[|n| - 1] in n
  {
  }

  /** A normal path is written as it is. */
  lemma NormalText(p: seq<Byte>, names: seq<Name>, isLink: bool)
    requires Normalized(p, names)
    ensures PathText(p, isLink) == Ok(p) && 0 !in p
  {
    hide Components, Join, ComponentsText;
    NormalComponents(p, names);
    NamesText(names, |names| == 1, isLink, false);
    JoinEnds(names);
    assert [] + Join(names) + [] == Join(names);
  }

  /** The normal components, by name. */
  function NormalNames(cs: seq<Component>): seq<Name> {
    if cs == [] then [] else (if cs[0].Normal? then [cs[0].name] else []) + NormalNames(cs[1..])
  }

  /** No component leads out of the archive's directory. */
  predicate StaysInside(cs: seq<Component>) {
    forall i :: 0 <= i < |cs| ==> !cs[i].RootDir? && !cs[i].ParentDir?
  }

  lemma {:induction false} RelativeText(cs: seq<Component>, needsSlash: bool)
    ensures ComponentsText(cs, false, false, needsSlash).Ok? <==> StaysInside(cs)
    ensures StaysInside(cs) ==>
              var names := NormalNames(cs);
              ComponentsText(cs, false, false, needsSlash)
              == Ok(((if needsSlash && names != [] then [47] else []) + Join(names), names != []))
  {
    hide Join;
    JoinIs([], []);
    assert Join(NormalNames([])) == [] && [] + Join(NormalNames([])) == [];
    if cs != [] {
      RelativeText(cs[1..], needsSlash);
      RelativeText(cs[1..], true);
      assert StaysInside(cs) <==> !cs[0].RootDir? && !cs[0].ParentDir? && StaysInside(cs[1..]);
      if cs[0].Normal? {
        var names, head := NormalNames(cs[1..]), if needsSlash then [47] else [];
        JoinIs(cs[0].name, names);
        if names == [] {
          assert [cs[0].name] + names == [cs[0].name];
          assert head + cs[0].name + ([] + []) == head + cs[0].name;
        } else {
          assert head + cs[0].name + ([47] + Join(names)) == head + (cs[0].name + [47] + Join(names));
        }
      } else {
        assert [] + NormalNames(cs[1..]) == NormalNames(cs[1..]);
      }
    }
  }

  /** What is written for a path: `.` for that alone, else its normal components joined by slashes, with a slash at the
      end if the path has one. Nothing is written for an absolute path, one with `..`, or one without components. */
  lemma PathTextIff(p: seq<Byte>)
    ensures var cs, names := Components(p), NormalNames(Components(p));
            && (PathText(p, false).Ok? <==> StaysInside(cs) && (names != [] || cs == [CurDir]))
            && (PathText(p, false).Ok? ==>
                  PathText(p, false).value == (if cs == [CurDir] then [46] else Join(names))
                                              + if p != [] && p[|p| - 1] == 47 then [47] else [])
  {
    hide Components, Join;
    var cs := Components(p);
    if |cs| == 1 {
      assert cs[1..] == [] && ComponentsText([], true, false, true) == Ok(([], false));
      if cs[0].Normal? {
        JoinIs(cs[0].name, []);
        assert [] + cs[0].name + [] == cs[0].name && NormalNames(cs) == [cs[0].name];
      }
      if cs[0].CurDir? { assert cs == [CurDir] && [] + DOT + [] == [46] && NormalNames(cs) == []; }
    } else {
      RelativeText(cs, false);
    }
  }

  // ----- writing a path into a field -----

  /** `copy_into`, for the field `lo .. hi` of `a`. */
  method CopyInto(a: array<Byte>, lo: nat, hi: nat, bytes: seq<Byte>) returns (r: Result<()>)
    requires lo <= hi <= a.Length
    modifies a
    ensures r.Ok? <==> |bytes| <= hi - lo && 0 !in bytes
    ensures r.Ok? ==> a[..] == Written(old(a[..]), lo, hi, bytes)
    ensures r.Err? ==> a[..] == old(a[..])
  {
    if |bytes| > hi - lo || 0 in bytes {
      return Err(Other);
    }
    var all := bytes + [0];
    var n := if |all| < hi - lo then |all| else hi - lo;
    for i := 0 to n
      invariant forall k :: lo <= k < lo + i ==> a[k] == all[k - lo]
      invariant forall k :: 0 <= k < lo || lo + i <= k < a.Length ==> a[k] == old(a[k])
    {
      a[lo + i] := all[i];
    }
    assert lo + |bytes| < hi ==> a[lo + |bytes|] == all[|bytes|];
    WrittenIs(old(a[..]), a[..], lo, hi, bytes);
    r := Ok(());
  }

  /** The bytes after writing `bytes` at `lo`, with a NUL after them if the field has room for one. */
  function Written(s: seq<Byte>, lo: nat, hi: nat, bytes: seq<Byte>): (r: seq<Byte>)
    requires lo + |bytes| <= hi <= |s|
    ensures |r| == |s|
  {
    s[..lo] + bytes + (if lo + |bytes| < hi then [0] + s[lo + |bytes| + 1..] else s[hi..])
  }

  lemma WrittenIs(s: seq<Byte>, t: seq<Byte>, lo: nat, hi: nat, bytes: seq<Byte>)
    requires lo + |bytes| <= hi <= |s| == |t|
    requires forall k :: lo <= k < lo + |bytes| ==> t[k] == bytes[k - lo]
    requires lo + |bytes| < hi ==> t[lo + |bytes|] == 0
    requires forall k :: 0 <= k < lo || lo + |bytes| + (if lo + |bytes| < hi then 1 else 0) <= k < |s| ==> t[k] == s[k]
    ensures t == Written(s, lo, hi, bytes)
  {
    var w := Written(s, lo, hi, bytes);
    forall k | 0 <= k < |s|
      ensures t[k] == w[k]
    {
      if lo <= k < lo + |bytes| { assert w[k] == bytes[k - lo]; }
    }
  }

  /** Writing twice in a row is writing once. */
  lemma WrittenTwice(s: seq<Byte>, lo: nat, hi: nat, x: seq<Byte>, y: seq<Byte>)
    requires lo + |x| + |y| <= hi <= |s|
    ensures Written(Written(s, lo, hi, x), lo + |x|, hi, y) == Written(s, lo, hi, x + y)
  {
    var w := Written(s, lo, hi, x);
    var b := lo + |x| + |y|;
    assert w[..lo + |x|] == s[..lo] + x;
    if b < hi {
      assert w[b + 1..] == s[b + 1..];
    } else {
      assert w[hi..] == s[hi..];
    }
  }

  /** The field after some of a path's text has been written. */
  ghost predicate Partly(s: seq<Byte>, t: seq<Byte>, lo: nat, hi: nat, done: seq<Byte>)
    requires lo <= hi <= |s|
  {
    && |t| == |s| && 0 !in done && lo + |done| <= hi
    && t == if done == [] then s else Written(s, lo, hi, done)
  }

  /** The inner `copy` of `copy_path_into`: one more piece, after the `done` ones. */
  method CopyPiece(a: array<Byte>, lo: nat, at: nat, hi: nat, piece: seq<Byte>, ghost s: seq<Byte>,
      ghost done: seq<Byte>)
    returns (r: Result<()>)
    requires lo <= hi <= a.Length == |s| && at == lo + |done| && Partly(s, a[..], lo, hi, done) && piece != []
    modifies a
    ensures r.Ok? <==> |done + piece| <= hi - lo && 0 !in done + piece
    ensures r.Ok? ==> Partly(s, a[..], lo, hi, done + piece)
    ensures r.Err? ==> a[..] == old(a[..])
  {
    hide Written;
    r := CopyInto(a, at, hi, piece);
    if r.Ok? {
      if done == [] {
        assert done + piece == piece;
      } else {
        WrittenTwice(s, lo, hi, done, piece);
      }
    }
  }

  /** What remains to be written after `done`. */
  ghost function Continued(done: seq<Byte>, emitted: bool, rest: Result<(seq<Byte>, bool)>): Result<(seq<Byte>, bool)> {
    match rest
    case Ok((text, more)) => Ok((done + text, emitted || more))
    case Err(e) => Err(e)
  }

  lemma ContinuedStep(cs: seq<Component>, i: nat, alone: bool, isLink: bool, needsSlash: bool, done: seq<Byte>,
      emitted: bool)
    requires i < |cs|
    ensures var c, rest := cs[i], cs[i + 1..];
            var piece := (if needsSlash then [SLASH] else []) + Text(c);
            Continued(done, emitted, ComponentsText(cs[i..], alone, isLink, needsSlash))
            == if !isLink && (c.RootDir? || c.ParentDir?) then Err(Other)
               else if !isLink && c.CurDir? && !alone then
                   Continued(done, emitted, ComponentsText(rest, alone, isLink, needsSlash))
               else Continued(done + piece, true, ComponentsText(rest, alone, isLink, needsSlash || !c.RootDir?))
  {
    assert cs[i..][1..] == cs[i + 1..] && cs[i..][0] == cs[i];
    var c, rest := cs[i], cs[i + 1..];
    var slash: seq<Byte> := if needsSlash then [SLASH] else [];
    match ComponentsText(rest, alone, isLink, needsSlash || !c.RootDir?) {
      case Ok((text, _)) => assert done + (slash + Text(c) + text) == (done + (slash + Text(c))) + text;
      case Err(_) =>
    }
  }

  /** The text is too long for the field, or holds a NUL. */
  predicate TooMuch(text: seq<Byte>, room: nat) {
    |text| > room || 0 in text
  }

  lemma TooMuchStays(done: seq<Byte>, emitted: bool, rest: Result<(seq<Byte>, bool)>, room: nat, tail: seq<Byte>)
    requires TooMuch(done, room) && Continued(done, emitted, rest).Ok?
    ensures TooMuch(Continued(done, emitted, rest).value.0 + tail, room)
  {
  }

  lemma SlashPiece(done: seq<Byte>, needsSlash: bool, text: seq<Byte>)
    ensures (done + [SLASH]) + text == done + ([SLASH] + text)
    ensures done + text == done + ([] + text)
  {
  }

  lemma ComponentTexts(p: seq<Byte>)
    ensures forall i :: 0 <= i < |Components(p)| ==> Text(Components(p)[i]) != []
  {
    BodyTexts(Split(p));
  }

  lemma {:induction false} BodyTexts(pieces: seq<Name>)
    ensures forall i :: 0 <= i < |Body(pieces)| ==> Text(Body(pieces)[i]) != []
  {
    if pieces != [] { BodyTexts(pieces[1..]); }
  }

  /** `copy_path_into`: the path's text in the field `lo .. hi` of `a`, which is all that changes. */
  method CopyPathInto(a: array<Byte>, lo: nat, hi: nat, path: seq<Byte>, isLink: bool) returns (r: Result<()>)
    requires lo <= hi <= a.Length
    modifies a
    ensures r.Ok? <==> PathText(path, isLink).Ok? && !TooMuch(PathText(path, isLink).value, hi - lo)
    ensures r.Ok? ==> a[..] == Written(old(a[..]), lo, hi, PathText(path, isLink).value)
    ensures a[..lo] == old(a[..lo]) && a[hi..] == old(a[hi..])
  {
    hide Components, ComponentsText, Written, Text, Continued, TooMuch;
    ghost var s := a[..];
    var cs := Components(path);
    var alone := |cs| == 1;
    var emitted, needsSlash, at := false, false, lo;
    ghost var done: seq<Byte> := [];
    ghost var all := ComponentsText(cs, alone, isLink, false);
    ComponentTexts(path);
    ContinuedStart(all);
    assert cs[0..] == cs;
    for i := 0 to |cs|
      invariant at == lo + |done| && Partly(s, a[..], lo, hi, done) && (emitted <==> done != [])
      invariant all == Continued(done, emitted, ComponentsText(cs[i..], alone, isLink, needsSlash))
    {
      var c := cs[i];
      ContinuedStep(cs, i, alone, isLink, needsSlash, done, emitted);
      if !isLink && (c.RootDir? || c.ParentDir?) {
        PartlyOutside(s, a[..], lo, hi, done);
        return Err(Other);
      }
      if !isLink && c.CurDir? && !alone {
        continue;
      }
      ghost var piece := (if needsSlash then [SLASH] else []) + Text(c);
      SlashPiece(done, needsSlash, Text(c));
      if needsSlash {
        var written := CopyPiece(a, lo, at, hi, [SLASH], s, done);
        if written.Err? {
          PartlyOutside(s, a[..], lo, hi, done);
          Overflows(done, [SLASH], Text(c), hi - lo);
          GivesUp(all, done + piece, ComponentsText(cs[i + 1..], alone, isLink, needsSlash || !c.RootDir?), hi - lo,
              path, isLink);
          return Err(Other);
        }
        done := done + [SLASH];
        at := at + 1;
      }
      var written := CopyPiece(a, lo, at, hi, Text(c), s, done);
      if written.Err? {
        PartlyOutside(s, a[..], lo, hi, done);
        Overflows(done, Text(c), [], hi - lo);
        GivesUp(all, done + Text(c), ComponentsText(cs[i + 1..], alone, isLink, needsSlash || !c.RootDir?), hi - lo,
            path, isLink);
        return Err(Other);
      }
      done := done + Text(c);
      at := at + |Text(c)|;
      needsSlash := needsSlash || !c.RootDir?;
      emitted := true;
    }
    ContinuedEnd(cs, alone, isLink, needsSlash, done, emitted);
    PartlyOutside(s, a[..], lo, hi, done);
    NotTooMuch(done, hi - lo);
    if !emitted {
      return Err(Other);
    }
    if EndsWithSlash(path) {
      r := CopyPiece(a, lo, at, hi, [SLASH], s, done);
      NotTooMuch(done + [SLASH], hi - lo);
      if r.Ok? { PartlyOutside(s, a[..], lo, hi, done + [SLASH]); }
    } else {
      assert done + [] == done;
      r := Ok(());
    }
  }

  lemma ContinuedStart(rest: Result<(seq<Byte>, bool)>)
    ensures Continued([], false, rest) == rest
  {
    match rest {
      case Ok((text, _)) => assert [] + text == text;
      case Err(_) =>
    }
  }

  lemma ContinuedEnd(cs: seq<Component>, alone: bool, isLink: bool, needsSlash: bool, done: seq<Byte>, emitted: bool)
    ensures Continued(done, emitted, ComponentsText(cs[|cs|..], alone, isLink, needsSlash)) == Ok((done, emitted))
  {
    assert done + [] == done;
  }

  lemma NotTooMuch(done: seq<Byte>, room: nat)
    ensures TooMuch(done, room) <==> !(|done| <= room && 0 !in done)
  {
  }

  lemma Overflows(done: seq<Byte>, piece: seq<Byte>, more: seq<Byte>, room: nat)
    requires !(|done + piece| <= room && 0 !in done + piece)
    ensures TooMuch(done + (piece + more), room) && TooMuch(done + piece, room)
  {
    assert done + (piece + more) == (done + piece) + more;
    if 0 in done + piece { assert 0 in (done + piece) + more; }
  }

  /** What has outgrown the field already cannot be written in full. */
  lemma GivesUp(all: Result<(seq<Byte>, bool)>, done: seq<Byte>, rest: Result<(seq<Byte>, bool)>, room: nat,
      path: seq<Byte>, isLink: bool)
    requires all == ComponentsText(Components(path), |Components(path)| == 1, isLink, false)
               == Continued(done, true, rest)
    requires TooMuch(done, room)
    ensures PathText(path, isLink).Ok? ==> TooMuch(PathText(path, isLink).value, room)
  {
    hide ComponentsText, Components, TooMuch, Continued;
    if all.Ok? {
      TooMuchStays(done, true, rest, room, if EndsWithSlash(path) then [SLASH] else []);
    }
  }

  lemma PartlyOutside(s: seq<Byte>, t: seq<Byte>, lo: nat, hi: nat, done: seq<Byte>)
    requires lo <= hi <= |s| && Partly(s, t, lo, hi, done)
    ensures t[..lo] == s[..lo] && t[hi..] == s[hi..]
    ensures done != [] ==> t == Written(s, lo, hi, done)
  {
  }
}
