/** `TocIndexStore`: the entries of all packages by blob, and each package's ranges in them, updated by concurrent adds
    that take the lock twice. */
module TocStore {
  import opened Wrappers
  import opened Bytes
  import opened Toc

  datatype TocIndex = TocIndex(version: nat, entries: seq<TocEntry>)

  datatype Range = Range(start: nat, end: nat)

  type TocMap = map<Name, TocIndex>
  type Indices = map<seq<Byte>, map<Name, Range>>

  // ----- package ids -----

  const AT: Byte := 64

  /** `package_id`: name and version around an `@`. */
  function PackageId(name: seq<Byte>, version: seq<Byte>): seq<Byte> {
    name + [AT] + version
  }

  /** The first name goes on with an `@` and `x`, and the second version starts with `x` and an `@`. */
  predicate Shifted(n1: seq<Byte>, v1: seq<Byte>, n2: seq<Byte>, v2: seq<Byte>) {
    |n1| > |n2| && n1[..|n2|] == n2 && n1[|n2|] == 64 && v2 == n1[|n2| + 1..] + [64] + v1
  }

  /** Two packages share an id exactly when they are the same, or one's name holds an `@` where the other's version
      begins, and the other's version one where the first's begins. */
  lemma PackageIdIff(n1: seq<Byte>, v1: seq<Byte>, n2: seq<Byte>, v2: seq<Byte>)
    ensures PackageId(n1, v1) == PackageId(n2, v2) <==>
            (n1 == n2 && v1 == v2) || Shifted(n1, v1, n2, v2) || Shifted(n2, v2, n1, v1)
  {
    if PackageId(n1, v1) == PackageId(n2, v2) {
      if |n1| == |n2| {
        assert PackageId(n1, v1)[..|n1|] == n1 && PackageId(n1, v1)[|n1| + 1..] == v1;
        assert PackageId(n2, v2)[..|n2|] == n2 && PackageId(n2, v2)[|n2| + 1..] == v2;
      } else if |n1| > |n2| {
        SameIdShifts(n1, v1, n2, v2);
      } else {
        SameIdShifts(n2, v2, n1, v1);
      }
    }
    if Shifted(n1, v1, n2, v2) { ShiftedSameId(n1, v1, n2, v2); }
    if Shifted(n2, v2, n1, v1) { ShiftedSameId(n2, v2, n1, v1); }
  }

  lemma SameIdShifts(n1: seq<Byte>, v1: seq<Byte>, n2: seq<Byte>, v2: seq<Byte>)
    requires PackageId(n1, v1) == PackageId(n2, v2) && |n1| > |n2|
    ensures Shifted(n1, v1, n2, v2)
  {
    var id := PackageId(n1, v1);
    assert id[..|n2|] == n1[..|n2|] && PackageId(n2, v2)[..|n2|] == n2;
    assert id[|n2|] == n1[|n2|] && PackageId(n2, v2)[|n2|] == AT;
    assert id[|n2| + 1..] == n1[|n2| + 1..] + [AT] + v1 && PackageId(n2, v2)[|n2| + 1..] == v2;
  }

  lemma ShiftedSameId(n1: seq<Byte>, v1: seq<Byte>, n2: seq<Byte>, v2: seq<Byte>)
    requires Shifted(n1, v1, n2, v2)
    ensures PackageId(n1, v1) == PackageId(n2, v2)
  {
    assert n1 == n2 + [AT] + n1[|n2| + 1..];
  }

  /** Versions without `@` keep packages apart, whatever their names. */
  lemma PlainVersions(n1: seq<Byte>, v1: seq<Byte>, n2: seq<Byte>, v2: seq<Byte>)
    requires 64 !in v1 && 64 !in v2 && PackageId(n1, v1) == PackageId(n2, v2)
    ensures n1 == n2 && v1 == v2
  {
    PackageIdIff(n1, v1, n2, v2);
    ShiftedHasAt(n1, v1, n2, v2);
    ShiftedHasAt(n2, v2, n1, v1);
  }

  lemma ShiftedHasAt(n1: seq<Byte>, v1: seq<Byte>, n2: seq<Byte>, v2: seq<Byte>)
    ensures Shifted(n1, v1, n2, v2) ==> AT in v2
  {
    if Shifted(n1, v1, n2, v2) { assert v2[|n1[|n2| + 1..]|] == AT; }
  }

  /** `a@b` in version `c` and `a` in version `b@c` share an id. */
  lemma IdsCollide()
    ensures PackageId([97, 64, 98], [99]) == PackageId([97], [98, 64, 99]) == [97, 64, 98, 64, 99]
  {
  }

  // ----- the two locked steps of an add -----

  /** How many entries a blob has. */
  function Length(m: TocMap, blobId: Name): nat {
    if blobId in m then |m[blobId].entries| else 0
  }

  /** `add_package_toc`. */
  function WithToc(m: TocMap, blobId: Name, toc: TocIndex): TocMap {
    if blobId in m then m[blobId := TocIndex(m[blobId].version, m[blobId].entries + toc.entries)] else m[blobId := toc]
  }

  /** `add_package_index`. */
  function WithIndex(m: Indices, id: seq<Byte>, blobId: Name, range: Range): Indices {
    if id in m then m[id := m[id][blobId := range]] else m[id := map[blobId := range]]
  }

  class TocIndexStore {
    var tocMap: TocMap
    var indices: Indices

    constructor ()
      ensures tocMap == map[] && indices == map[]
    {
      tocMap, indices := map[], map[];
    }

    /** Every stored range is one of the blob's entries, and every package has a range. */
    ghost predicate Valid()
      reads this
    {
      InBounds(tocMap, indices)
    }

    method AddPackageToc(blobId: Name, toc: TocIndex) returns (start: nat)
      modifies this`tocMap
      ensures tocMap == WithToc(old(tocMap), blobId, toc) && start == Length(old(tocMap), blobId)
      ensures tocMap.Keys == old(tocMap).Keys + {blobId} && forall b :: b in old(tocMap) && b != blobId ==>
                tocMap[b] == old(tocMap)[b]
      ensures if blobId in old(tocMap) then
                && start == |old(tocMap)[blobId].entries| && tocMap[blobId].version == old(tocMap)[blobId].version
                && tocMap[blobId].entries == old(tocMap)[blobId].entries + toc.entries
              else start == 0 && tocMap[blobId] == toc
    {
      if blobId in tocMap {
        var existing := tocMap[blobId];
        start := |existing.entries|;
        tocMap := tocMap[blobId := existing.(entries := existing.entries + toc.entries)];
      } else {
        tocMap := tocMap[blobId := toc];
        start := 0;
      }
    }

    method AddPackageIndex(name: seq<Byte>, version: seq<Byte>, blobId: Name, range: Range)
      modifies this`indices
      ensures indices == WithIndex(old(indices), PackageId(name, version), blobId, range)
      ensures var id := name + [64] + version;
              id in indices && blobId in indices[id] && indices[id][blobId] == range
      ensures forall id, b :: id in indices && b in indices[id] && !(id == name + [64] + version && b == blobId) ==>
                id in old(indices) && b in old(indices)[id] && indices[id][b] == old(indices)[id][b]
      ensures forall id, b :: id in old(indices) && b in old(indices)[id] ==> id in indices && b in indices[id]
    {
      var id := PackageId(name, version);
      if id in indices {
        indices := indices[id := indices[id][blobId := range]];
      } else {
        indices := indices[id := map[blobId := range]];
      }
    }

    method AddPackage(name: seq<Byte>, version: seq<Byte>, blobId: Name, toc: TocIndex)
      modifies this
      ensures tocMap == WithToc(old(tocMap), blobId, toc)
      ensures var start := Length(old(tocMap), blobId);
              indices == WithIndex(old(indices), PackageId(name, version), blobId, Range(start, start + |toc.entries|))
    {
      var start := AddPackageToc(blobId, toc);
      AddPackageIndex(name, version, blobId, Range(start, start + |toc.entries|));
    }

    method HasPackage(name: seq<Byte>, version: seq<Byte>) returns (r: bool)
      ensures r <==> PackageId(name, version) in indices
    {
      r := PackageId(name, version) in indices;
    }

    /** `get_package`: any one of the package's ranges, in the order of a hash map. */
    method GetPackage(name: seq<Byte>, version: seq<Byte>) returns (r: Option<(Name, TocIndex)>)
      requires Valid()
      ensures r.Some? <==> PackageId(name, version) in indices
      ensures r.Some? ==> Selects(tocMap, indices, PackageId(name, version), r.value)
    {
      var id := PackageId(name, version);
      if id !in indices {
        return None;
      }
      var blobId :| blobId in indices[id];
      var range := indices[id][blobId];
      if blobId !in tocMap {
        return None;
      }
      r := Some((blobId, TocIndex(tocMap[blobId].version, tocMap[blobId].entries[range.start..range.end])));
    }
  }

  ghost predicate InBounds(tocMap: TocMap, indices: Indices) {
    forall id :: id in indices ==>
      indices[id] != map[] && forall b :: b in indices[id] ==>
          indices[id][b].start <= indices[id][b].end <= Length(tocMap, b) && b in tocMap
  }

  /** `r` is what one of the ranges of package `id` selects. */
  ghost predicate Selects(tocMap: TocMap, indices: Indices, id: seq<Byte>, r: (Name, TocIndex))
    requires InBounds(tocMap, indices)
  {
    && id in indices && r.0 in indices[id]
    && r.1 == TocIndex(tocMap[r.0].version, tocMap[r.0].entries[indices[id][r.0].start..indices[id][r.0].end])
  }

  // ----- concurrent adds -----

  datatype Request = Request(name: seq<Byte>, version: seq<Byte>, blobId: Name, toc: TocIndex)
  {
    function Id(): seq<Byte> { PackageId(name, version) }
  }

  /** How far a call of `add_package` has come. */
  datatype Add =
    | Called(req: Request)
    | TocAdded(req: Request, start: nat)
    | Completed(req: Request, start: nat)
  {
    function End(): nat
      requires !Called?
    {
      start + |req.toc.entries|
    }
  }

  datatype State = State(tocMap: TocMap, indices: Indices, adds: seq<Add>)

  datatype Step = Call(req: Request) | AddToc(i: nat) | AddIndex(i: nat)

  /** One step of one caller; a step that is not the next of its call does nothing. */
  function Next(s: State, step: Step): State {
    match step
    case Call(req) => s.(adds := s.adds + [Called(req)])
    case AddToc(i) =>
      if i < |s.adds| && s.adds[i].Called? then
        var req := s.adds[i].req;
        State(WithToc(s.tocMap, req.blobId, req.toc), s.indices, s.adds[i := TocAdded(req, Length(s.tocMap,
            req.blobId))])
      else s
    case AddIndex(i) =>
      if i < |s.adds| && s.adds[i].TocAdded? then
        var a := s.adds[i];
        State(s.tocMap, WithIndex(s.indices, a.req.Id(), a.req.blobId, Range(a.start, a.End())),
            s.adds[i := Completed(a.req, a.start)])
      else s
  }

  function Run(s: State, steps: seq<Step>): State {
    if steps == [] then s else Next(Run(s, steps[..|steps| - 1]), steps[|steps| - 1])
  }

  /** Calls interleaved step by step on one store. */
  method Interleave(store: TocIndexStore, steps: seq<Step>) returns (adds: seq<Add>)
    modifies store
    ensures State(store.tocMap, store.indices, adds) == Run(State(old(store.tocMap), old(store.indices), []), steps)
  {
    adds := [];
    ghost var s0 := State(store.tocMap, store.indices, []);
    for k := 0 to |steps|
      invariant State(store.tocMap, store.indices, adds) == Run(s0, steps[..k])
    {
      assert steps[..k + 1][..k] == steps[..k];
      match steps[k] {
        case Call(req) => adds := adds + [Called(req)];
        case AddToc(i) =>
          if i < |adds| && adds[i].Called? {
            var start := store.AddPackageToc(adds[i].req.blobId, adds[i].req.toc);
            adds := adds[i := TocAdded(adds[i].req, start)];
          }
        case AddIndex(i) =>
          if i < |adds| && adds[i].TocAdded? {
            var a := adds[i];
            store.AddPackageIndex(a.req.name, a.req.version, a.req.blobId, Range(a.start, a.End()));
            adds := adds[i := Completed(a.req, a.start)];
          }
      }
    }
    assert steps[..|steps|] == steps;
  }

  // ----- what every step keeps -----

  /** The add's own entries are where its start says. */
  ghost predicate Placed(m: TocMap, a: Add) {
    !a.Called? ==>
      && a.req.blobId in m && a.End() <= |m[a.req.blobId].entries|
      && m[a.req.blobId].entries[a.start..a.End()] == a.req.toc.entries
  }

  /** Two adds to one blob have different places in it. */
  ghost predicate Disjoint(a: Add, b: Add) {
    !a.Called? && !b.Called? && a.req.blobId == b.req.blobId ==> a.End() <= b.start || b.End() <= a.start
  }

  /** The range is that of a completed add of package `id` to blob `b`. */
  ghost predicate Owned(adds: seq<Add>, id: seq<Byte>, b: Name, range: Range) {
    exists i :: 0 <= i < |adds| && IsAdd(adds[i], id, b, range)
  }

  ghost predicate IsAdd(a: Add, id: seq<Byte>, b: Name, range: Range) {
    a.Completed? && a.req.Id() == id && a.req.blobId == b && range == Range(a.start, a.End())
  }

  ghost predicate Consistent(s: State) {
    && (forall i :: 0 <= i < |s.adds| ==> Placed(s.tocMap, s.adds[i]))
    && (forall i, j :: 0 <= i < j < |s.adds| ==> Disjoint(s.adds[i], s.adds[j]))
    && (forall id, b :: id in s.indices && b in s.indices[id] ==> Owned(s.adds, id, b, s.indices[id][b]))
    && (forall id :: id in s.indices ==> s.indices[id] != map[])
    && (forall i :: 0 <= i < |s.adds| && s.adds[i].Completed? ==> s.adds[i].req.Id() in s.indices)
  }

  lemma TocKeeps(s: State, i: nat)
    requires Consistent(s) && i < |s.adds| && s.adds[i].Called?
    ensures Consistent(Next(s, AddToc(i)))
  {
    hide Owned;
    var t := Next(s, AddToc(i));
    var blob, start := s.adds[i].req.blobId, Length(s.tocMap, s.adds[i].req.blobId);
    forall k | 0 <= k < |t.adds|
      ensures Placed(t.tocMap, t.adds[k])
    {
      assert Placed(s.tocMap, s.adds[k]);
      if k != i { StaysPlaced(s.tocMap, s.adds[k], blob, s.adds[i].req.toc); }
    }
    forall k, l | 0 <= k < l < |t.adds|
      ensures Disjoint(t.adds[k], t.adds[l])
    {
      assert Disjoint(s.adds[k], s.adds[l]) && Placed(s.tocMap, s.adds[k]) && Placed(s.tocMap, s.adds[l]);
    }
    forall id, b | id in t.indices && b in t.indices[id]
      ensures Owned(t.adds, id, b, t.indices[id][b])
    {
      assert Owned(s.adds, id, b, s.indices[id][b]);
      StaysOwned(s.adds, i, t.adds[i], id, b, s.indices[id][b]);
    }
  }

  /** Appending to a blob moves none of its entries. */
  lemma StaysPlaced(m: TocMap, a: Add, blobId: Name, toc: TocIndex)
    requires Placed(m, a)
    ensures Placed(WithToc(m, blobId, toc), a)
  {
    if !a.Called? && a.req.blobId == blobId {
      var before, after := m[blobId].entries, WithToc(m, blobId, toc)[blobId].entries;
      assert after[a.start..a.End()] == before[a.start..a.End()];
    }
  }

  lemma StaysOwned(adds: seq<Add>, i: nat, a: Add, id: seq<Byte>, b: Name, range: Range)
    requires i < |adds| && !adds[i].Completed? && Owned(adds, id, b, range)
    ensures Owned(adds[i := a], id, b, range)
  {
    var k :| 0 <= k < |adds| && IsAdd(adds[k], id, b, range);
    assert IsAdd(adds[i := a][k], id, b, range);
  }

  lemma IndexKeeps(s: State, i: nat)
    requires Consistent(s) && i < |s.adds| && s.adds[i].TocAdded?
    ensures Consistent(Next(s, AddIndex(i)))
  {
    hide Owned, Placed, Disjoint;
    var t := Next(s, AddIndex(i));
    var a := t.adds[i];
    forall k | 0 <= k < |t.adds|
      ensures Placed(t.tocMap, t.adds[k])
    {
      assert Placed(s.tocMap, s.adds[k]);
      CompletedAlike(s.tocMap, s.adds[i], s.adds[i]);
    }
    forall k, l | 0 <= k < l < |t.adds|
      ensures Disjoint(t.adds[k], t.adds[l])
    {
      assert Disjoint(s.adds[k], s.adds[l]);
      CompletedAlike(s.tocMap, s.adds[i], s.adds[k]);
      CompletedAlike(s.tocMap, s.adds[i], s.adds[l]);
    }
    forall id, b | id in t.indices && b in t.indices[id]
      ensures Owned(t.adds, id, b, t.indices[id][b])
    {
      if id in s.indices && b in s.indices[id] && Owned(s.adds, id, b, t.indices[id][b]) {
        StaysOwned(s.adds, i, a, id, b, t.indices[id][b]);
      } else {
        OwnedBy(t.adds, i, id, b, t.indices[id][b]);
      }
    }
    forall id | id in t.indices
      ensures t.indices[id] != map[]
    {
      if id == a.req.Id() { assert a.req.blobId in t.indices[id]; }
    }
  }

  lemma OwnedBy(adds: seq<Add>, i: nat, id: seq<Byte>, b: Name, range: Range)
    requires i < |adds| && IsAdd(adds[i], id, b, range)
    ensures Owned(adds, id, b, range)
  {
  }

  /** Completing an add leaves its place alone. */
  lemma CompletedAlike(m: TocMap, a: Add, b: Add)
    requires a.TocAdded?
    ensures Placed(m, Completed(a.req, a.start)) <==> Placed(m, a)
    ensures Disjoint(Completed(a.req, a.start), b) <==> Disjoint(a, b)
    ensures Disjoint(b, Completed(a.req, a.start)) <==> Disjoint(b, a)
  {
  }

  lemma CallKeeps(s: State, req: Request)
    requires Consistent(s)
    ensures Consistent(Next(s, Call(req)))
  {
    hide Owned, Placed;
    var t := Next(s, Call(req));
    assert Placed(t.tocMap, Called(req)) by { NotPlaced(t.tocMap, req); }
    forall id, b | id in t.indices && b in t.indices[id]
      ensures Owned(t.adds, id, b, t.indices[id][b])
    {
      assert Owned(s.adds, id, b, s.indices[id][b]);
      MoreOwned(s.adds, Called(req), id, b, s.indices[id][b]);
    }
  }

  lemma NotPlaced(m: TocMap, req: Request)
    ensures Placed(m, Called(req))
  {
  }

  lemma MoreOwned(adds: seq<Add>, a: Add, id: seq<Byte>, b: Name, range: Range)
    requires Owned(adds, id, b, range)
    ensures Owned(adds + [a], id, b, range)
  {
    var k :| 0 <= k < |adds| && IsAdd(adds[k], id, b, range);
    assert IsAdd((adds + [a])[k], id, b, range);
  }

  /** Whatever the interleaving: every add's range is in bounds and selects its own entries, ranges of different adds to
      one blob are disjoint, and every stored range is that of a completed add. */
  lemma {:induction false} EveryRunConsistent(s: State, steps: seq<Step>)
    requires Consistent(s)
    ensures Consistent(Run(s, steps))
  {
    hide Consistent;
    if steps != [] {
      var before := Run(s, steps[..|steps| - 1]);
      EveryRunConsistent(s, steps[..|steps| - 1]);
      match steps[|steps| - 1] {
        case Call(req) => CallKeeps(before, req);
        case AddToc(i) => if i < |before.adds| && before.adds[i].Called? { TocKeeps(before, i); }
        case AddIndex(i) => if i < |before.adds| && before.adds[i].TocAdded? { IndexKeeps(before, i); }
      }
    }
  }

  lemma EmptyStore()
    ensures Consistent(State(map[], map[], []))
  {
  }

  /** A consistent store never slices out of bounds. */
  lemma ConsistentInBounds(s: State)
    requires Consistent(s)
    ensures InBounds(s.tocMap, s.indices)
  {
    hide Disjoint;
    forall id, b | id in s.indices && b in s.indices[id]
      ensures s.indices[id][b].start <= s.indices[id][b].end <= Length(s.tocMap, b) && b in s.tocMap
    {
      assert Owned(s.adds, id, b, s.indices[id][b]);
      var i :| 0 <= i < |s.adds| && IsAdd(s.adds[i], id, b, s.indices[id][b]);
      assert Placed(s.tocMap, s.adds[i]);
    }
  }

  /** What `get_package` returns is the entries of a completed add under the package's id. */
  lemma SelectedIsAdd(s: State, id: seq<Byte>, r: (Name, TocIndex)) returns (i: nat)
    requires Consistent(s) && InBounds(s.tocMap, s.indices) && Selects(s.tocMap, s.indices, id, r)
    ensures i < |s.adds| && s.adds[i].Completed? && s.adds[i].req.Id() == id
    ensures s.adds[i].req.blobId == r.0 && s.adds[i].req.toc.entries == r.1.entries
  {
    hide Consistent, Placed, InBounds;
    var range := s.indices[id][r.0];
    OwnersPlaced(s, id, r.0);
    i :| 0 <= i < |s.adds| && IsAdd(s.adds[i], id, r.0, range) && Placed(s.tocMap, s.adds[i]);
    OwnEntries(s.tocMap, s.adds[i], range);
  }

  lemma OwnersPlaced(s: State, id: seq<Byte>, b: Name)
    requires Consistent(s) && id in s.indices && b in s.indices[id]
    ensures exists i :: 0 <= i < |s.adds| && IsAdd(s.adds[i], id, b, s.indices[id][b]) && Placed(s.tocMap, s.adds[i])
  {
    hide Disjoint, Placed, IsAdd;
    assert Owned(s.adds, id, b, s.indices[id][b]);
  }

  lemma OwnEntries(m: TocMap, a: Add, range: Range)
    requires Placed(m, a) && !a.Called? && range == Range(a.start, a.End())
    ensures a.req.blobId in m && range.start <= range.end <= |m[a.req.blobId].entries|
    ensures m[a.req.blobId].entries[range.start..range.end] == a.req.toc.entries
  {
  }

  /** After any interleaving of adds to a new store: if it has a package whose adds, like all others, name versions
      without `@`, `get_package` returns the entries and the blob of a completed add of that very package, and if any
      add of it has completed, the store has it. */
  method HasThenGets(steps: seq<Step>, name: seq<Byte>, version: seq<Byte>) returns (has: bool, r: Option<(Name,
      TocIndex)>, adds: seq<Add>)
    requires AT !in version && forall k :: 0 <= k < |steps| && steps[k].Call? ==> AT !in steps[k].req.version
    ensures has <==> exists i ::
              0 <= i < |adds| && adds[i].Completed? && adds[i].req.name == name && adds[i].req.version == version
    ensures has <==> r.Some?
    ensures r.Some? ==> exists i :: 0 <= i < |adds| && Returned(adds[i], name, version, r.value)
    ensures adds == Run(State(map[], map[], []), steps).adds
  {
    hide Consistent, Next, Returned;
    var store := new TocIndexStore();
    adds := Interleave(store, steps);
    ghost var s := State(store.tocMap, store.indices, adds);
    EmptyStore();
    EveryRunConsistent(State(map[], map[], []), steps);
    ConsistentInBounds(s);
    has := store.HasPackage(name, version);
    r := store.GetPackage(name, version);
    PlainAdds(State(map[], map[], []), steps);
    OwnAdd(s, name, version, r);
  }

  ghost predicate Returned(a: Add, name: seq<Byte>, version: seq<Byte>, r: (Name, TocIndex)) {
    a.Completed? && a.req.name == name && a.req.version == version && a.req.blobId == r.0
        && a.req.toc.entries == r.1.entries
  }

  lemma {:induction false} PlainAdds(s: State, steps: seq<Step>)
    requires forall i :: 0 <= i < |s.adds| ==> AT !in s.adds[i].req.version
    requires forall k :: 0 <= k < |steps| && steps[k].Call? ==> AT !in steps[k].req.version
    ensures forall i :: 0 <= i < |Run(s, steps).adds| ==> AT !in Run(s, steps).adds[i].req.version
  {
    if steps != [] { PlainAdds(s, steps[..|steps| - 1]); }
  }

  lemma OwnAdd(s: State, name: seq<Byte>, version: seq<Byte>, r: Option<(Name, TocIndex)>)
    requires Consistent(s) && InBounds(s.tocMap, s.indices) && AT !in version
    requires forall i :: 0 <= i < |s.adds| ==> AT !in s.adds[i].req.version
    requires r.Some? <==> PackageId(name, version) in s.indices
    requires r.Some? ==> Selects(s.tocMap, s.indices, PackageId(name, version), r.value)
    ensures r.Some? <==> exists i ::
              0 <= i < |s.adds| && s.adds[i].Completed?
              && s.adds[i].req.name == name && s.adds[i].req.version == version
    ensures r.Some? ==> exists i :: 0 <= i < |s.adds| && Returned(s.adds[i], name, version, r.value)
  {
    hide Owned, Placed, Disjoint, PackageId, InBounds, Selects;
    if r.Some? {
      var i := SelectedIsAdd(s, PackageId(name, version), r.value);
      PlainVersions(s.adds[i].req.name, s.adds[i].req.version, name, version);
      assert Returned(s.adds[i], name, version, r.value);
    }
  }
}
