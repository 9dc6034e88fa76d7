/** The inode numbers that `StargzIndexTreeBuilder` gives out. */
module TocNumbers {
  import opened Nodes
  import opened FastIndex
  import opened Toc

  /** The proper prefixes of a path. */
  ghost function Above(p: Path): set<Path> {
    set l | 0 <= l < |p| :: p[..l]
  }

  /** The paths that have a number of their own after a table: a hard link to one of them has none. */
  ghost function Known(toc: seq<TocItem>): set<Path> {
    if toc == [] then {}
    else KnownAfter(Known(toc[..|toc| - 1]), toc[|toc| - 1].entry)
  }

  ghost function KnownAfter(known: set<Path>, e: TocEntry): set<Path> {
    if !e.IsNode() then known
    else if e.tocType.TocHardlink? && e.linkName.comps in known + Above(e.Path()) then known + Above(e.Path())
    else known + Above(e.Path()) + {e.Path()}
  }

  /** The root's number: one more than the paths known before its last entry, or the first number without an entry of
      its own so far. */
  ghost function RootNumber(toc: seq<TocItem>): nat {
    if toc == [] then 1
    else
      var front, e := toc[..|toc| - 1], toc[|toc| - 1].entry;
      if e.IsNode() && e.Path() == [] then |Known(front)| + 1 else RootNumber(front)
  }

  lemma {:induction false} NothingKnown(toc: seq<TocItem>)
    requires Known(toc) == {}
    ensures RootNumber(toc) == 1
  {
    if toc != [] {
      var front, e := toc[..|toc| - 1], toc[|toc| - 1].entry;
      assert Known(toc) == KnownAfter(Known(front), e);
      NothingKnown(front);
    }
  }

  // ----- directories and links -----

  /** The path is that of a directory of the table, listed or missing. */
  ghost predicate NamesDir(toc: seq<TocItem>, p: Path) {
    p == [] || exists j :: 0 <= j < |toc| && DirBy(toc[j].entry, p)
  }

  ghost predicate DirBy(e: TocEntry, p: Path) {
    e.IsNode() && (StrictPrefix(p, e.Path()) || (e.Path() == p && e.tocType.TocDir?))
  }

  /** As in any archive, no hard link names a directory. */
  ghost predicate NoDirLinks(toc: seq<TocItem>) {
    forall i :: 0 <= i < |toc| && toc[i].entry.tocType.TocHardlink? ==> !NamesDir(toc, toc[i].entry.linkName.comps)
  }

  // ----- what holds of the numbers during the scan -----

  /** The node has the number of its own path, or is a file with the number of another file's. */
  ghost predicate OwnNumber(toc: seq<TocItem>, m: map<Path, nat>, n: Node) {
    || (n.path in m && n.realIno == m[n.path])
    || (!n.IsDir() && exists p :: p in m && !NamesDir(toc, p) && n.realIno == m[p])
  }

  /** The number of the last node for the root. */
  function LastRoot(nodes: seq<Node>): nat {
    if nodes == [] then 0
    else if nodes[|nodes| - 1].path == [] then nodes[|nodes| - 1].realIno
    else LastRoot(nodes[..|nodes| - 1])
  }

  /** All paths but the root's have the numbers from 2 on, each its own; the root's is known whenever any is. */
  ghost predicate Counted(m: map<Path, nat>) {
    && (m != map[] ==> [] in m)
    && (forall p :: p in m && p != [] ==> 2 <= m[p] <= |m|)
    && (forall p, q :: p in m && q in m && p != [] && q != [] && m[p] == m[q] ==> p == q)
    && (forall v :: 2 <= v <= |m| ==> IsGiven(m, v))
  }

  ghost predicate IsGiven(m: map<Path, nat>, v: nat) {
    exists p :: p in m && p != [] && m[p] == v
  }

  /** The nodes so far have these numbers. */
  ghost predicate CountedNodes(toc: seq<TocItem>, m: map<Path, nat>, nodes: seq<Node>) {
    && (m != map[] ==> [] in m && LastRoot(nodes) == m[[]])
    && (forall p :: p in m && p != [] ==> exists k ::
        0 <= k < |nodes| && nodes[k].path == p && nodes[k].realIno == m[p])
    && (forall k :: 0 <= k < |nodes| && nodes[k].path != [] ==> OwnNumber(toc, m, nodes[k]))
  }

  lemma NothingCounted(toc: seq<TocItem>)
    ensures Counted(map[]) && CountedNodes(toc, map[], [])
  {
  }

  /** A path that is new, or the root's, gets the next number. */
  lemma CountedStep(m: map<Path, nat>, p: Path)
    requires Counted(m) && (p != [] ==> p !in m && m != map[])
    ensures Counted(m[p := |m| + 1])
  {
    var m' := m[p := |m| + 1];
    NextSize(m, p);
    forall v | 2 <= v <= |m'|
      ensures IsGiven(m', v)
    {
      if v == |m| + 1 {
        assert m'[p] == v;
      } else {
        assert IsGiven(m, v);
        var q :| q in m && q != [] && m[q] == v;
        assert m'[q] == v;
      }
    }
  }

  lemma CountedPush(toc: seq<TocItem>, m: map<Path, nat>, nodes: seq<Node>, n: Node)
    requires CountedNodes(toc, m, nodes) && n.realIno == |m| + 1
    requires n.path != [] ==> n.path !in m && m != map[]
    ensures CountedNodes(toc, m[n.path := |m| + 1], nodes + [n])
  {
    hide NamesDir;
    var m', all := m[n.path := |m| + 1], nodes + [n];
    assert all[..|all| - 1] == nodes;
    forall p | p in m' && p != []
      ensures exists k :: 0 <= k < |all| && all[k].path == p && all[k].realIno == m'[p]
    {
      if p == n.path {
        assert all[|nodes|].path == p;
      } else {
        var k :| 0 <= k < |nodes| && nodes[k].path == p && nodes[k].realIno == m[p];
        assert all[k].path == p;
      }
    }
    forall k | 0 <= k < |all| && all[k].path != []
      ensures OwnNumber(toc, m', all[k])
    {
      if k < |nodes| { NumberStays(toc, m, nodes[k], n.path); }
    }
  }

  lemma NextSize(m: map<Path, nat>, p: Path)
    ensures var m' := m[p := |m| + 1]; |m'| == if p in m then |m| else |m| + 1
  {
    var m' := m[p := |m| + 1];
    assert m'.Keys == m.Keys + {p};
    assert |m'.Keys| == |m'| && |m.Keys| == |m|;
  }

  lemma NumberStays(toc: seq<TocItem>, m: map<Path, nat>, n: Node, p: Path)
    requires OwnNumber(toc, m, n) && n.path != [] && (p != [] ==> p !in m)
    ensures OwnNumber(toc, m[p := |m| + 1], n)
  {
    if !(n.path in m && n.realIno == m[n.path]) {
      var q :| q in m && !NamesDir(toc, q) && n.realIno == m[q];
      assert q != [] && m[p := |m| + 1][q] == m[q];
    }
  }

  /** A hard link to a file that is known has that file's number. */
  lemma LinkedPush(toc: seq<TocItem>, m: map<Path, nat>, nodes: seq<Node>, n: Node, link: Path)
    requires CountedNodes(toc, m, nodes) && n.path != [] && !n.IsDir()
    requires link in m && !NamesDir(toc, link) && n.realIno == m[link]
    ensures CountedNodes(toc, m, nodes + [n])
  {
    hide NamesDir;
    var all := nodes + [n];
    assert all[..|all| - 1] == nodes;
    forall p | p in m && p != []
      ensures exists k :: 0 <= k < |all| && all[k].path == p && all[k].realIno == m[p]
    {
      var k :| 0 <= k < |nodes| && nodes[k].path == p && nodes[k].realIno == m[p];
      assert all[k].path == p;
    }
  }

  // ----- which paths are known -----

  /** With a path, all above it are known. */
  ghost predicate Closed(known: set<Path>) {
    forall p :: p in known && p != [] ==> Parent(p) in known
  }

  lemma {:induction false} ClosedAbove(known: set<Path>, p: Path)
    requires Closed(known) && p in known
    ensures Above(p) <= known
  {
    if p != [] {
      ClosedAbove(known, Parent(p));
      forall q | q in Above(p)
        ensures q in known
      {
        var l :| 0 <= l < |p| && q == p[..l];
        if l < |p| - 1 {
          assert q == Parent(p)[..l];
          assert q in Above(Parent(p));
        }
      }
    }
  }

  /** The missing directories of a path are what is unknown above it. */
  lemma LostKnown(before: set<Path>, after: set<Path>, p: Path, m: nat)
    requires Closed(before) && m <= |p| && (m > 0 ==> p[..m - 1] in before)
    requires forall q :: q in after <==> q in before || exists l :: m <= l < |p| && q == p[..l]
    ensures after == before + Above(p)
  {
    forall q | q in Above(p)
      ensures q in after
    {
      var l :| 0 <= l < |p| && q == p[..l];
      if l < m - 1 {
        ClosedAbove(before, p[..m - 1]);
        assert q == p[..m - 1][..l];
        assert q in Above(p[..m - 1]);
      }
    }
  }

  /** The root's number is one of the numbers given out, or the next. */
  lemma {:induction false} RootNumberBound(toc: seq<TocItem>)
    ensures 1 <= RootNumber(toc) <= |Known(toc)| + 1
  {
    if toc != [] {
      var front := toc[..|toc| - 1];
      RootNumberBound(front);
      assert Known(front) <= Known(toc);
      SubsetSize(Known(front), Known(toc));
    }
  }

  lemma {:induction false} SubsetSize(a: set<Path>, b: set<Path>)
    requires a <= b
    ensures |a| <= |b|
  {
    assert b == a + (b - a);
    assert |b| == |a| + |b - a|;
  }
}
