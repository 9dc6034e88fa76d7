/** When the tree of a table of contents can be flattened by the builder that keeps hard links: its directories must
    have inode numbers of their own. */
module TableLinks {
  import opened Wrappers
  import opened Bytes
  import opened Nodes
  import opened Trees
  import opened FastIndex
  import opened Toc
  import opened TocNumbers
  import opened TocBuild
  import opened HardLinks

  // ----- directory keys by path -----

  /** A directory of key `k` is at the path `q` below `t`. */
  predicate DirAt(t: Tree, q: Path, k: LayeredKey) {
    NodeAt(t, q).Some? && NodeAt(t, q).value.IsDir() && KeyOf(NodeAt(t, q).value) == k
  }

  lemma BelowChild(t: Tree, i: nat, q: Path)
    requires Shaped(t) && i < |t.children|
    ensures NodeAt(t, [t.children[i].node.Name()] + q) == NodeAt(t.children[i], q)
  {
    hide Shaped;
    ShapedChild(t, i);
    ChildNamedIs(t.children, i);
    var p := [t.children[i].node.Name()] + q;
    assert p[1..] == q;
  }

  /** A node below the root is at or below a child. */
  lemma ChildOf(t: Tree, q: Path) returns (i: nat)
    requires q != [] && NodeAt(t, q).Some?
    ensures i < |t.children| && t.children[i].node.Name() == q[0] && NodeAt(t, q) == NodeAt(t.children[i], q[1..])
  {
    i := ChildNamed(t.children, q[0]).value;
  }

  lemma KeysCons(ts: seq<Tree>, k: LayeredKey)
    requires ts != []
    ensures DirKeysAll(ts)[k] == DirKeys(ts[0])[k] + DirKeysAll(ts[1..])[k]
    ensures forall i :: 1 <= i < |ts| ==> ts[i] == ts[1..][i - 1]
  {
    hide DirKeys;
  }

  /** Every directory of key `k` in one of the trees `ts` is counted. */
  lemma {:induction false} KeysInAll(ts: seq<Tree>, k: LayeredKey)
    ensures forall i, j :: 0 <= i < j < |ts| && DirKeys(ts[i])[k] > 0 && DirKeys(ts[j])[k] > 0 ==> DirKeysAll(ts)[k] > 1
    ensures forall i :: 0 <= i < |ts| ==> DirKeys(ts[i])[k] <= DirKeysAll(ts)[k]
  {
    hide DirKeys, DirKeysAll;
    if ts != [] {
      KeysInAll(ts[1..], k);
      KeysCons(ts, k);
    }
  }

  /** And each that is counted is in one of the trees. */
  lemma {:induction false} KeysFrom(ts: seq<Tree>, k: LayeredKey)
    ensures DirKeysAll(ts)[k] > 0 ==> exists i :: 0 <= i < |ts| && DirKeys(ts[i])[k] > 0
  {
    hide DirKeys, DirKeysAll;
    if ts == [] {
      NoKeys(k);
    } else {
      KeysFrom(ts[1..], k);
      KeysCons(ts, k);
      if DirKeysAll(ts[1..])[k] > 0 {
        var i :| 0 <= i < |ts[1..]| && DirKeys(ts[1..][i])[k] > 0;
        assert DirKeys(ts[i + 1])[k] > 0;
      }
    }
  }

  lemma NoKeys(k: LayeredKey)
    ensures DirKeysAll([])[k] == 0
  {
  }

  /** A key counted twice is in one tree twice, or in two of them. */
  lemma {:induction false} TwoKeysFrom(ts: seq<Tree>, k: LayeredKey)
    ensures DirKeysAll(ts)[k] > 1 ==>
              || (exists i :: 0 <= i < |ts| && DirKeys(ts[i])[k] > 1)
              || (exists i, j :: 0 <= i < j < |ts| && DirKeys(ts[i])[k] > 0 && DirKeys(ts[j])[k] > 0)
  {
    hide DirKeys, DirKeysAll;
    if ts == [] {
      NoKeys(k);
    } else if DirKeysAll(ts)[k] > 1 {
      var rest := ts[1..];
      TwoKeysFrom(rest, k);
      KeysFrom(rest, k);
      KeysCons(ts, k);
      if DirKeysAll(rest)[k] > 1 {
        if i :| 0 <= i < |rest| && DirKeys(rest[i])[k] > 1 {
          assert DirKeys(ts[i + 1])[k] > 1;
        } else {
          var i, j :| 0 <= i < j < |rest| && DirKeys(rest[i])[k] > 0 && DirKeys(rest[j])[k] > 0;
          assert DirKeys(ts[i + 1])[k] > 0 && DirKeys(ts[j + 1])[k] > 0;
        }
      } else if DirKeys(ts[0])[k] <= 1 {
        var i :| 0 <= i < |rest| && DirKeys(rest[i])[k] > 0;
        assert DirKeys(ts[i + 1])[k] > 0;
      }
    }
  }

  lemma KeysOfTree(t: Tree, k: LayeredKey)
    ensures DirKeys(t)[k] == (if t.node.IsDir() && KeyOf(t.node) == k then 1 else 0) + DirKeysAll(t.children)[k]
    ensures DirAt(t, [], k) <==> t.node.IsDir() && KeyOf(t.node) == k
  {
    hide DirKeysAll, KeyOf;
  }

  lemma {:induction false} KeyIsAt(t: Tree, k: LayeredKey) returns (q: Path)
    requires Shaped(t) && DirKeys(t)[k] > 0
    ensures DirAt(t, q, k)
    decreases t
  {
    hide Shaped, DirKeys, NodeAt;
    KeysOfTree(t, k);
    q := [];
    if !DirAt(t, [], k) {
      KeysFrom(t.children, k);
      var i :| 0 <= i < |t.children| && DirKeys(t.children[i])[k] > 0;
      ShapedChild(t, i);
      q := KeyIsAt(t.children[i], k);
      BelowChild(t, i, q);
      q := [t.children[i].node.Name()] + q;
    }
  }

  lemma {:induction false} AtIsKey(t: Tree, q: Path, k: LayeredKey)
    requires Shaped(t) && DirAt(t, q, k)
    ensures DirKeys(t)[k] > 0
    decreases |q|
  {
    hide Shaped, DirKeys, NodeAt;
    KeysOfTree(t, k);
    if q != [] {
      var i := ChildOf(t, q);
      ShapedChild(t, i);
      AtIsKey(t.children[i], q[1..], k);
      KeysInAll(t.children, k);
    }
  }

  /** Two directories of one key make it count twice. */
  lemma {:induction false} TwoCount(t: Tree, p: Path, q: Path, k: LayeredKey)
    requires Shaped(t) && DirAt(t, p, k) && DirAt(t, q, k) && p != q
    ensures DirKeys(t)[k] > 1
    decreases |p|
  {
    hide Shaped, DirKeys, NodeAt;
    KeysOfTree(t, k);
    KeysInAll(t.children, k);
    if p == [] {
      var i := ChildOf(t, q);
      ShapedChild(t, i);
      AtIsKey(t.children[i], q[1..], k);
    } else if q == [] {
      var i := ChildOf(t, p);
      ShapedChild(t, i);
      AtIsKey(t.children[i], p[1..], k);
    } else {
      var i := ChildOf(t, p);
      var j := ChildOf(t, q);
      ShapedChild(t, i);
      ShapedChild(t, j);
      if i == j {
        assert p == [p[0]] + p[1..] && q == [q[0]] + q[1..];
        TwoCount(t.children[i], p[1..], q[1..], k);
      } else {
        AtIsKey(t.children[i], p[1..], k);
        AtIsKey(t.children[j], q[1..], k);
        assert DirKeys(t.children[if i < j then i else j])[k] > 0;
      }
    }
  }

  /** A key that counts twice is that of two directories. */
  lemma {:induction false} CountedTwice(t: Tree, k: LayeredKey) returns (p: Path, q: Path)
    requires Shaped(t) && DirKeys(t)[k] > 1
    ensures DirAt(t, p, k) && DirAt(t, q, k) && p != q
    decreases t
  {
    hide Shaped, DirKeys, NodeAt;
    KeysOfTree(t, k);
    KeysFrom(t.children, k);
    TwoKeysFrom(t.children, k);
    if DirAt(t, [], k) {
      p := [];
      var i :| 0 <= i < |t.children| && DirKeys(t.children[i])[k] > 0;
      ShapedChild(t, i);
      q := KeyIsAt(t.children[i], k);
      BelowChild(t, i, q);
      q := [t.children[i].node.Name()] + q;
    } else if i :| 0 <= i < |t.children| && DirKeys(t.children[i])[k] > 1 {
      ShapedChild(t, i);
      p, q := CountedTwice(t.children[i], k);
      BelowChild(t, i, p);
      BelowChild(t, i, q);
      var name := t.children[i].node.Name();
      assert ([name] + p)[1..] == p && ([name] + q)[1..] == q;
      p, q := [name] + p, [name] + q;
    } else {
      var i, j :| 0 <= i < j < |t.children| && DirKeys(t.children[i])[k] > 0 && DirKeys(t.children[j])[k] > 0;
      ShapedChild(t, i);
      ShapedChild(t, j);
      p := KeyIsAt(t.children[i], k);
      q := KeyIsAt(t.children[j], k);
      BelowChild(t, i, p);
      BelowChild(t, j, q);
      p, q := [t.children[i].node.Name()] + p, [t.children[j].node.Name()] + q;
      assert p[0] != q[0];
    }
  }

  lemma {:induction false} KeyedAt(t: Tree, D: set<LayeredKey>, q: Path)
    requires Keyed(t, D) && NodeAt(t, q).Some?
    ensures NodeAt(t, q).value.IsDir() <==> KeyOf(NodeAt(t, q).value) in D
    decreases |q|
  {
    if q != [] {
      var i := ChildOf(t, q);
      KeyedAt(t.children[i], D, q[1..]);
    }
  }

  lemma {:induction false} KeyedByPaths(t: Tree, D: set<LayeredKey>)
    requires Shaped(t)
    requires forall q :: NodeAt(t, q).Some? ==> (NodeAt(t, q).value.IsDir() <==> KeyOf(NodeAt(t, q).value) in D)
    ensures Keyed(t, D)
    decreases t
  {
    hide Shaped, NodeAt, KeyOf;
    RootAt(t);
    forall i | 0 <= i < |t.children|
      ensures Keyed(t.children[i], D)
    {
      ShapedChild(t, i);
      forall q | NodeAt(t.children[i], q).Some?
        ensures NodeAt(t.children[i], q).value.IsDir() <==> KeyOf(NodeAt(t.children[i], q).value) in D
      {
        BelowChild(t, i, q);
      }
      KeyedByPaths(t.children[i], D);
    }
  }

  /** The directory at `p` and the node at `q` have the same key. */
  ghost predicate SharesDir(t: Tree, p: Path, q: Path) {
    && NodeAt(t, p).Some? && NodeAt(t, q).Some? && NodeAt(t, p).value.IsDir()
    && SameFile(NodeAt(t, p).value, NodeAt(t, q).value)
  }

  /** No other node has the inode number of a directory, on its device and in its layer. */
  ghost predicate OwnByPath(t: Tree) {
    forall p, q :: SharesDir(t, p, q) ==> p == q
  }

  /** A tree's directories have inodes of their own exactly when no other node has a directory's. */
  lemma OwnInodesIffByPath(t: Tree)
    requires Shaped(t)
    ensures OwnInodes(t) <==> OwnByPath(t)
  {
    hide Shaped, NodeAt, KeyOf, SameFile, DirKeys, Keyed;
    if OwnInodes(t) {
      forall p, q | SharesDir(t, p, q)
        ensures p == q
      {
        var k := KeyOf(NodeAt(t, p).value);
        KeyIsFile(NodeAt(t, p).value, NodeAt(t, q).value);
        AtIsKey(t, p, k);
        KeyedAt(t, KeysOf(t), q);
        if p != q { TwoCount(t, p, q, k); }
      }
    }
    if OwnByPath(t) {
      forall k | k in DirKeys(t)
        ensures DirKeys(t)[k] == 1
      {
        if DirKeys(t)[k] > 1 {
          var p, q := CountedTwice(t, k);
          Shares(t, p, q, k);
        }
      }
      forall q | NodeAt(t, q).Some?
        ensures NodeAt(t, q).value.IsDir() <==> KeyOf(NodeAt(t, q).value) in KeysOf(t)
      {
        KeyOfDir(t, q);
      }
      KeyedByPaths(t, KeysOf(t));
    }
  }

  lemma Shares(t: Tree, p: Path, q: Path, k: LayeredKey)
    requires DirAt(t, p, k) && NodeAt(t, q).Some? && KeyOf(NodeAt(t, q).value) == k
    ensures SharesDir(t, p, q)
  {
    hide NodeAt, KeyOf, SameFile;
    KeyIsFile(NodeAt(t, p).value, NodeAt(t, q).value);
  }

  lemma KeyOfDir(t: Tree, q: Path)
    requires Shaped(t) && OwnByPath(t) && NodeAt(t, q).Some?
    ensures NodeAt(t, q).value.IsDir() <==> KeyOf(NodeAt(t, q).value) in KeysOf(t)
  {
    hide Shaped, NodeAt, KeyOf, DirKeys;
    var k := KeyOf(NodeAt(t, q).value);
    if NodeAt(t, q).value.IsDir() {
      AtIsKey(t, q, k);
    } else if k in KeysOf(t) {
      var p := KeyIsAt(t, k);
      Shares(t, p, q, k);
    }
  }

  // ----- the tree of a table -----

  lemma DirIsNamed(t: Tree, toc: seq<TocItem>, p: Path)
    requires TreeOf(t, toc) && p != [] && NodeAt(t, p).Some? && NodeAt(t, p).value.IsDir()
    ensures NamesDir(toc, p)
  {
    hide Shaped, NodeAt, NodeOf, Filled, DataOf, Added;
    assert FromEntry(t, toc, p);
    if j :| 0 <= j < |toc| && toc[j].entry.IsNode() && p == toc[j].entry.Path() {
      assert EntryAt(t, toc, j);
      EntryKind(toc, j, NodeAt(t, p).value.inode.ino);
      assert DirBy(toc[j].entry, p);
    } else {
      var j :| 0 <= j < |toc| && toc[j].entry.IsNode() && StrictPrefix(p, toc[j].entry.Path());
      assert DirBy(toc[j].entry, p);
    }
  }

  lemma EntryKind(toc: seq<TocItem>, j: nat, ino: nat)
    requires j < |toc|
    ensures var e := toc[j].entry;
            Added(Filled(NodeOf(e, ino), DataOf(toc, e))).IsDir() <==> e.tocType.TocDir?
  {
  }

  /** The number of a node is that of a path: the directory's own, or for a file one that is no directory's. */
  lemma NumberOf(t: Tree, toc: seq<TocItem>, m: map<Path, nat>, q: Path) returns (p: Path)
    requires TreeOf(t, toc) && NumberedBy(t, toc, m) && NodeAt(t, q).Some?
    ensures p in m && NodeAt(t, q).value.realIno == m[p]
    ensures p == q || (p != [] && !NamesDir(toc, p) && !NodeAt(t, q).value.IsDir())
  {
    hide Shaped, NodeAt, NamesDir, Counted, Known, RootNumber;
    RootAt(t);
    p := q;
    if q != [] {
      var n := NodeAt(t, q).value;
      TocTreeShape(t, toc);
      PathIs(t, q);
      assert OwnNumber(toc, m, n);
      if !(n.path in m && n.realIno == m[n.path]) {
        p :| p in m && !NamesDir(toc, p) && n.realIno == m[p];
        RootNamed(toc);
      }
    }
  }

  lemma RootNamed(toc: seq<TocItem>)
    ensures NamesDir(toc, [])
  {
  }

  lemma {:induction false} PathIs(t: Tree, q: Path)
    requires Shaped(t) && NodeAt(t, q).Some?
    ensures NodeAt(t, q).value.path == t.node.path + q
    decreases |q|
  {
    hide Shaped;
    if q != [] {
      var i := ChildOf(t, q);
      ShapedChild(t, i);
      PathIs(t.children[i], q[1..]);
      assert t.node.path + [q[0]] + q[1..] == t.node.path + q;
    }
  }

  /** The table's root has the first number, or one after all others. */
  ghost predicate RootApart(toc: seq<TocItem>) {
    RootNumber(toc) == 1 || RootNumber(toc) == |Known(toc)| + 1
  }

  lemma SharedNumber(t: Tree, toc: seq<TocItem>, m: map<Path, nat>, p: Path, q: Path)
    requires TreeOf(t, toc) && NumberedBy(t, toc, m) && RootApart(toc) && SharesDir(t, p, q)
    ensures p == q
  {
    hide TreeOf, NodeAt, NamesDir, Known, RootNumber, OwnNumber;
    var p' := NumberOf(t, toc, m, p);
    var q' := NumberOf(t, toc, m, q);
    assert |m| == |Known(toc)|;
    if p != [] { DirIsNamed(t, toc, p); }
  }

  /** The numbers of a table's tree let the builder keep hard links apart from directories exactly when the root is
      listed before anything else, or nothing new comes after it: a root that is listed in between takes a number that
      the next new path gets as well. */
  lemma OwnInodesIff(t: Tree, toc: seq<TocItem>, m: map<Path, nat>)
    requires TreeOf(t, toc) && NumberedBy(t, toc, m)
    ensures OwnInodes(t) <==> RootApart(toc)
  {
    hide NodeAt, NamesDir, Known, RootNumber, OwnNumber, OwnInodes;
    TocTreeShape(t, toc);
    OwnInodesIffByPath(t);
    RootAt(t);
    RootNumberBound(toc);
    assert |m| == |Known(toc)|;
    if RootApart(toc) {
      forall p, q | SharesDir(t, p, q)
        ensures p == q
      {
        SharedNumber(t, toc, m, p, q);
      }
    } else {
      assert IsGiven(m, RootNumber(toc));
      var p :| p in m && p != [] && m[p] == RootNumber(toc);
      assert SharesDir(t, [], p);
    }
  }

  /** A table that lists its root before everything else, and once, meets the condition. */
  lemma {:induction false} RootListedFirst(toc: seq<TocItem>)
    requires toc != [] && toc[0].entry.IsNode() && toc[0].entry.Path() == []
    requires forall j :: 1 <= j < |toc| && toc[j].entry.IsNode() ==> toc[j].entry.Path() != []
    ensures RootNumber(toc) == 1 && RootApart(toc)
  {
    var front := toc[..|toc| - 1];
    if front == [] {
      assert Known(front) == {};
    } else {
      RootListedFirst(front);
    }
  }

  function DirItem(p: Path): TocItem {
    TocItem([], TocEntry(RawName(false, p), TocDir, 0, RawName(false, []), [], 0, 0, 0x1ED, 2, 0, [], 0,
                         0, Zeros(DIGEST_SIZE)))
  }

  const A_DIR := DirItem([[97]])
  const B_DIR := DirItem([[98]])
  const ROOT_DIR := DirItem([])

  lemma KnownNext(toc: seq<TocItem>, e: TocItem)
    ensures Known(toc + [e]) == KnownAfter(Known(toc), e.entry)
    ensures RootNumber(toc + [e]) ==
            if e.entry.IsNode() && e.entry.Path() == [] then |Known(toc)| + 1 else RootNumber(toc)
  {
    hide KnownAfter;
    assert (toc + [e])[..|toc|] == toc;
  }

  lemma DirKnown(known: set<Path>, p: Path)
    ensures KnownAfter(known, DirItem(p).entry) == known + Above(p) + {p}
  {
  }

  /** A table that lists a directory, the root and another directory does not: the root and the second directory both
      get number 3. */
  lemma RootListedBetween()
    ensures var toc := [A_DIR, ROOT_DIR, B_DIR];
            && WellFormedToc(toc) && HasRoot(toc) && NoDirLinks(toc)
            && RootNumber(toc) == 3 && |Known(toc)| == 3 && !RootApart(toc)
  {
    hide WellFormedToc, HasRoot, NoDirLinks, Known, RootNumber, KnownAfter;
    var toc := [A_DIR, ROOT_DIR, B_DIR];
    assert [] + [A_DIR] == [A_DIR] && [A_DIR] + [ROOT_DIR] == [A_DIR, ROOT_DIR] && [A_DIR, ROOT_DIR] + [B_DIR] == toc;
    KnownNext([], A_DIR);
    KnownNext([A_DIR], ROOT_DIR);
    KnownNext([A_DIR, ROOT_DIR], B_DIR);
    KnownDirs();
    BetweenIsTable();
  }

  lemma KnownDirs()
    ensures |KnownAfter(Known([]), A_DIR.entry)| == 2
    ensures var known := KnownAfter(Known([]), A_DIR.entry);
            KnownAfter(known, ROOT_DIR.entry) == known && |KnownAfter(known, B_DIR.entry)| == 3
  {
    hide KnownAfter, Above;
    assert Known([]) == {};
    var a: Path, b: Path := [[97]], [[98]];
    OneAbove([97]);
    OneAbove([98]);
    NoneAbove();
    DirKnown({}, a);
    DirKnown({[], a}, []);
    DirKnown({[], a}, b);
    DifferentNames();
    ThreePaths(a, b);
  }

  lemma ThreePaths(a: Path, b: Path)
    requires a != [] && b != [] && a != b
    ensures {} + {[]} + {a} == {[], a} && {[], a} + {} + {[]} == {[], a} && {[], a} + {[]} + {b} == {[], a, b}
    ensures |{[], a}| == 2 && |{[], a, b}| == 3
  {
  }

  lemma NoneAbove()
    ensures Above([]) == {}
  {
  }

  lemma DifferentNames()
    ensures [[97]] != [[98]]
  {
    assert [[97]][0][0] != [[98]][0][0];
  }

  lemma BetweenIsTable()
    ensures var toc := [A_DIR, ROOT_DIR, B_DIR]; WellFormedToc(toc) && HasRoot(toc) && NoDirLinks(toc)
  {
    hide Known, RootNumber;
    var toc := [A_DIR, ROOT_DIR, B_DIR];
    assert toc[1].entry.Path() == [];
    DifferentNames();
  }

  lemma OneAbove(name: Name)
    ensures Above([name]) == {[]}
  {
    assert [name][..0] == [];
    forall q | q in Above([name])
      ensures q == []
    {
    }
  }

  /** `build_from_stargz_index` on a table whose root is apart: the tree is that of the table, and it is flattened with
      its hard links grouped. */
  method BuildFromStargzIndex(builder: Builder, toc: seq<TocItem>) returns (tree: Result<Tree>)
    requires builder.nodes == [] && builder.lowerInodeMap == map[] && builder.upperInodeMap == map[]
    requires WellFormedToc(toc) && NoDirLinks(toc) && RootApart(toc) && NodeBound(toc) + 2 < U32
    modifies builder
    ensures tree.Ok? <==> HasRoot(toc)
    ensures tree.Ok? ==>
              && TreeOf(tree.value, toc)
              && Grouped(builder.nodes, builder.lowerInodeMap, builder.upperInodeMap)
              && var t := Tree(AsFirst(tree.value.node), tree.value.children);
                 Flattening.Built([t.node], PlainAll(builder.nodes), t, false)
  {
    hide WellFormedToc, NoDirLinks, RootApart, HasRoot, TreeOf, NumberedBy, NodeBound, Grouped, Flattening.Built,
        WellFormed, OwnInodes;
    var treeBuilder := new StargzIndexTreeBuilder();
    tree := treeBuilder.Build(toc);
    if tree.Err? {
      return;
    }
    OwnInodesIff(tree.value, toc, treeBuilder.pathInodeMap);
    TableTreeFits(tree.value, toc, treeBuilder.pathInodeMap);
    builder.BuildRafsWrap(tree.value);
  }

  lemma TableTreeFits(t: Tree, toc: seq<TocItem>, m: map<Path, nat>)
    requires WellFormedToc(toc) && TreeOf(t, toc) && NumberedBy(t, toc, m)
    ensures WellFormed(t) && t.node.IsDir()
  {
    hide WellFormedToc, WellFormed, Counted, Known, RootNumber, OwnNumber, NodeAt, Shaped;
    TocTreeFits(t, toc, t.node);
    assert Tree(t.node, t.children) == t;
  }
}
