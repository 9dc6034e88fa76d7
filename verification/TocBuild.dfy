/** `StargzIndexTreeBuilder`: from a table of contents to a tree. */
module TocBuild {
  import opened Wrappers
  import opened Bytes
  import opened Nodes
  import opened Trees
  import opened FastIndex
  import opened Toc
  import opened TocNumbers

  // ----- the scan keeps parents first -----

  lemma ScannedParts(toc: seq<TocItem>, i: nat, h: nat, nodes: seq<Node>, known: set<Path>, k: nat)
    requires Scanned(toc, i, h, nodes, known) && k < |nodes|
    ensures Origin(toc, i, h, nodes[k], known)
  {
  }

  lemma TocPair(toc: seq<TocItem>, i: nat, j: nat)
    requires WellFormedToc(toc) && i < j < |toc|
    ensures Compatible(toc[i].entry, toc[j].entry)
  {
  }

  /** A node scanned so far whose path is a proper prefix of the next entry's is a directory. */
  lemma AboveIsDir(toc: seq<TocItem>, i: nat, nodes: seq<Node>, known: set<Path>, k: nat)
    requires WellFormedToc(toc) && i < |toc| && toc[i].entry.IsNode() && k < |nodes|
    requires Scanned(toc, i, i + 1, nodes, known)
    requires StrictPrefix(nodes[k].path, toc[i].entry.Path())
    ensures nodes[k].IsDir() && nodes[k].path in known
  {
    hide Scanned, WellFormedToc;
    ScannedParts(toc, i, i + 1, nodes, known, k);
    if j :| 0 <= j < i && toc[j].entry.IsNode() && Matches(nodes[k], toc[j].entry)
            && (nodes[k].path in known || toc[j].entry.tocType.TocHardlink?) {
      TocPair(toc, j, i);
    }
  }

  /** The root or a known path is the path of a directory, if it is a proper prefix of the next entry's. */
  lemma KnownAbove(toc: seq<TocItem>, i: nat, nodes: seq<Node>, known: set<Path>, p: Path) returns (k: nat)
    requires WellFormedToc(toc) && i < |toc| && toc[i].entry.IsNode()
    requires Scanned(toc, i, i + 1, nodes, known)
    requires p in known && StrictPrefix(p, toc[i].entry.Path())
    ensures k < |nodes| && nodes[k].path == p && nodes[k].IsDir()
  {
    hide WellFormedToc, Origin;
    k :| 0 <= k < |nodes| && nodes[k].path == p;
    AboveIsDir(toc, i, nodes, known, k);
  }

  /** No node has the next entry's path, unless it is the root. */
  lemma EntryIsNew(toc: seq<TocItem>, i: nat, nodes: seq<Node>, known: set<Path>, k: nat)
    requires WellFormedToc(toc) && i < |toc| && toc[i].entry.IsNode() && toc[i].entry.Path() != [] && k < |nodes|
    requires Scanned(toc, i, i + 1, nodes, known)
    ensures nodes[k].path != toc[i].entry.Path()
  {
    hide Scanned, WellFormedToc;
    ScannedParts(toc, i, i + 1, nodes, known, k);
    if nodes[k].path == toc[i].entry.Path() {
      if j :| 0 <= j < i && toc[j].entry.IsNode() && Matches(nodes[k], toc[j].entry)
              && (nodes[k].path in known || toc[j].entry.tocType.TocHardlink?) {
        TocPair(toc, j, i);
      } else {
        var j :| 0 <= j < i + 1 && FirstBelow(toc, j, nodes[k].path) && nodes[k].path in known
                 && Matches(nodes[k], NewDir(nodes[k].path, toc[j].entry));
        if j < i { TocPair(toc, j, i); }
      }
    }
  }

  lemma OriginGrows(toc: seq<TocItem>, i: nat, i': nat, h: nat, h': nat, n: Node, known: set<Path>, known': set<Path>)
    requires i <= i' <= h' <= |toc| && i <= h <= h' && Origin(toc, i, h, n, known) && known <= known'
    ensures Origin(toc, i', h', n, known')
  {
  }

  /** Appending a node whose parent is there and whose path is new keeps parents first. */
  lemma PushInOrder(nodes: seq<Node>, n: Node, parentAt: nat)
    requires ParentsFirst(nodes)
    requires n.path == [] ==> n.IsDir()
    requires n.path != [] ==>
               && (Parent(n.path) == [] || (parentAt < |nodes| && nodes[parentAt].path == Parent(n.path)
                   && nodes[parentAt].IsDir()))
               && (forall j :: 0 <= j < |nodes| ==> nodes[j].path != n.path)
    ensures ParentsFirst(nodes + [n])
  {
    var all := nodes + [n];
    forall k | 0 <= k < |all|
      ensures InOrder(all, k)
    {
      assert forall j :: 0 <= j < |nodes| ==> all[j] == nodes[j];
      if k < |nodes| {
        assert InOrder(nodes, k);
      } else if n.path != [] && Parent(n.path) != [] {
        assert all[parentAt].IsDir();
      }
    }
  }

  /** What `Scanned` says of the nodes, apart from their order, survives a push. */
  lemma ScannedPush(toc: seq<TocItem>, i: nat, i': nat, h: nat, nodes: seq<Node>, known: set<Path>, n: Node,
      known': set<Path>)
    requires Scanned(toc, i, h, nodes, known) && ParentsFirst(nodes + [n])
    requires i <= i' <= i + 1 && i' <= h
    requires known <= known' <= known + {n.path}
    requires n.path in known' && n.path != [] ==> Parent(n.path) in known
    requires Origin(toc, i', h, n, known')
    requires i < i' && toc[i].entry.IsNode() ==> Matches(n, toc[i].entry) && AncestorsIn(toc[i].entry.Path(), known)
    ensures Scanned(toc, i', h, nodes + [n], known')
  {
    hide Origin, ParentsFirst, Matches;
    var all := nodes + [n];
    forall p | p in known'
      ensures exists k :: 0 <= k < |all| && all[k].path == p
    {
      if p in known {
        var k :| 0 <= k < |nodes| && nodes[k].path == p;
        assert all[k].path == p;
      } else {
        assert all[|nodes|].path == p;
      }
    }
    forall k | 0 <= k < |all|
      ensures Origin(toc, i', h, all[k], known')
    {
      if k < |nodes| { OriginGrows(toc, i, i', h, h, nodes[k], known, known'); }
    }
    forall j | 0 <= j < i' && toc[j].entry.IsNode()
      ensures exists k :: 0 <= k < |all| && Matches(all[k], toc[j].entry)
    {
      if j < i {
        var k :| 0 <= k < |nodes| && Matches(nodes[k], toc[j].entry);
        assert Matches(all[k], toc[j].entry);
      } else {
        assert Matches(all[|nodes|], toc[j].entry);
      }
    }
  }

  /** One missing directory of the next entry: the ancestor of length `l`. */
  lemma ScanLost(toc: seq<TocItem>, i: nat, nodes: seq<Node>, known: set<Path>, l: nat, n: Node)
    requires WellFormedToc(toc) && i < |toc| && toc[i].entry.IsNode() && l < |toc[i].entry.Path()|
    requires Scanned(toc, i, i + 1, nodes, known)
    requires var p := toc[i].entry.Path();
             && p[..l] !in known && (l > 0 ==> p[..l - 1] in known)
             && Matches(n, NewDir(p[..l], toc[i].entry))
    ensures Scanned(toc, i, i + 1, nodes + [n], known + {n.path})
  {
    hide WellFormedToc, Scanned, ParentsFirst, Origin;
    var p := toc[i].entry.Path();
    assert n.path == p[..l] && n.IsDir();
    var parentAt := 0;
    if l > 0 {
      assert Parent(n.path) == p[..l - 1];
      parentAt := KnownAbove(toc, i, nodes, known, p[..l - 1]);
    }
    forall j | 0 <= j < |nodes|
      ensures nodes[j].path != n.path
    {
      if nodes[j].path == n.path { AboveIsDir(toc, i, nodes, known, j); }
    }
    ScannedOrder(toc, i, i + 1, nodes, known);
    PushInOrder(nodes, n, parentAt);
    NoneBelowYet(toc, i, nodes, known, n.path);
    LostOrigin(toc, i, l, n, known + {n.path});
    ScannedPush(toc, i, i, i + 1, nodes, known, n, known + {n.path});
  }

  lemma ScannedOrder(toc: seq<TocItem>, i: nat, h: nat, nodes: seq<Node>, known: set<Path>)
    requires Scanned(toc, i, h, nodes, known)
    ensures ParentsFirst(nodes)
  {
  }

  lemma NoneBelowYet(toc: seq<TocItem>, i: nat, nodes: seq<Node>, known: set<Path>, p: Path)
    requires Scanned(toc, i, i + 1, nodes, known) && p !in known
    ensures forall j :: 0 <= j < i && toc[j].entry.IsNode() ==> !StrictPrefix(p, toc[j].entry.Path())
  {
    hide ParentsFirst, Origin, Matches;
  }

  /** All ancestors of a path are known if its parent is. */
  lemma AllAncestorsIn(toc: seq<TocItem>, i: nat, h: nat, nodes: seq<Node>, known: set<Path>, p: Path)
    requires Scanned(toc, i, h, nodes, known) && (p != [] ==> Parent(p) in known)
    ensures AncestorsIn(p, known)
  {
    hide Scanned;
    ScannedClosed(toc, i, h, nodes, known);
    if p != [] {
      ClosedAbove(known, Parent(p));
      forall q | StrictPrefix(q, p)
        ensures q in known
      {
        if |q| < |Parent(p)| { assert q == Parent(p)[..|q|]; } else { assert q == Parent(p); }
      }
    }
  }

  lemma LostOrigin(toc: seq<TocItem>, i: nat, l: nat, n: Node, known: set<Path>)
    requires i < |toc| && toc[i].entry.IsNode() && l < |toc[i].entry.Path()|
    requires Matches(n, NewDir(toc[i].entry.Path()[..l], toc[i].entry)) && n.path in known
    requires forall j :: 0 <= j < i && toc[j].entry.IsNode() ==> !StrictPrefix(n.path, toc[j].entry.Path())
    ensures Origin(toc, i, i + 1, n, known)
  {
    assert n.path == toc[i].entry.Path()[..l];
    assert FirstBelow(toc, i, n.path);
  }

  /** The next entry itself, once its missing directories are there. */
  lemma ScanEntry(toc: seq<TocItem>, i: nat, nodes: seq<Node>, known: set<Path>, n: Node, known': set<Path>)
    requires WellFormedToc(toc) && i < |toc| && toc[i].entry.IsNode()
    requires Scanned(toc, i, i + 1, nodes, known)
    requires n.path != [] ==> Parent(n.path) in known
    requires Matches(n, toc[i].entry)
    requires known' == known + {n.path} || (known' == known && toc[i].entry.tocType.TocHardlink?)
    ensures Scanned(toc, i + 1, i + 1, nodes + [n], known')
  {
    hide Scanned, ParentsFirst, Origin;
    var e := toc[i].entry;
    assert n.path == e.Path();
    var parentAt := 0;
    if n.path != [] {
      parentAt := KnownAbove(toc, i, nodes, known, Parent(n.path));
      forall j | 0 <= j < |nodes|
        ensures nodes[j].path != n.path
      {
        EntryIsNew(toc, i, nodes, known, j);
      }
    }
    ScannedOrder(toc, i, i + 1, nodes, known);
    PushInOrder(nodes, n, parentAt);
    EntryOrigin(toc, i, n, known');
    AllAncestorsIn(toc, i, i + 1, nodes, known, n.path);
    ScannedPush(toc, i, i + 1, i + 1, nodes, known, n, known');
  }

  lemma EntryOrigin(toc: seq<TocItem>, i: nat, n: Node, known: set<Path>)
    requires i < |toc| && toc[i].entry.IsNode() && Matches(n, toc[i].entry)
    requires n.path in known || toc[i].entry.tocType.TocHardlink?
    ensures Origin(toc, i + 1, i + 1, n, known)
  {
  }

  lemma ScanAhead(toc: seq<TocItem>, i: nat, nodes: seq<Node>, known: set<Path>)
    requires i < |toc| && Scanned(toc, i, i, nodes, known)
    ensures Scanned(toc, i, i + 1, nodes, known)
  {
    hide ParentsFirst, Matches, Origin, AncestorsIn;
    forall k | 0 <= k < |nodes|
      ensures Origin(toc, i, i + 1, nodes[k], known)
    {
      OriginGrows(toc, i, i, i, i + 1, nodes[k], known, known);
    }
  }

  /** Chunks and unsupported entries add no node. */
  lemma ScanSkip(toc: seq<TocItem>, i: nat, nodes: seq<Node>, known: set<Path>)
    requires i < |toc| && Scanned(toc, i, i, nodes, known) && !toc[i].entry.IsNode()
    ensures Scanned(toc, i + 1, i + 1, nodes, known)
  {
    hide ParentsFirst, Matches, Origin, AncestorsIn;
    forall k | 0 <= k < |nodes|
      ensures Origin(toc, i + 1, i + 1, nodes[k], known)
    {
      OriginGrows(toc, i, i + 1, i, i + 1, nodes[k], known, known);
    }
  }

  // ----- the data of each node -----

  /** Where the entries of path `p` say its data is: the target of a hard link, else `p` itself. */
  function LinkPath(toc: seq<TocItem>, p: Path): Path {
    if toc == [] then p
    else
      var e := toc[|toc| - 1].entry;
      if e.tocType.TocHardlink? && e.Path() == p then e.linkName.comps else LinkPath(toc[..|toc| - 1], p)
  }

  function WithData(toc: seq<TocItem>, n: Node): Node {
    Filled(n, FileData(toc, LinkPath(toc, n.path)))
  }

  function AllWithData(toc: seq<TocItem>, nodes: seq<Node>): (r: seq<Node>)
    ensures |r| == |nodes|
  {
    seq(|nodes|, k requires 0 <= k < |nodes| => WithData(toc, nodes[k]))
  }

  lemma {:induction false} NoLink(toc: seq<TocItem>, p: Path)
    requires forall j :: 0 <= j < |toc| && toc[j].entry.tocType.TocHardlink? ==> toc[j].entry.Path() != p
    ensures LinkPath(toc, p) == p
  {
    if toc != [] { NoLink(toc[..|toc| - 1], p); }
  }

  lemma {:induction false} OneLink(toc: seq<TocItem>, i: nat)
    requires i < |toc| && toc[i].entry.tocType.TocHardlink?
    requires forall j :: 0 <= j < |toc| && j != i && toc[j].entry.tocType.TocHardlink? ==>
               toc[j].entry.Path() != toc[i].entry.Path()
    ensures LinkPath(toc, toc[i].entry.Path()) == toc[i].entry.linkName.comps
  {
    if i < |toc| - 1 { OneLink(toc[..|toc| - 1], i); }
  }

  lemma {:induction false} NoData(toc: seq<TocItem>, p: Path)
    requires forall j :: 0 <= j < |toc| && (toc[j].entry.tocType.TocReg? || toc[j].entry.tocType.TocChunk?) ==>
               toc[j].entry.Path() != p
    ensures FileData(toc, p) == None
  {
    if toc != [] { NoData(toc[..|toc| - 1], p); }
  }

  /** A regular file without chunk entries has its size and, unless it is empty, one chunk. */
  lemma {:induction false} OneChunk(toc: seq<TocItem>, i: nat)
    requires i < |toc| && toc[i].entry.tocType.TocReg?
    requires forall j ::
               0 <= j < |toc| && j != i && (toc[j].entry.tocType.TocReg? || toc[j].entry.tocType.TocChunk?) ==>
                 toc[j].entry.Path() != toc[i].entry.Path()
    ensures var e := toc[i].entry; var d := if e.chunkSize != 0 then e.chunkSize else e.size;
            FileData(toc, e.Path()) == if d == 0 then None else Some((e.size, [ChunkOf(e, d)]))
  {
    if i < |toc| - 1 {
      OneChunk(toc[..|toc| - 1], i);
    } else {
      NoData(toc[..|toc| - 1], toc[i].entry.Path());
    }
  }

  /** The data an entry's node ends up with. */
  function DataOf(toc: seq<TocItem>, e: TocEntry): Option<(nat, seq<Chunk>)> {
    if e.tocType.TocHardlink? then FileData(toc, e.linkName.comps)
    else if e.tocType.TocReg? then FileData(toc, e.Path())
    else None
  }

  lemma EntryData(toc: seq<TocItem>, i: nat)
    requires WellFormedToc(toc) && i < |toc| && toc[i].entry.IsNode()
    ensures FileData(toc, LinkPath(toc, toc[i].entry.Path())) == DataOf(toc, toc[i].entry)
  {
    hide WellFormedToc;
    var e := toc[i].entry;
    forall j | 0 <= j < |toc| && j != i && toc[j].entry.IsNode() && e.Path() == toc[j].entry.Path()
      ensures toc[j].entry.tocType.TocDir? && e.tocType.TocDir?
    {
      SamePathIsRoot(toc, i, j);
    }
    if e.tocType.TocHardlink? {
      OneLink(toc, i);
    } else {
      NoLink(toc, e.Path());
      if !e.tocType.TocReg? {
        forall j | 0 <= j < |toc| && toc[j].entry.tocType.TocChunk?
          ensures toc[j].entry.Path() != e.Path()
        {
          if i < j { TocPair(toc, i, j); } else { TocPair(toc, j, i); }
        }
        NoData(toc, e.Path());
      }
    }
  }

  lemma SamePathIsRoot(toc: seq<TocItem>, i: nat, j: nat)
    requires WellFormedToc(toc) && i < |toc| && j < |toc| && i != j
    requires toc[i].entry.IsNode() && toc[j].entry.IsNode() && toc[i].entry.Path() == toc[j].entry.Path()
    ensures toc[i].entry.Path() == [] && toc[i].entry.tocType.TocDir? && toc[j].entry.tocType.TocDir?
  {
    if i < j { TocPair(toc, i, j); } else { TocPair(toc, j, i); }
  }

  /** A missing directory has no data. */
  lemma LostHasNoData(toc: seq<TocItem>, i: nat, p: Path)
    requires WellFormedToc(toc) && i < |toc| && toc[i].entry.IsNode() && StrictPrefix(p, toc[i].entry.Path())
    ensures FileData(toc, LinkPath(toc, p)) == None
  {
    hide WellFormedToc;
    forall j | 0 <= j < |toc| && toc[j].entry.Path() == p && toc[j].entry.IsSupported()
      ensures toc[j].entry.tocType.TocDir?
    {
      PrefixIsDir(toc, i, j);
    }
    NoLink(toc, p);
    NoData(toc, p);
  }

  lemma PrefixIsDir(toc: seq<TocItem>, i: nat, j: nat)
    requires WellFormedToc(toc) && i < |toc| && j < |toc|
    requires toc[i].entry.IsNode() && toc[j].entry.IsSupported()
               && StrictPrefix(toc[j].entry.Path(), toc[i].entry.Path())
    ensures toc[j].entry.tocType.TocDir?
  {
    if i < j { TocPair(toc, i, j); } else { TocPair(toc, j, i); }
  }

  // ----- what the builder makes of a table -----

  /** The node of entry `i` is in the tree, with its data. */
  ghost predicate EntryAt(t: Tree, toc: seq<TocItem>, i: nat)
    requires i < |toc|
  {
    var e := toc[i].entry;
    && NodeAt(t, e.Path()).Some?
    && var n := NodeAt(t, e.Path()).value;
       n == Added(Filled(NodeOf(e, n.inode.ino), DataOf(toc, e)))
  }

  /** The node at `q` is that of an entry, or a directory missing above one. */
  ghost predicate FromEntry(t: Tree, toc: seq<TocItem>, q: Path)
    requires NodeAt(t, q).Some?
  {
    var n := NodeAt(t, q).value;
    exists j :: 0 <= j < |toc| && toc[j].entry.IsNode()
                && (q == toc[j].entry.Path()
                    || (FirstBelow(toc, j, q) && n == Added(NodeOf(NewDir(q, toc[j].entry), n.inode.ino))))
  }

  /** The tree of a table: a directory at the root, every entry at its path with its data, and nothing but entries and
      the directories missing above them. */
  ghost predicate TreeOf(t: Tree, toc: seq<TocItem>) {
    && t.node.path == [] && t.node.IsDir() && Shaped(t)
    && (forall i :: 0 <= i < |toc| && toc[i].entry.IsNode() && toc[i].entry.Path() != [] ==> EntryAt(t, toc, i))
    && (forall q :: q != [] && NodeAt(t, q).Some? ==> FromEntry(t, toc, q))
  }

  lemma HeldNode(t: Tree, ns: seq<Node>, k: nat)
    requires HoldsExactly(t, ns) && k < |ns| && ns[k].path != []
    ensures NodeAt(t, ns[k].path) == Some(Added(ns[k]))
  {
  }

  lemma HeldFrom(t: Tree, ns: seq<Node>, q: Path) returns (k: nat)
    requires HoldsExactly(t, ns) && q != [] && NodeAt(t, q).Some?
    ensures k < |ns| && ns[k].path == q && NodeAt(t, q) == Some(Added(ns[k]))
  {
    hide NodeAt;
    k :| 0 <= k < |ns| && ns[k].path == q;
  }

  lemma FilledKeeps(toc: seq<TocItem>, n: Node)
    ensures WithData(toc, n).path == n.path && WithData(toc, n).IsDir() == n.IsDir()
              && WithData(toc, n).inode.ino == n.inode.ino
  {
  }

  lemma FilledInOrder(toc: seq<TocItem>, nodes: seq<Node>)
    requires ParentsFirst(nodes)
    ensures ParentsFirst(AllWithData(toc, nodes))
  {
    hide WithData;
    var ns := AllWithData(toc, nodes);
    forall k | 0 <= k < |ns|
      ensures InOrder(ns, k)
    {
      assert InOrder(nodes, k);
      forall j | 0 <= j <= k
        ensures ns[j].path == nodes[j].path && ns[j].IsDir() == nodes[j].IsDir()
      {
        FilledKeeps(toc, nodes[j]);
      }
    }
  }

  lemma ScannedEntry(toc: seq<TocItem>, nodes: seq<Node>, known: set<Path>, i: nat) returns (k: nat)
    requires Scanned(toc, |toc|, |toc|, nodes, known) && i < |toc| && toc[i].entry.IsNode()
    ensures k < |nodes| && Matches(nodes[k], toc[i].entry)
  {
    hide Origin, ParentsFirst;
    k :| 0 <= k < |nodes| && Matches(nodes[k], toc[i].entry);
  }

  lemma EntryIsThere(toc: seq<TocItem>, nodes: seq<Node>, known: set<Path>, t: Tree, i: nat)
    requires WellFormedToc(toc) && Scanned(toc, |toc|, |toc|, nodes, known) && HoldsExactly(t, AllWithData(toc, nodes))
    requires i < |toc| && toc[i].entry.IsNode() && toc[i].entry.Path() != []
    ensures EntryAt(t, toc, i)
  {
    hide WellFormedToc, Scanned, HoldsExactly, NodeAt, FileData, DataOf, LinkPath;
    var k := ScannedEntry(toc, nodes, known, i);
    EntryData(toc, i);
    HeldNode(t, AllWithData(toc, nodes), k);
  }

  lemma NodeIsFromEntry(toc: seq<TocItem>, nodes: seq<Node>, known: set<Path>, t: Tree, q: Path)
    requires WellFormedToc(toc) && Scanned(toc, |toc|, |toc|, nodes, known) && HoldsExactly(t, AllWithData(toc, nodes))
    requires q != [] && NodeAt(t, q).Some?
    ensures FromEntry(t, toc, q)
  {
    hide WellFormedToc, Scanned, HoldsExactly, NodeAt, FileData, LinkPath;
    var k := HeldFrom(t, AllWithData(toc, nodes), q);
    ScannedParts(toc, |toc|, |toc|, nodes, known, k);
    FilledKeeps(toc, nodes[k]);
    if j :| 0 <= j < |toc| && toc[j].entry.IsNode() && Matches(nodes[k], toc[j].entry)
            && (nodes[k].path in known || toc[j].entry.tocType.TocHardlink?) {
      assert q == toc[j].entry.Path();
    } else {
      var j :| 0 <= j < |toc| && FirstBelow(toc, j, nodes[k].path) && nodes[k].path in known
               && Matches(nodes[k], NewDir(nodes[k].path, toc[j].entry));
      LostHasNoData(toc, j, nodes[k].path);
      assert StrictPrefix(q, toc[j].entry.Path());
    }
  }

  /** The tree that holds exactly the scanned nodes is the tree of the table. */
  lemma TreeIsOfToc(toc: seq<TocItem>, nodes: seq<Node>, known: set<Path>, t: Tree)
    requires WellFormedToc(toc) && Scanned(toc, |toc|, |toc|, nodes, known) && HoldsExactly(t, AllWithData(toc, nodes))
    ensures TreeOf(t, toc)
  {
    hide WellFormedToc, Scanned, NodeAt, AllWithData, EntryAt, FromEntry, Shaped;
    forall i | 0 <= i < |toc| && toc[i].entry.IsNode() && toc[i].entry.Path() != []
      ensures EntryAt(t, toc, i)
    {
      EntryIsThere(toc, nodes, known, t, i);
    }
    forall q | q != [] && NodeAt(t, q).Some?
      ensures FromEntry(t, toc, q)
    {
      NodeIsFromEntry(toc, nodes, known, t, q);
    }
  }

  type FileChunks = map<Path, (nat, seq<Chunk>)>

  function Lookup<T>(m: map<Path, T>, p: Path): Option<T> {
    if p in m then Some(m[p]) else None
  }

  function LinkIn(hardlinkMap: map<Path, Path>, p: Path): Path {
    if p in hardlinkMap then hardlinkMap[p] else p
  }

  /** The maps of the scan agree with the first `i` entries. */
  ghost predicate Collected(toc: seq<TocItem>, i: nat, fileChunkMap: FileChunks, hardlinkMap: map<Path, Path>,
      lastReg: Option<TocEntry>)
    requires i <= |toc|
  {
    && lastReg == LastReg(toc[..i])
    && (forall p :: Lookup(fileChunkMap, p) == FileData(toc[..i], p))
    && (forall p :: LinkIn(hardlinkMap, p) == LinkPath(toc[..i], p))
  }

  function WithEntryData(m: FileChunks, e: TocEntry, lastReg: Option<TocEntry>): FileChunks {
    if HasData(lastReg, e) then
      m[e.Path() := AddChunk(Lookup(m, e.Path()), e, ChunkOf(e, DecompressSize(lastReg, e)))]
    else m
  }

  lemma CollectEntry(toc: seq<TocItem>, i: nat, fileChunkMap: FileChunks, hardlinkMap: map<Path, Path>,
      lastReg: Option<TocEntry>)
    requires i < |toc| && Collected(toc, i, fileChunkMap, hardlinkMap, lastReg)
    ensures var e := toc[i].entry;
            Collected(toc, i + 1, WithEntryData(fileChunkMap, e, lastReg),
                      if e.tocType.TocHardlink? then hardlinkMap[e.Path() := e.linkName.comps] else hardlinkMap,
                      if e.tocType.TocReg? then Some(e) else lastReg)
  {
    hide HasData, DecompressSize, ChunkOf, AddChunk;
    var front, e := toc[..i], toc[i].entry;
    assert toc[..i + 1][..i] == front && toc[..i + 1][i] == toc[i];
    DataIsRegular(lastReg, e);
    forall p
      ensures Lookup(WithEntryData(fileChunkMap, e, lastReg), p) == FileData(toc[..i + 1], p)
    {
      assert Lookup(fileChunkMap, p) == FileData(front, p);
      assert Lookup(fileChunkMap, e.Path()) == FileData(front, e.Path());
    }
    var hardlinkMap' := if e.tocType.TocHardlink? then hardlinkMap[e.Path() := e.linkName.comps] else hardlinkMap;
    forall p
      ensures LinkIn(hardlinkMap', p) == LinkPath(toc[..i + 1], p)
    {
      assert LinkIn(hardlinkMap, p) == LinkPath(front, p);
    }
  }

  lemma DataIsRegular(lastReg: Option<TocEntry>, e: TocEntry)
    ensures HasData(lastReg, e) ==> e.tocType.TocReg? || e.tocType.TocChunk?
  {
  }

  // ----- how large the tree can get -----

  /** The nodes that a table can give rise to: one for each entry and each of its ancestors. */
  function NodeBound(toc: seq<TocItem>): nat {
    if toc == [] then 0
    else
      var e := toc[|toc| - 1].entry;
      NodeBound(toc[..|toc| - 1]) + if e.IsNode() then |e.Path()| + 1 else 0
  }

  lemma {:induction false} GrowSize(root: Node, ns: seq<Node>)
    requires root.path == [] && root.IsDir() && ParentsFirst(ns)
    ensures Size(Grow(Tree(root, []), ns)) <= 1 + |ns|
    decreases |ns|
  {
    hide Apply, Shaped, Grows, HoldsExactly;
    if ns != [] {
      var front, n := ns[..|ns| - 1], ns[|ns| - 1];
      assert ns == front + [n];
      InOrderPrefix(front, n);
      GrowSize(root, front);
      GrowsExactly(root, front);
      var t := Grow(Tree(root, []), front);
      if n.path != [] && Find(t, Parent(n.path)).Some? { InsertSize(t, Parent(n.path), Added(n)); }
    }
  }

  // ----- numbers during the scan -----

  lemma ScannedClosed(toc: seq<TocItem>, i: nat, h: nat, nodes: seq<Node>, known: set<Path>)
    requires Scanned(toc, i, h, nodes, known)
    ensures Closed(known)
  {
  }

  /** The ancestors `from .. to` of `p` have been pushed since. */
  ghost predicate LostSoFar(toc: seq<TocItem>, before: map<Path, nat>, nodes: seq<Node>, after: map<Path, nat>,
      nodes': seq<Node>, p: Path, from: nat, to: nat) {
    && from <= to <= |p| && Counted(after)
    && (forall q :: q in after <==> q in before || exists l :: from <= l < to && q == p[..l])
    && (CountedNodes(toc, before, nodes) ==> CountedNodes(toc, after, nodes'))
    && ([] in after ==> after[[]] == if [] in before then before[[]] else 1)
  }

  lemma LostStep(toc: seq<TocItem>, before: map<Path, nat>, nodes: seq<Node>, known: map<Path, nat>,
      nodes': seq<Node>, p: Path, from: nat, to: nat, n: Node)
    requires LostSoFar(toc, before, nodes, known, nodes', p, from, to) && to < |p|
    requires n.path == p[..to] && n.path !in known && n.realIno == |known| + 1 && (to > 0 ==> p[..to - 1] in known)
    ensures LostSoFar(toc, before, nodes, known[n.path := |known| + 1], nodes' + [n], p, from, to + 1)
  {
    hide CountedNodes;
    var after := known[n.path := |known| + 1];
    if CountedNodes(toc, before, nodes) { CountedPush(toc, known, nodes', n); }
    CountedStep(known, n.path);
    if to == 0 { assert p[..0] == []; }
    forall q
      ensures q in after <==> q in before || exists l :: from <= l < to + 1 && q == p[..l]
    {
      if q == n.path { assert q == p[..to]; }
    }
  }

  lemma LostDone(toc: seq<TocItem>, before: map<Path, nat>, nodes: seq<Node>, after: map<Path, nat>,
      nodes': seq<Node>, p: Path, from: nat)
    requires LostSoFar(toc, before, nodes, after, nodes', p, from, |p|)
    requires Closed(before.Keys) && (from > 0 ==> p[..from - 1] in before)
    ensures after.Keys == before.Keys + Above(p) && Counted(after)
    ensures CountedNodes(toc, before, nodes) ==> CountedNodes(toc, after, nodes')
    ensures [] in after ==> after[[]] == if [] in before then before[[]] else 1
  {
    hide CountedNodes, Counted, Closed;
    LostKnown(before.Keys, after.Keys, p, from);
  }

  /** After `i` entries, the builder's map has the paths that are known, with these numbers. */
  ghost predicate Counts(toc: seq<TocItem>, i: nat, m: map<Path, nat>, nodes: seq<Node>)
    requires i <= |toc|
  {
    && m.Keys == Known(toc[..i]) && Counted(m)
    && ([] in m ==> m[[]] == RootNumber(toc[..i]))
    && (NoDirLinks(toc) ==> CountedNodes(toc, m, nodes))
  }

  lemma CountsAre(toc: seq<TocItem>, i: nat, m: map<Path, nat>, nodes: seq<Node>)
    requires i <= |toc| && Counts(toc, i, m, nodes)
    ensures Counted(m)
  {
  }

  lemma CountStart(toc: seq<TocItem>)
    ensures Counts(toc, 0, map[], [])
  {
    NothingCounted(toc);
    assert toc[..0] == [];
  }

  lemma CountSkip(toc: seq<TocItem>, i: nat, m: map<Path, nat>, nodes: seq<Node>)
    requires i < |toc| && Counts(toc, i, m, nodes) && !toc[i].entry.IsNode()
    ensures Counts(toc, i + 1, m, nodes)
  {
    hide CountedNodes, Counted, NoDirLinks;
    assert toc[..i + 1][..i] == toc[..i];
  }

  /** No path that is known is the next entry's, unless it is the root's. */
  lemma EntryUnknown(toc: seq<TocItem>, i: nat, nodes: seq<Node>, known: set<Path>)
    requires WellFormedToc(toc) && i < |toc| && toc[i].entry.IsNode() && toc[i].entry.Path() != []
    requires Scanned(toc, i, i + 1, nodes, known)
    ensures toc[i].entry.Path() !in known
  {
    hide WellFormedToc, Origin, ParentsFirst, Matches;
    if toc[i].entry.Path() in known {
      var k :| 0 <= k < |nodes| && nodes[k].path == toc[i].entry.Path();
      EntryIsNew(toc, i, nodes, known, k);
    }
  }

  /** The map after the next entry, whose missing directories have been entered. */
  ghost predicate MapNext(known: map<Path, nat>, e: TocEntry, after: map<Path, nat>, n: Node) {
    if e.tocType.TocHardlink? && e.linkName.comps in known then
      after == known && n.realIno == known[e.linkName.comps]
    else after == known[e.Path() := |known| + 1] && n.realIno == |known| + 1
  }

  lemma MapKeys(known: map<Path, nat>, e: TocEntry, after: map<Path, nat>, n: Node)
    requires MapNext(known, e, after, n)
    ensures after.Keys == known.Keys + {e.Path()} || (after.Keys == known.Keys && e.tocType.TocHardlink?)
    ensures !e.tocType.TocHardlink? ==> after == known[e.Path() := |known| + 1] && n.realIno == |known| + 1
  {
  }

  lemma KnownNext(toc: seq<TocItem>, i: nat, before: map<Path, nat>, known: map<Path, nat>, after: map<Path, nat>,
      n: Node)
    requires i < |toc| && before.Keys == Known(toc[..i]) && toc[i].entry.IsNode()
    requires known.Keys == before.Keys + Above(toc[i].entry.Path()) && MapNext(known, toc[i].entry, after, n)
    ensures after.Keys == Known(toc[..i + 1])
  {
    assert toc[..i + 1][..i] == toc[..i] && toc[..i + 1][i] == toc[i];
  }

  lemma RootNext(toc: seq<TocItem>, i: nat, before: map<Path, nat>, known: map<Path, nat>, after: map<Path, nat>,
      n: Node)
    requires i < |toc| && before.Keys == Known(toc[..i]) && Counted(before) && toc[i].entry.IsNode()
    requires known.Keys == before.Keys + Above(toc[i].entry.Path()) && MapNext(known, toc[i].entry, after, n)
    requires toc[i].entry.Path() == [] ==> toc[i].entry.tocType.TocDir?
    requires [] in before ==> before[[]] == RootNumber(toc[..i])
    requires [] in known ==> known[[]] == if [] in before then before[[]] else 1
    ensures [] in after ==> after[[]] == RootNumber(toc[..i + 1])
  {
    hide Counted, Known;
    var e := toc[i].entry;
    assert toc[..i + 1][..i] == toc[..i] && toc[..i + 1][i] == toc[i];
    if [] in known && [] !in before {
      NoneBefore(before);
      NothingKnown(toc[..i]);
    }
    SizeIsKeys(before, known, e.Path());
  }

  /** The next entry, after its missing directories. */
  lemma CountEntry(toc: seq<TocItem>, i: nat, before: map<Path, nat>, nodes: seq<Node>, known: map<Path, nat>,
      nodes': seq<Node>, after: map<Path, nat>, n: Node)
    requires i < |toc| && Counts(toc, i, before, nodes) && toc[i].entry.IsNode() && Matches(n, toc[i].entry)
    requires known.Keys == before.Keys + Above(toc[i].entry.Path()) && Counted(known)
    requires CountedNodes(toc, before, nodes) ==> CountedNodes(toc, known, nodes')
    requires [] in known ==> known[[]] == if [] in before then before[[]] else 1
    requires toc[i].entry.Path() != [] ==> Parent(toc[i].entry.Path()) in known && toc[i].entry.Path() !in known
    requires MapNext(known, toc[i].entry, after, n) && (toc[i].entry.Path() == [] ==> toc[i].entry.tocType.TocDir?)
    ensures Counts(toc, i + 1, after, nodes' + [n])
  {
    hide CountedNodes, Counted, NamesDir, Known, RootNumber, Above;
    var e := toc[i].entry;
    KnownNext(toc, i, before, known, after, n);
    RootNext(toc, i, before, known, after, n);
    if e.tocType.TocHardlink? && e.linkName.comps in known {
      if NoDirLinks(toc) { LinkedPush(toc, known, nodes', n, e.linkName.comps); }
    } else {
      CountedStep(known, e.Path());
      if NoDirLinks(toc) { CountedPush(toc, known, nodes', n); }
    }
  }

  /** All that holds after an entry's own node. */
  lemma EntryPushed(toc: seq<TocItem>, i: nat, before: map<Path, nat>, nodes: seq<Node>, known: map<Path, nat>,
      nodes': seq<Node>, after: map<Path, nat>, n: Node)
    requires WellFormedToc(toc) && i < |toc| && Counts(toc, i, before, nodes) && toc[i].entry.IsNode()
    requires Scanned(toc, i, i + 1, nodes', known.Keys)
    requires Matches(n, toc[i].entry) && MapNext(known, toc[i].entry, after, n)
    requires known.Keys == before.Keys + Above(toc[i].entry.Path()) && Counted(known)
    requires CountedNodes(toc, before, nodes) ==> CountedNodes(toc, known, nodes')
    requires [] in known ==> known[[]] == if [] in before then before[[]] else 1
    requires toc[i].entry.Path() != [] ==> Parent(toc[i].entry.Path()) in known
    ensures Scanned(toc, i + 1, i + 1, nodes' + [n], after.Keys) && Counts(toc, i + 1, after, nodes' + [n])
    ensures n.path == toc[i].entry.Path() && (n.path == [] ==> n.IsDir())
  {
    hide WellFormedToc, Scanned, Counts, Matches, CountedNodes, Counted, MapNext, Above;
    var e := toc[i].entry;
    MatchesPath(n, e);
    MapKeys(known, e, after, n);
    if e.Path() != [] {
      EntryUnknown(toc, i, nodes', known.Keys);
    } else {
      RootIsDir(toc, i);
      RootMatches(n, e);
    }
    CountEntry(toc, i, before, nodes, known, nodes', after, n);
    ScanEntry(toc, i, nodes', known.Keys, n, after.Keys);
  }

  lemma NoneBefore(before: map<Path, nat>)
    requires Counted(before) && [] !in before
    ensures before == map[] && before.Keys == {}
  {
  }

  lemma SizeIsKeys(before: map<Path, nat>, known: map<Path, nat>, p: Path)
    requires known.Keys == before.Keys + Above(p)
    ensures p == [] ==> known.Keys == before.Keys && |known| == |before.Keys|
  {
    if p == [] {
      assert Above(p) == {};
      assert |known.Keys| == |known|;
    }
  }

  /** A node as the builder makes it: on no device, of the upper layer, and of at most 2^53 bytes. */
  predicate TableMade(n: Node) {
    n.dev == U64 - 1 && !n.overlay.Lower? && n.inode.size < 0x20_0000_0000_0000
  }

  /** The nodes of the tree have the numbers of the map, which knows the table's paths. */
  ghost predicate NumberedBy(t: Tree, toc: seq<TocItem>, m: map<Path, nat>) {
    && m.Keys == Known(toc) && Counted(m)
    && [] in m && t.node.realIno == m[[]] == RootNumber(toc) && TableMade(t.node)
    && (forall q :: q != [] && NodeAt(t, q).Some? ==>
          OwnNumber(toc, m, NodeAt(t, q).value) && TableMade(NodeAt(t, q).value))
    && (forall p :: p in m && p != [] ==> NodeAt(t, p).Some? && NodeAt(t, p).value.realIno == m[p])
  }

  /** The root of a grown tree is the last root node in the list. */
  lemma {:induction false} GrowRoot(root: Node, ns: seq<Node>)
    requires forall k :: 0 <= k < |ns| ==> TableMade(ns[k])
    ensures var t := Grow(Tree(root, []), ns);
            (exists k :: 0 <= k < |ns| && ns[k].path == []) ==> t.node.realIno == LastRoot(ns) && TableMade(t.node)
  {
    hide Insert, Find;
    if ns != [] {
      var front, last := ns[..|ns| - 1], ns[|ns| - 1];
      GrowRoot(root, front);
      if last.path != [] {
        InsertKeepsRoot(Grow(Tree(root, []), front), Parent(last.path), Added(last));
        if k :| 0 <= k < |ns| && ns[k].path == [] {
          assert front[k].path == [];
        }
      }
    }
  }

  lemma OriginMade(toc: seq<TocItem>, nodes: seq<Node>, known: set<Path>, k: nat)
    requires WellFormedToc(toc) && Scanned(toc, |toc|, |toc|, nodes, known) && k < |nodes|
    ensures TableMade(nodes[k]) && (nodes[k].path == [] ==> [] in known)
  {
    hide WellFormedToc, Scanned;
    ScannedParts(toc, |toc|, |toc|, nodes, known, k);
    SizesFit(toc);
    if j :| 0 <= j < |toc| && toc[j].entry.IsNode() && Matches(nodes[k], toc[j].entry)
            && (nodes[k].path in known || toc[j].entry.tocType.TocHardlink?) {
      if toc[j].entry.Path() == [] { RootIsDir(toc, j); }
    }
  }

  lemma DataKeepsNumber(toc: seq<TocItem>, n: Node)
    ensures var m := WithData(toc, n); m.path == n.path && m.realIno == n.realIno && m.IsDir() == n.IsDir()
    ensures (forall i :: 0 <= i < |toc| ==> toc[i].entry.size < 0x20_0000_0000_0000) && TableMade(n) ==>
              TableMade(WithData(toc, n))
  {
    hide FileData, LinkPath;
    if forall i :: 0 <= i < |toc| ==> toc[i].entry.size < 0x20_0000_0000_0000 {
      FileDataFits(toc, LinkPath(toc, n.path));
    }
  }

  lemma SizesFit(toc: seq<TocItem>)
    requires WellFormedToc(toc)
    ensures forall i :: 0 <= i < |toc| ==> toc[i].entry.size < 0x20_0000_0000_0000
  {
  }

  lemma {:induction false} LastRootFilled(toc: seq<TocItem>, nodes: seq<Node>)
    ensures LastRoot(AllWithData(toc, nodes)) == LastRoot(nodes)
  {
    hide WithData;
    if nodes != [] {
      var front := nodes[..|nodes| - 1];
      LastRootFilled(toc, front);
      DataKeepsNumber(toc, nodes[|nodes| - 1]);
      assert AllWithData(toc, nodes)[..|nodes| - 1] == AllWithData(toc, front);
    }
  }

  lemma RootScanned(toc: seq<TocItem>, nodes: seq<Node>, known: set<Path>) returns (k: nat)
    requires WellFormedToc(toc) && Scanned(toc, |toc|, |toc|, nodes, known) && HasRoot(toc)
    ensures k < |nodes| && nodes[k].path == [] && [] in known
  {
    hide WellFormedToc, Scanned;
    var i :| 0 <= i < |toc| && toc[i].entry.IsNode() && toc[i].entry.Path() == [];
    k := ScannedEntry(toc, nodes, known, i);
    OriginMade(toc, nodes, known, k);
  }

  /** A number counted for a node is also that of the node with its data. */
  lemma NumberOfFilled(toc: seq<TocItem>, m: map<Path, nat>, nodes: seq<Node>, k: nat)
    requires CountedNodes(toc, m, nodes) && k < |nodes| && nodes[k].path != []
    ensures OwnNumber(toc, m, Added(WithData(toc, nodes[k])))
  {
    hide NamesDir, WithData;
    DataKeepsNumber(toc, nodes[k]);
    assert OwnNumber(toc, m, nodes[k]);
  }

  lemma NodeOfNumber(toc: seq<TocItem>, m: map<Path, nat>, nodes: seq<Node>, p: Path) returns (k: nat)
    requires CountedNodes(toc, m, nodes) && p in m && p != []
    ensures k < |nodes| && nodes[k].path == p && nodes[k].realIno == m[p]
  {
    hide OwnNumber;
    k :| 0 <= k < |nodes| && nodes[k].path == p && nodes[k].realIno == m[p];
  }

  lemma TreeIsNumbered(toc: seq<TocItem>, nodes: seq<Node>, m: map<Path, nat>, t: Tree, root: Node)
    requires WellFormedToc(toc) && Scanned(toc, |toc|, |toc|, nodes, m.Keys) && Counts(toc, |toc|, m, nodes)
    requires HoldsExactly(t, AllWithData(toc, nodes)) && t == Grow(Tree(root, []), AllWithData(toc, nodes))
    requires HasRoot(toc) && NoDirLinks(toc)
    ensures NumberedBy(t, toc, m)
  {
    hide WellFormedToc, Scanned, HasRoot, NoDirLinks, NodeAt, WithData, Counted, Known, RootNumber, CountedNodes,
        OwnNumber, HoldsExactly, Grow, Added, TableMade, LastRoot;
    var ns := AllWithData(toc, nodes);
    assert toc[..|toc|] == toc;
    SizesFit(toc);
    forall k | 0 <= k < |nodes|
      ensures TableMade(ns[k])
    {
      OriginMade(toc, nodes, m.Keys, k);
      DataKeepsNumber(toc, nodes[k]);
    }
    var r := RootScanned(toc, nodes, m.Keys);
    DataKeepsNumber(toc, nodes[r]);
    assert ns[r].path == [];
    GrowRoot(root, ns);
    LastRootFilled(toc, nodes);
    RootCounted(toc, m, nodes);
    forall q | q != [] && NodeAt(t, q).Some?
      ensures OwnNumber(toc, m, NodeAt(t, q).value) && TableMade(NodeAt(t, q).value)
    {
      var k := HeldFrom(t, ns, q);
      DataKeepsNumber(toc, nodes[k]);
      NumberOfFilled(toc, m, nodes, k);
      AddedMade(ns[k]);
    }
    forall p | p in m && p != []
      ensures NodeAt(t, p).Some? && NodeAt(t, p).value.realIno == m[p]
    {
      var k := NodeOfNumber(toc, m, nodes, p);
      DataKeepsNumber(toc, nodes[k]);
      HeldNode(t, ns, k);
      AddedMade(ns[k]);
    }
  }

  lemma RootCounted(toc: seq<TocItem>, m: map<Path, nat>, nodes: seq<Node>)
    requires CountedNodes(toc, m, nodes) && [] in m
    ensures LastRoot(nodes) == m[[]]
  {
    hide OwnNumber;
    assert m != map[];
  }

  lemma AddedMade(n: Node)
    ensures Added(n).realIno == n.realIno && (TableMade(n) ==> TableMade(Added(n)))
  {
  }

  class StargzIndexTreeBuilder {
    var pathInodeMap: map<Path, nat>

    constructor ()
      ensures pathInodeMap == map[]
    {
      pathInodeMap := map[];
    }

    /** `make_lost_dirs`: the entries for the ancestors of `entry` that are not known yet, the topmost first. */
    method MakeLostDirs(entry: TocEntry) returns (dirs: seq<TocEntry>)
      ensures |dirs| <= |entry.Path()|
      ensures var m := |entry.Path()| - |dirs|;
              && (m > 0 ==> entry.Path()[..m - 1] in pathInodeMap)
              && forall l :: m <= l < |entry.Path()| ==>
                   entry.Path()[..l] !in pathInodeMap && dirs[l - m] == NewDir(entry.Path()[..l], entry)
      decreases |entry.Path()|
    {
      dirs := [];
      if entry.Path() != [] {
        var parentPath := Parent(entry.Path());
        if parentPath !in pathInodeMap {
          var dirEntry := NewDir(parentPath, entry);
          dirs := MakeLostDirs(dirEntry);
          assert forall l :: 0 <= l < |parentPath| ==> parentPath[..l] == entry.Path()[..l];
          dirs := dirs + [dirEntry];
        }
      }
    }

    /** `parse_node`. */
    method ParseNode(entry: TocEntry) returns (n: Node)
      modifies this
      ensures Matches(n, entry) && MapNext(old(pathInodeMap), entry, pathInodeMap, n)
    {
      var ino := |pathInodeMap| + 1;
      if entry.tocType.TocHardlink? {
        if entry.linkName.comps in pathInodeMap {
          ino := pathInodeMap[entry.linkName.comps];
        } else {
          pathInodeMap := pathInodeMap[entry.Path() := ino];
        }
      } else {
        pathInodeMap := pathInodeMap[entry.Path() := ino];
      }
      n := NodeOf(entry, ino);
    }

    /** The nodes of the directories missing above entry `i`. */
    method PushLostDirs(toc: seq<TocItem>, i: nat, nodes: seq<Node>) returns (nodes': seq<Node>)
      requires WellFormedToc(toc) && i < |toc| && toc[i].entry.IsNode()
      requires Scanned(toc, i, i, nodes, pathInodeMap.Keys) && Counted(pathInodeMap)
      modifies this
      ensures Scanned(toc, i, i + 1, nodes', pathInodeMap.Keys)
      ensures |nodes'| <= |nodes| + |toc[i].entry.Path()|
      ensures toc[i].entry.Path() != [] ==> Parent(toc[i].entry.Path()) in pathInodeMap
      ensures pathInodeMap.Keys == old(pathInodeMap).Keys + Above(toc[i].entry.Path()) && Counted(pathInodeMap)
      ensures CountedNodes(toc, old(pathInodeMap), nodes) ==> CountedNodes(toc, pathInodeMap, nodes')
      ensures [] in pathInodeMap ==>
                pathInodeMap[[]] == if [] in old(pathInodeMap) then old(pathInodeMap)[[]] else 1
    {
      hide WellFormedToc, Scanned, Matches, Counted, CountedNodes, MapNext;
      var lostDirs := MakeLostDirs(toc[i].entry);
      ghost var p, before := toc[i].entry.Path(), pathInodeMap;
      ghost var m := |p| - |lostDirs|;
      ScannedClosed(toc, i, i, nodes, before.Keys);
      ScanAhead(toc, i, nodes, before.Keys);
      nodes' := nodes;
      for k := 0 to |lostDirs|
        invariant Scanned(toc, i, i + 1, nodes', pathInodeMap.Keys)
        invariant |nodes'| == |nodes| + k
        invariant m + k > 0 ==> p[..m + k - 1] in pathInodeMap
        invariant forall l :: m + k <= l < |p| ==> p[..l] !in pathInodeMap
        invariant LostSoFar(toc, before, nodes, pathInodeMap, nodes', p, m, m + k)
      {
        assert lostDirs[m + k - m] == NewDir(p[..m + k], toc[i].entry);
        ghost var known := pathInodeMap;
        var node := ParseNode(lostDirs[k]);
        MatchesPath(node, lostDirs[k]);
        MapKeys(known, lostDirs[k], pathInodeMap, node);
        ScanLost(toc, i, nodes', known.Keys, m + k, node);
        assert pathInodeMap.Keys == known.Keys + {node.path};
        LostStep(toc, before, nodes, known, nodes', p, m, m + k, node);
        nodes' := nodes' + [node];
      }
      LostDone(toc, before, nodes, pathInodeMap, nodes', p, m);
    }

    /** The nodes of entry `i`: the directories missing above it, and its own. */
    method PushEntry(toc: seq<TocItem>, i: nat, nodes: seq<Node>) returns (nodes': seq<Node>, node: Node)
      requires WellFormedToc(toc) && i < |toc| && toc[i].entry.IsNode()
      requires Scanned(toc, i, i, nodes, pathInodeMap.Keys) && Counts(toc, i, pathInodeMap, nodes)
      modifies this
      ensures Scanned(toc, i + 1, i + 1, nodes', pathInodeMap.Keys) && Counts(toc, i + 1, pathInodeMap, nodes')
      ensures |nodes'| <= |nodes| + |toc[i].entry.Path()| + 1
      ensures node.path == toc[i].entry.Path() && (node.path == [] ==> node.IsDir())
    {
      hide WellFormedToc, Scanned, Counts, Matches, CountedNodes, Counted, MapNext, Above;
      var entry := toc[i].entry;
      CountsAre(toc, i, pathInodeMap, nodes);
      ghost var before := pathInodeMap;
      nodes' := PushLostDirs(toc, i, nodes);
      ghost var known := pathInodeMap;
      node := ParseNode(entry);
      EntryPushed(toc, i, before, nodes, known, nodes', pathInodeMap, node);
      nodes' := nodes' + [node];
    }

    /** The first loop of `build`: the nodes in the order of the table, the data of each path, the hard links, and the
        node of the root entry. */
    method Scan(toc: seq<TocItem>)
      returns (nodes: seq<Node>, fileChunkMap: FileChunks, hardlinkMap: map<Path, Path>, root: Option<Node>)
      requires WellFormedToc(toc) && pathInodeMap == map[]
      modifies this
      ensures Scanned(toc, |toc|, |toc|, nodes, pathInodeMap.Keys)
      ensures forall p :: Lookup(fileChunkMap, p) == FileData(toc, p)
      ensures forall p :: LinkIn(hardlinkMap, p) == LinkPath(toc, p)
      ensures |nodes| <= NodeBound(toc)
      ensures root.Some? <==> HasRoot(toc)
      ensures root.Some? ==> root.value.path == [] && root.value.IsDir()
      ensures Counts(toc, |toc|, pathInodeMap, nodes)
    {
      hide WellFormedToc, Scanned, Collected, FileData, DecompressSize, HasData, ChunkOf, AddChunk, Counts;
      nodes, fileChunkMap, hardlinkMap, root := [], map[], map[], None;
      var lastReg := None;
      ScanStart(toc);
      CountStart(toc);
      assert pathInodeMap.Keys == {};
      for i := 0 to |toc|
        invariant Scanned(toc, i, i, nodes, pathInodeMap.Keys)
        invariant Collected(toc, i, fileChunkMap, hardlinkMap, lastReg)
        invariant |nodes| <= NodeBound(toc[..i])
        invariant root.Some? <==> exists j :: 0 <= j < i && toc[j].entry.IsNode() && toc[j].entry.Path() == []
        invariant root.Some? ==> root.value.path == [] && root.value.IsDir()
        invariant Counts(toc, i, pathInodeMap, nodes)
      {
        var entry := toc[i].entry;
        assert toc[..i + 1][..i] == toc[..i];
        CollectEntry(toc, i, fileChunkMap, hardlinkMap, lastReg);
        if !entry.IsSupported() {
          UnsupportedHasNoData(lastReg, entry);
          ScanSkip(toc, i, nodes, pathInodeMap.Keys);
          CountSkip(toc, i, pathInodeMap, nodes);
          continue;
        }
        if HasData(lastReg, entry) {
          var chunk := ChunkOf(entry, DecompressSize(lastReg, entry));
          fileChunkMap := fileChunkMap[entry.Path() := AddChunk(Lookup(fileChunkMap, entry.Path()), entry, chunk)];
        }
        if entry.tocType.TocReg? {
          lastReg := Some(entry);
        }
        if entry.tocType.TocChunk? {
          ScanSkip(toc, i, nodes, pathInodeMap.Keys);
          CountSkip(toc, i, pathInodeMap, nodes);
          continue;
        }
        if entry.tocType.TocHardlink? {
          hardlinkMap := hardlinkMap[entry.Path() := entry.linkName.comps];
        }
        var node;
        nodes, node := PushEntry(toc, i, nodes);
        if entry.Path() == [] {
          root := Some(node);
        }
      }
      CollectedAll(toc, fileChunkMap, hardlinkMap, lastReg);
      assert toc[..|toc|] == toc;
    }

    /** The data of one node. */
    method FillNode(ghost toc: seq<TocItem>, node: Node, fileChunkMap: FileChunks, hardlinkMap: map<Path, Path>)
      returns (node': Node)
      requires forall p :: Lookup(fileChunkMap, p) == FileData(toc, p)
      requires forall p :: LinkIn(hardlinkMap, p) == LinkPath(toc, p)
      ensures node' == WithData(toc, node)
    {
      hide FileData, LinkPath;
      node' := node;
      var linkPath := LinkIn(hardlinkMap, node.path);
      if linkPath in fileChunkMap {
        var (size, chunks) := fileChunkMap[linkPath];
        node' := node.(chunks := chunks, inode := node.inode.(childCount := |chunks| % U32, size := size));
      }
      assert Lookup(fileChunkMap, linkPath) == FileData(toc, linkPath);
    }

    /** The second loop of `build`: give every node its data and insert it. */
    method InsertNodes(toc: seq<TocItem>, nodes: seq<Node>, fileChunkMap: FileChunks, hardlinkMap: map<Path, Path>,
        root: Node) returns (tree: Tree)
      requires root.path == [] && root.IsDir() && ParentsFirst(AllWithData(toc, nodes))
      requires forall p :: Lookup(fileChunkMap, p) == FileData(toc, p)
      requires forall p :: LinkIn(hardlinkMap, p) == LinkPath(toc, p)
      ensures tree == Grow(Tree(root, []), AllWithData(toc, nodes))
    {
      hide FileData, ParentsFirst, HoldsExactly, Apply2Spec, Grows, GrowSlowly, WithData, LinkPath;
      ghost var filled := AllWithData(toc, nodes);
      GrowsExactly(root, filled);
      var indexed := new IndexedTree(Tree(root, []));
      for k := 0 to |nodes|
        invariant fresh(indexed)
        invariant indexed.InStep() && indexed.tree == Grow(Tree(root, []), filled[..k])
      {
        var node := FillNode(toc, nodes[k], fileChunkMap, hardlinkMap);
        assert node == filled[k];
        var applied := indexed.Apply2(node);
        assert applied;
        assert filled[..k + 1][..k] == filled[..k];
      }
      assert filled[..|nodes|] == filled;
      tree := indexed.tree;
    }

    /** `build`. */
    method Build(toc: seq<TocItem>) returns (tree: Result<Tree>)
      requires WellFormedToc(toc) && pathInodeMap == map[]
      modifies this
      ensures tree.Ok? <==> HasRoot(toc)
      ensures tree.Ok? ==> TreeOf(tree.value, toc) && Size(tree.value) <= 1 + NodeBound(toc)
      ensures tree.Ok? && NoDirLinks(toc) ==> NumberedBy(tree.value, toc, pathInodeMap)
    {
      hide WellFormedToc, Scanned, TreeOf, FileData, HasRoot, ParentsFirst, HoldsExactly, Counts, NumberedBy,
          NoDirLinks, AllWithData;
      var nodes, fileChunkMap, hardlinkMap, root := Scan(toc);
      if root.None? {
        return Err(Other);
      }
      ghost var filled := AllWithData(toc, nodes);
      ghost var known := pathInodeMap.Keys;
      ScannedOrder(toc, |toc|, |toc|, nodes, known);
      FilledInOrder(toc, nodes);
      GrowsExactly(root.value, filled);
      GrowSize(root.value, filled);
      var built := InsertNodes(toc, nodes, fileChunkMap, hardlinkMap, root.value);
      TreeIsOfToc(toc, nodes, known, built);
      if NoDirLinks(toc) { TreeIsNumbered(toc, nodes, pathInodeMap, built, root.value); }
      tree := Ok(built);
    }
  }

  lemma RootMatches(n: Node, e: TocEntry)
    requires Matches(n, e) && e.tocType.TocDir?
    ensures n.IsDir()
  {
  }

  lemma MatchesPath(n: Node, e: TocEntry)
    requires Matches(n, e)
    ensures n.path == e.Path() && n.realIno == n.inode.ino
  {
  }

  lemma ScanStart(toc: seq<TocItem>)
    ensures Scanned(toc, 0, 0, [], {}) && Collected(toc, 0, map[], map[], None)
  {
  }

  lemma UnsupportedHasNoData(lastReg: Option<TocEntry>, e: TocEntry)
    requires !e.IsSupported()
    ensures !HasData(lastReg, e)
  {
  }

  lemma RootIsDir(toc: seq<TocItem>, i: nat)
    requires WellFormedToc(toc) && i < |toc| && toc[i].entry.IsNode() && toc[i].entry.Path() == []
    ensures toc[i].entry.tocType.TocDir?
  {
  }

  lemma CollectedAll(toc: seq<TocItem>, fileChunkMap: FileChunks, hardlinkMap: map<Path, Path>,
      lastReg: Option<TocEntry>)
    requires Collected(toc, |toc|, fileChunkMap, hardlinkMap, lastReg)
    ensures forall p :: Lookup(fileChunkMap, p) == FileData(toc, p)
    ensures forall p :: LinkIn(hardlinkMap, p) == LinkPath(toc, p)
  {
    assert toc[..|toc|] == toc;
  }

  // ----- the tree fits the image format -----

  /** A file of at most 2^53 bytes, with its number of chunks in its record. */
  predicate Fits(n: Node) {
    (!n.IsDir() ==> n.inode.childCount == |n.chunks| < U32) && n.inode.size < 0x20_0000_0000_0000
  }

  lemma {:induction false} FileDataFits(toc: seq<TocItem>, p: Path)
    requires forall i :: 0 <= i < |toc| ==> toc[i].entry.size < 0x20_0000_0000_0000
    ensures FileData(toc, p).Some? ==>
              FileData(toc, p).value.0 < 0x20_0000_0000_0000 && |FileData(toc, p).value.1| <= |toc|
  {
    if toc != [] { FileDataFits(toc[..|toc| - 1], p); }
  }

  lemma EntryFits(t: Tree, toc: seq<TocItem>, q: Path)
    requires WellFormedToc(toc) && TreeOf(t, toc) && q != [] && NodeAt(t, q).Some?
    ensures Fits(NodeAt(t, q).value)
  {
    hide WellFormedToc, Shaped, NodeAt, NodeOf, Filled, DataOf, Added, Fits, EntryAt;
    assert FromEntry(t, toc, q);
    var n := NodeAt(t, q).value;
    if j :| 0 <= j < |toc| && toc[j].entry.IsNode() && q == toc[j].entry.Path() {
      assert EntryAt(t, toc, j);
      ListedFits(t, toc, j);
    } else {
      var j :| 0 <= j < |toc| && toc[j].entry.IsNode() && StrictPrefix(q, toc[j].entry.Path())
               && n == Added(NodeOf(NewDir(q, toc[j].entry), n.inode.ino));
      DirFits(q, toc[j].entry, n.inode.ino);
    }
  }

  lemma DirFits(p: Path, e: TocEntry, ino: nat)
    ensures Fits(Added(NodeOf(NewDir(p, e), ino)))
  {
  }

  lemma ListedFits(t: Tree, toc: seq<TocItem>, j: nat)
    requires WellFormedToc(toc) && j < |toc| && toc[j].entry.IsNode() && EntryAt(t, toc, j)
    ensures Fits(NodeAt(t, toc[j].entry.Path()).value)
  {
    hide NodeAt, FileData;
    FileDataFits(toc, toc[j].entry.Path());
    FileDataFits(toc, toc[j].entry.linkName.comps);
  }

  /** A tree of the right shape whose nodes all fit is well-formed. */
  lemma {:induction false} ShapedAndFits(t: Tree)
    requires Shaped(t) && Fits(t.node) && (forall q :: q != [] && NodeAt(t, q).Some? ==> Fits(NodeAt(t, q).value))
    ensures WellFormed(t)
    decreases t
  {
    forall i | 0 <= i < |t.children|
      ensures WellFormed(t.children[i])
    {
      var c := t.children[i];
      ShapedChild(t, i);
      ChildNamedIs(t.children, i);
      forall q | NodeAt(c, q).Some?
        ensures Fits(NodeAt(c, q).value)
      {
        var p := [c.node.Name()] + q;
        assert p[1..] == q && NodeAt(t, p) == NodeAt(c, q);
      }
      assert NodeAt(c, []) == Some(c.node);
      ShapedAndFits(c);
    }
  }

  /** The children of a table's tree, below the root node of the file system, are a well-formed tree. */
  lemma TocTreeFits(t: Tree, toc: seq<TocItem>, rootNode: Node)
    requires WellFormedToc(toc) && TreeOf(t, toc)
    requires rootNode.path == [] && rootNode.IsDir() && rootNode.inode.size < 0x20_0000_0000_0000
    ensures WellFormed(Tree(rootNode, t.children))
  {
    hide WellFormedToc, TreeOf, WellFormed, Fits, NodeAt;
    var r := Tree(rootNode, t.children);
    TocTreeShape(t, toc);
    RootReplaced(TreeTrace([], [], map[]), t, r);
    forall q | q != [] && NodeAt(r, q).Some?
      ensures Fits(NodeAt(r, q).value)
    {
      NodeBelowRoot(t, r, q);
      EntryFits(t, toc, q);
    }
    RootFits(rootNode);
    ShapedAndFits(r);
  }

  lemma TocTreeShape(t: Tree, toc: seq<TocItem>)
    requires TreeOf(t, toc)
    ensures t.node.path == [] && t.node.IsDir() && Shaped(t)
  {
  }

  lemma RootFits(n: Node)
    requires n.IsDir() && n.inode.size < 0x20_0000_0000_0000
    ensures Fits(n)
  {
  }
}
