/** What hard link numbering promises: the rules of the version 5 image format, and inodes the reader accepts. */
module LinkRules {
  import opened Nodes
  import opened Trees
  import opened Flatten
  import opened Flattening
  import opened Layout
  import opened Direct
  import opened HardLinks
  import Cached
  import Digest

  /** The positions of the nodes that are links to the inode of node `i`. */
  ghost function LinksOf(nodes: seq<Node>, i: nat): set<nat>
    requires i < |nodes|
  {
    set j | 0 <= j < |nodes| && SameFile(nodes[j], nodes[i])
  }

  /** A directory is alone; a file is numbered by the first of its links, and counts them. */
  ghost predicate Numbered(nodes: seq<Node>, i: nat)
    requires i < |nodes|
  {
    var links := LinksOf(nodes, i);
    if nodes[i].IsDir() then links == {i} && nodes[i].inode.ino == i + 1
    else
      && nodes[i].inode.ino >= 1 && nodes[i].inode.ino - 1 in links
      && (forall j :: j in links ==> nodes[i].inode.ino - 1 <= j)
      && nodes[i].inode.nlink == |links|
  }

  /** `S` holds the 0-based positions of the 1-based ones in `g`. */
  ghost predicate ZeroBased(S: set<nat>, g: seq<nat>) {
    forall j: nat :: j in S <==> j + 1 in g
  }

  lemma FrontIncreasing(g: seq<nat>, S: set<nat>)
    requires g != [] && Increasing(g) && ZeroBased(S, g) && 0 !in g
    ensures var front, last := g[..|g| - 1], g[|g| - 1];
            Increasing(front) && ZeroBased(S - {last - 1}, front) && 0 !in front
  {
    var front, last := g[..|g| - 1], g[|g| - 1];
    assert g == front + [last];
    assert last !in front;
  }

  lemma {:induction false} IncreasingSize(g: seq<nat>, S: set<nat>)
    requires Increasing(g) && ZeroBased(S, g) && 0 !in g
    ensures |S| == |g|
  {
    if g == [] {
      assert forall j :: j !in S;
    } else {
      var front, last := g[..|g| - 1], g[|g| - 1];
      assert g == front + [last];
      assert last in g && last - 1 in S && last !in front;
      FrontIncreasing(g, S);
      IncreasingSize(front, S - {last - 1});
    }
  }

  lemma GroupIsLinks(nodes: seq<Node>, lower: InodeMap, upper: InodeMap, i: nat)
    requires Grouped(nodes, lower, upper) && i < |nodes|
    ensures var g := Group(lower, upper, KeyOf(nodes[i]));
            Linked(nodes[i], i, g) && Increasing(g) && 0 !in g && ZeroBased(LinksOf(nodes, i), g)
  {
    hide Group, KeyOf, Increasing, SameFile;
    var k := KeyOf(nodes[i]);
    var g := Group(lower, upper, k);
    LinkedIn(nodes, lower, upper, i, k);
    assert IsGroup(nodes, k, g);
    forall j: nat
      ensures j in LinksOf(nodes, i) <==> j + 1 in g
    {
      if j < |nodes| {
        LinkedIn(nodes, lower, upper, j, k);
        KeyIsFile(nodes[j], nodes[i]);
      }
    }
  }

  /** The builder numbers every node by its links. */
  lemma LinksAreNumbered(nodes: seq<Node>, lower: InodeMap, upper: InodeMap, i: nat)
    requires Grouped(nodes, lower, upper) && i < |nodes|
    ensures Numbered(nodes, i)
  {
    hide Group, KeyOf, Grouped, LinksOf;
    GroupIsLinks(nodes, lower, upper, i);
    var g := Group(lower, upper, KeyOf(nodes[i]));
    IncreasingSize(g, LinksOf(nodes, i));
    assert g[0] in g;
    forall j | j in LinksOf(nodes, i)
      ensures g[0] <= j + 1
    {
      assert j + 1 in g;
    }
    if nodes[i].IsDir() {
      forall j | j in LinksOf(nodes, i)
        ensures j == i
      {
        assert j + 1 in g;
      }
      assert i in LinksOf(nodes, i);
    }
  }

  /** Among the links to an inode exactly one has the inode's number as its index, and all have the same number and
      count; an inode with one link has its own index. */
  lemma OneOwner(nodes: seq<Node>, i: nat, j: nat)
    requires forall q :: 0 <= q < |nodes| ==> Numbered(nodes, q) && nodes[q].index == q + 1
    requires i < |nodes| && j < |nodes| && SameFile(nodes[i], nodes[j])
    ensures nodes[i].inode.ino == nodes[j].inode.ino
    ensures !nodes[i].IsDir() && !nodes[j].IsDir() ==> nodes[i].inode.nlink == nodes[j].inode.nlink
    ensures nodes[j].index == nodes[i].inode.ino <==> j == nodes[i].inode.ino - 1
    ensures nodes[i].inode.ino >= 1 && nodes[i].inode.ino - 1 in LinksOf(nodes, i)
    ensures !nodes[i].IsDir() && nodes[i].inode.nlink == 1 ==> nodes[i].index == nodes[i].inode.ino
  {
    hide SameFile, LinksOf;
    assert Numbered(nodes, i) && Numbered(nodes, j);
    LinksAgree(nodes, i, j);
    if !nodes[i].IsDir() && nodes[i].inode.nlink == 1 {
      OnlyElement(LinksOf(nodes, i), i, nodes[i].inode.ino - 1);
    }
  }

  lemma LinksAgree(nodes: seq<Node>, i: nat, j: nat)
    requires i < |nodes| && j < |nodes| && SameFile(nodes[i], nodes[j])
    ensures LinksOf(nodes, i) == LinksOf(nodes, j)
    ensures i in LinksOf(nodes, i) && j in LinksOf(nodes, i)
  {
  }

  lemma OnlyElement(s: set<nat>, a: nat, b: nat)
    requires |s| == 1 && a in s && b in s
    ensures a == b
  {
    var x :| x in s;
    assert |s - {x}| == 0;
    assert s == {x} + (s - {x});
  }

  // ----- counting inodes -----

  /** The keys of one layer's map. */
  function LayerKeys(keys: set<Key>, lower: bool): set<LayeredKey> {
    set key | key in keys :: LayeredKey(lower, key.0, key.1)
  }

  lemma {:induction false} LayerSize(keys: set<Key>, lower: bool)
    ensures |LayerKeys(keys, lower)| == |keys|
  {
    if keys != {} {
      var key :| key in keys;
      LayerSize(keys - {key}, lower);
      var rest := LayerKeys(keys - {key}, lower);
      assert LayeredKey(lower, key.0, key.1) !in rest;
      assert LayerKeys(keys, lower) == rest + {LayeredKey(lower, key.0, key.1)};
    }
  }

  lemma TwoLayers(lower: set<Key>, upper: set<Key>)
    ensures |LayerKeys(lower, true) + LayerKeys(upper, false)| == |lower| + |upper|
  {
    LayerSize(lower, true);
    LayerSize(upper, false);
    assert LayerKeys(lower, true) !! LayerKeys(upper, false);
  }

  /** The inode maps count the distinct inodes: `inodes_count` of the super block. */
  lemma InodesCounted(nodes: seq<Node>, lower: InodeMap, upper: InodeMap)
    requires Grouped(nodes, lower, upper)
    ensures |lower| + |upper| == |set i | 0 <= i < |nodes| :: KeyOf(nodes[i])|
  {
    hide Grouped, Group, LayerKeys, KeyOf;
    var all := set i | 0 <= i < |nodes| :: KeyOf(nodes[i]);
    TwoLayers(lower.Keys, upper.Keys);
    forall k
      ensures k in all <==> k in LayerKeys(lower.Keys, true) + LayerKeys(upper.Keys, false)
    {
      KeyIsThere(nodes, lower, upper, k);
      InLayer(nodes, lower, upper, k);
    }
    assert all == LayerKeys(lower.Keys, true) + LayerKeys(upper.Keys, false);
  }

  lemma InLayer(nodes: seq<Node>, lower: InodeMap, upper: InodeMap, k: LayeredKey)
    requires Grouped(nodes, lower, upper)
    ensures k in LayerKeys(lower.Keys, true) + LayerKeys(upper.Keys, false) <==> Group(lower, upper, k) != []
  {
    hide IsGroup, Linked, KeyOf;
    var key := (k.realIno, k.dev);
    if k.lower {
      assert key in lower.Keys ==> LayeredKey(true, key.0, key.1) in LayerKeys(lower.Keys, true);
    } else {
      assert key in upper.Keys ==> LayeredKey(false, key.0, key.1) in LayerKeys(upper.Keys, false);
    }
  }

  lemma KeyIsThere(nodes: seq<Node>, lower: InodeMap, upper: InodeMap, k: LayeredKey)
    requires Grouped(nodes, lower, upper)
    ensures (exists i :: 0 <= i < |nodes| && KeyOf(nodes[i]) == k) <==> Group(lower, upper, k) != []
  {
    hide KeyOf, Group;
    var g := Group(lower, upper, k);
    if g != [] {
      assert IsGroup(nodes, k, g) && g[0] in g;
      assert KeyOf(nodes[g[0] - 1]) == k;
    }
    if i :| 0 <= i < |nodes| && KeyOf(nodes[i]) == k {
      LinkedIn(nodes, lower, upper, i, k);
    }
  }

  // ----- the layout, and the reader's checks -----

  lemma PlainSame(n: Node)
    ensures FileOf(Plain(n)) == FileOf(n) && Plain(n).inode.parent == n.inode.parent
    ensures Plain(n).inode.childIndex == n.inode.childIndex && Plain(n).inode.childCount == n.inode.childCount
    ensures n.IsDir() && n.inode.ino == n.index ==> Plain(n) == n
    ensures n.IsDir() <==> FileOf(n).kind.Dir?
  {
  }

  /** Hard links do not change the layout. */
  lemma {:induction false} RepUnplain(a: seq<Node>, k: nat, f: FileTree, base: nat)
    requires Rep(PlainAll(a), k, f, base)
    requires forall q :: 0 <= q < |a| && a[q].IsDir() ==> a[q].inode.ino == a[q].index
    ensures Rep(a, k, f, base)
    decreases f, 0
  {
    hide Plain, FileOf;
    PlainSame(a[k]);
    KidsUnplain(a, k, f.children, base, base + |f.children|);
  }

  lemma {:induction false} KidsUnplain(a: seq<Node>, k: nat, fs: seq<FileTree>, pos: nat, base: nat)
    requires RepKids(PlainAll(a), k, fs, pos, base) && k < |a| && (fs != [] ==> a[k].IsDir())
    requires forall q :: 0 <= q < |a| && a[q].IsDir() ==> a[q].inode.ino == a[q].index
    ensures RepKids(a, k, fs, pos, base)
    decreases fs, 1
  {
    hide Plain;
    if fs != [] {
      PlainSame(a[k]);
      PlainSame(a[pos]);
      RepUnplain(a, pos, fs[0], base);
      KidsUnplain(a, k, fs[1..], pos + 1, base + FileSizeAll(fs[0].children));
    }
  }

  /** The builder's array lays out its tree, hard links or not. */
  lemma LinkedLayout(nodes: seq<Node>, lower: InodeMap, upper: InodeMap, t: Tree)
    requires Grouped(nodes, lower, upper) && t.node.index == 1 && Built([t.node], PlainAll(nodes), t, false)
    ensures Rep(nodes, 0, Canon(t, false), 1) && |nodes| == Size(t)
    ensures forall q :: 0 <= q < |nodes| && nodes[q].IsDir() ==> nodes[q].inode.ino == q + 1 == nodes[q].index
  {
    hide Canon, KeyOf, Group, SizeAll;
    forall q | 0 <= q < |nodes| && nodes[q].IsDir()
      ensures nodes[q].inode.ino == q + 1 == nodes[q].index
    {
      LinkedIn(nodes, lower, upper, q, KeyOf(nodes[q]));
    }
    RepUnplain(nodes, 0, Canon(t, false), 1);
  }

  /** No file has the number of a directory above it. */
  lemma NotItsParent(nodes: seq<Node>, lower: InodeMap, upper: InodeMap, q: nat, p: nat)
    requires Grouped(nodes, lower, upper) && p < q < |nodes| && nodes[p].IsDir()
    ensures nodes[q].inode.ino != p + 1
  {
    hide KeyOf, Grouped;
    LinksAreNumbered(nodes, lower, upper, q);
    LinksAreNumbered(nodes, lower, upper, p);
    if nodes[q].inode.ino == p + 1 && !nodes[q].IsDir() {
      LinksAgree(nodes, q, p);
    }
  }

  /** The memory-mapped reader's validation accepts every inode of the builder's array, hard links included: a parent
      numbered above its child is excused by the child's link count. */
  lemma LinkedInodesValidate(nodes: seq<Node>, lower: InodeMap, upper: InodeMap, t: Tree)
    requires Grouped(nodes, lower, upper) && WellFormed(t) && t.node == AsFirst(t.node) && t.node.inode.parent == 0
    requires t.node.IsDir() && Built([t.node], PlainAll(nodes), t, false)
    requires forall q :: 0 <= q < |nodes| ==> nodes[q].inode.nameSize <= MAX_NAME + 1
    ensures forall q :: 0 <= q < |nodes| ==> ValidInode(nodes[q].inode, |nodes|)
    ensures Digest.Readable(nodes)
  {
    hide Canon, Rep, Grouped, WellFormed, WellPlaced, BuiltNode, GoodRange, ValidInode;
    LinkedLayout(nodes, lower, upper, t);
    CanonIsOrdered(t, false);
    BlockWellPlaced(nodes, 0, Canon(t, false), 1);
    forall q | 0 <= q < |nodes|
      ensures ValidInode(nodes[q].inode, |nodes|)
    {
      if q == 0 {
        RootValidates(nodes, t);
      } else {
        assert WellPlaced(nodes, q) && BuiltNode(PlainAll(nodes)[q], q);
        FileValidates(nodes, lower, upper, q);
      }
    }
  }

  lemma RootValidates(nodes: seq<Node>, t: Tree)
    requires 0 < |nodes| && GoodRange(nodes, 0) && t.node.IsDir() && t.node.inode.parent == 0
    requires SameButChildren(t.node, PlainAll(nodes)[0]) && (nodes[0].IsDir() ==> nodes[0].inode.ino == 1)
    requires nodes[0].inode.nameSize <= MAX_NAME + 1
    ensures ValidInode(nodes[0].inode, |nodes|)
  {
  }

  lemma FileValidates(nodes: seq<Node>, lower: InodeMap, upper: InodeMap, q: nat)
    requires Grouped(nodes, lower, upper) && 0 < q < |nodes|
    requires WellPlaced(nodes, q) && BuiltNode(PlainAll(nodes)[q], q) && nodes[q].inode.nameSize <= MAX_NAME + 1
    requires nodes[q].IsDir() ==> nodes[q].inode.ino == q + 1
    ensures ValidInode(nodes[q].inode, |nodes|)
  {
    hide Grouped, Group, KeyOf;
    NotItsParent(nodes, lower, upper, q, nodes[q].inode.parent - 1);
    LinksAreNumbered(nodes, lower, upper, q);
    if !nodes[q].IsDir() {
      assert q in LinksOf(nodes, q);
      if nodes[q].inode.nlink == 1 {
        OnlyElement(LinksOf(nodes, q), q, nodes[q].inode.ino - 1);
      }
    }
  }

  /** The first link to a file is a file. */
  lemma FirstLinkIsFile(nodes: seq<Node>, lower: InodeMap, upper: InodeMap, q: nat)
    requires Grouped(nodes, lower, upper) && q < |nodes| && !nodes[q].IsDir()
    ensures 1 <= nodes[q].inode.ino <= |nodes| && !nodes[nodes[q].inode.ino - 1].IsDir()
  {
    hide KeyOf, Grouped, Group;
    LinksAreNumbered(nodes, lower, upper, q);
    var first := nodes[q].inode.ino - 1;
    assert first in LinksOf(nodes, q);
    LinksAreNumbered(nodes, lower, upper, first);
    LinksAgree(nodes, q, first);
  }

  /** The builder's array is one that the cached driver loads without a panic, hard links included. */
  lemma LinkedIsTreeOrder(nodes: seq<Node>, lower: InodeMap, upper: InodeMap, t: Tree)
    requires Grouped(nodes, lower, upper) && WellFormed(t) && t.node == AsFirst(t.node) && t.node.inode.parent == 0
    requires t.node.IsDir() && Built([t.node], PlainAll(nodes), t, false)
    requires forall q :: 0 <= q < |nodes| ==> nodes[q].inode.nameSize <= MAX_NAME + 1
    ensures Cached.TreeOrder(Views(nodes))
  {
    hide Canon, Rep, Grouped, WellFormed, WellPlaced, GoodRange, ValidInode, Cached.HasParent, Cached.OwnsRange,
        BuiltNode, Digest.Readable;
    LinkedInodesValidate(nodes, lower, upper, t);
    LinkedLayout(nodes, lower, upper, t);
    LinkedRoot(nodes, t);
    var es := Views(nodes);
    forall q | 0 <= q < |nodes|
      ensures Cached.NumberedAs(es, q) && Cached.OwnsRange(es, q) && (q > 0 ==> Cached.HasParent(es, q))
    {
      Digest.ReadableAt(nodes, q);
      Cached.GoodRangeOwns(nodes, q);
      if q > 0 {
        ReadablePlaced(nodes, q);
        Cached.PlacedHasParent(nodes, q);
      }
      if !nodes[q].IsDir() { FirstLinkIsFile(nodes, lower, upper, q); }
    }
  }

  lemma ReadablePlaced(nodes: seq<Node>, q: nat)
    requires Digest.Readable(nodes) && 0 < q < |nodes|
    ensures WellPlaced(nodes, q)
  {
    hide WellPlaced, GoodRange, ValidInode;
  }

  lemma LinkedRoot(nodes: seq<Node>, t: Tree)
    requires t.node == AsFirst(t.node) && t.node.inode.parent == 0 && t.node.IsDir()
    requires Built([t.node], PlainAll(nodes), t, false)
    ensures nodes != [] && nodes[0].IsDir() && nodes[0].inode.parent == 0
  {
    hide Rep, Canon;
    assert SameButChildren(t.node, PlainAll(nodes)[0]);
  }
}
