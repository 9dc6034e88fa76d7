/** `Builder`: the image builder that keeps hard links, numbering every group of linked files by its first member. */
module HardLinks {
  import opened Bytes
  import opened Nodes
  import opened Trees
  import opened Flatten
  import opened Flattening

  // ----- which nodes are links to one another -----

  /** Inode numbers may repeat between layers and devices, so a group is known by all three. */
  datatype LayeredKey = LayeredKey(lower: bool, realIno: nat, dev: nat)

  function KeyOf(n: Node): LayeredKey {
    LayeredKey(n.overlay.Lower?, n.realIno, n.dev)
  }

  /** Two nodes are links to one file: the same inode of the same device, in the same layer. */
  predicate SameFile(m: Node, n: Node) {
    m.realIno == n.realIno && m.dev == n.dev && (m.overlay == Lower <==> n.overlay == Lower)
  }

  /** The builder's maps tell files apart by their keys. */
  lemma KeyIsFile(m: Node, n: Node)
    ensures KeyOf(m) == KeyOf(n) <==> SameFile(m, n)
  {
  }

  type InodeMap = map<Key, seq<nat>>

  /** The 1-based positions that the builder has noted for a key, in the map of the key's layer. */
  function Group(lower: InodeMap, upper: InodeMap, k: LayeredKey): seq<nat> {
    var m := if k.lower then lower else upper;
    if (k.realIno, k.dev) in m then m[(k.realIno, k.dev)] else []
  }

  ghost predicate Increasing(g: seq<nat>) {
    forall i, j :: 0 <= i < j < |g| ==> g[i] < g[j]
  }

  /** Node `i` is in its group `g`: a file has the group's first position as its number and the group's size as its link
      count, a directory is on its own. */
  ghost predicate Linked(n: Node, i: nat, g: seq<nat>) {
    && n.index == i + 1 && i + 1 in g
    && if n.IsDir() then g == [i + 1] && n.inode.ino == i + 1
       else n.inode.ino == g[0] && n.inode.nlink == |g|
  }

  /** The positions of a group are in order, and hold nodes of its key. */
  ghost predicate IsGroup(nodes: seq<Node>, k: LayeredKey, g: seq<nat>) {
    Increasing(g) && forall x :: x in g ==> 1 <= x <= |nodes| && KeyOf(nodes[x - 1]) == k
  }

  ghost predicate NoneEmpty(m: InodeMap) {
    forall key :: key in m ==> m[key] != []
  }

  /** The maps hold exactly the groups of the nodes placed so far, and every node is numbered by its group. */
  ghost predicate Grouped(nodes: seq<Node>, lower: InodeMap, upper: InodeMap) {
    && NoneEmpty(lower) && NoneEmpty(upper)
    && (forall k :: IsGroup(nodes, k, Group(lower, upper, k)))
    && (forall i :: 0 <= i < |nodes| ==> Linked(nodes[i], i, Group(lower, upper, KeyOf(nodes[i]))))
  }

  /** The keys in `D` are those of directories. */
  ghost predicate DirsIn(nodes: seq<Node>, D: set<LayeredKey>) {
    forall i :: 0 <= i < |nodes| ==> (nodes[i].IsDir() <==> KeyOf(nodes[i]) in D)
  }

  // ----- the keys of a tree's directories -----

  function DirKeys(t: Tree): multiset<LayeredKey>
    decreases t, 0
  {
    OwnKey(t) + DirKeysAll(t.children)
  }

  function DirKeysAll(ts: seq<Tree>): multiset<LayeredKey>
    decreases ts, 1
  {
    if ts == [] then multiset{} else DirKeys(ts[0]) + DirKeysAll(ts[1..])
  }

  /** The directories' keys are in `D`, the files' are not. */
  ghost predicate Keyed(t: Tree, D: set<LayeredKey>) {
    (t.node.IsDir() <==> KeyOf(t.node) in D) && forall i :: 0 <= i < |t.children| ==> Keyed(t.children[i], D)
  }

  lemma {:induction false} DirKeysInsert(t: Tree, ts: seq<Tree>)
    ensures DirKeysAll(InsertByName(t, ts)) == DirKeys(t) + DirKeysAll(ts)
  {
    if ts != [] && Less(ts[0].node.Name(), t.node.Name()) {
      DirKeysInsert(t, ts[1..]);
      assert InsertByName(t, ts)[1..] == InsertByName(t, ts[1..]);
    } else {
      assert InsertByName(t, ts)[1..] == ts;
    }
  }

  lemma {:induction false} DirKeysSorted(ts: seq<Tree>)
    ensures DirKeysAll(SortByName(ts)) == DirKeysAll(ts)
  {
    if ts != [] {
      DirKeysSorted(ts[1..]);
      DirKeysInsert(ts[0], SortByName(ts[1..]));
    }
  }

  lemma {:induction false} DirKeysAppend(a: seq<Tree>, b: seq<Tree>)
    ensures DirKeysAll(a + b) == DirKeysAll(a) + DirKeysAll(b)
  {
    if a == [] {
      assert a + b == b;
    } else {
      assert (a + b)[1..] == a[1..] + b;
      DirKeysAppend(a[1..], b);
    }
  }

  lemma KeyedSorted(t: Tree, D: set<LayeredKey>)
    requires Keyed(t, D)
    ensures forall i :: 0 <= i < |SortByName(t.children)| ==> Keyed(SortByName(t.children)[i], D)
  {
    forall i | 0 <= i < |SortByName(t.children)|
      ensures Keyed(SortByName(t.children)[i], D)
    {
      var j := SortedFrom(t.children, i);
    }
  }

  /** The keys of the directories strictly below those in `ds`. */
  function KeysBelow(ds: seq<Tree>): multiset<LayeredKey> {
    if ds == [] then multiset{} else DirKeysAll(ds[0].children) + KeysBelow(ds[1..])
  }

  lemma {:induction false} KeysBelowAppend(a: seq<Tree>, b: seq<Tree>)
    ensures KeysBelow(a + b) == KeysBelow(a) + KeysBelow(b)
  {
    if a == [] {
      assert a + b == b;
    } else {
      assert (a + b)[1..] == a[1..] + b;
      KeysBelowAppend(a[1..], b);
    }
  }

  /** The keys of the directories among `ts` themselves. */
  function OwnKeys(ts: seq<Tree>): multiset<LayeredKey> {
    if ts == [] then multiset{} else OwnKeys(ts[..|ts| - 1]) + OwnKey(ts[|ts| - 1])
  }

  /** Children's directory keys are their own and those below the directories among them. */
  lemma {:induction false} KeysOfPlaced(ts: seq<Tree>, base: nat, parentIno: nat)
    requires forall i :: 0 <= i < |ts| && !ts[i].node.IsDir() ==> ts[i].children == []
    ensures DirKeysAll(ts) == OwnKeys(ts) + KeysBelow(PlacedDirs(ts, base, parentIno, false))
  {
    hide OwnKey, Placed, KeysBelow, DirKeys;
    if ts == [] {
      KeysOfNone();
    } else {
      var front, last := ts[..|ts| - 1], ts[|ts| - 1];
      assert ts == front + [last];
      KeysOfPlaced(front, base, parentIno);
      DirKeysAppend(front, [last]);
      KeysOfOne(last, base + |ts|, parentIno);
      KeysBelowAppend(PlacedDirs(front, base, parentIno, false),
                      if last.node.IsDir() then
                        [Tree(Placed(last.node, base + |ts|, parentIno, false), last.children)]
                      else []);
      Regroup(OwnKeys(front), KeysBelow(PlacedDirs(front, base, parentIno, false)), OwnKey(last),
          DirKeysAll(last.children));
    }
  }

  function OwnKey(t: Tree): multiset<LayeredKey> {
    if t.node.IsDir() then multiset{KeyOf(t.node)} else multiset{}
  }

  lemma KeysOfOne(t: Tree, index: nat, parentIno: nat)
    requires !t.node.IsDir() ==> t.children == []
    ensures DirKeysAll([t]) == OwnKey(t) + DirKeysAll(t.children)
    ensures KeysBelow([Tree(Placed(t.node, index, parentIno, false), t.children)]) == DirKeysAll(t.children)
    ensures KeysBelow([]) == multiset{}
    ensures !t.node.IsDir() ==> DirKeysAll(t.children) == multiset{}
  {
    var d := Tree(Placed(t.node, index, parentIno, false), t.children);
    assert DirKeysAll([t]) == DirKeys(t) + DirKeysAll([t][1..]);
    assert KeysBelow([d]) == DirKeysAll(d.children) + KeysBelow([d][1..]);
  }

  lemma KeysOfNone()
    ensures KeysBelow([]) == multiset{}
  {
  }

  lemma Regroup(a: multiset<LayeredKey>, b: multiset<LayeredKey>, c: multiset<LayeredKey>, d: multiset<LayeredKey>)
    ensures (a + b) + (c + d) == (a + c) + (b + d)
  {
  }

  /** No directory key in `keys` occurs twice, and none has been placed. */
  ghost predicate Unused(lower: InodeMap, upper: InodeMap, keys: multiset<LayeredKey>) {
    forall k :: k in keys ==> keys[k] == 1 && Group(lower, upper, k) == []
  }

  /** Of the directory keys, only those in `keys` have been placed since. */
  ghost predicate OnlyPlaced(lower: InodeMap, upper: InodeMap, lower': InodeMap, upper': InodeMap,
                             keys: multiset<LayeredKey>, D: set<LayeredKey>) {
    forall k :: k in D && Group(lower', upper', k) != [] ==> Group(lower, upper, k) != [] || k in keys
  }

  lemma StillUnused(lower: InodeMap, upper: InodeMap, lower': InodeMap, upper': InodeMap,
                    placed: multiset<LayeredKey>, keys: multiset<LayeredKey>, D: set<LayeredKey>)
    requires Unused(lower, upper, placed + keys) && OnlyPlaced(lower, upper, lower', upper', placed, D)
    requires forall k :: k in keys ==> k in D
    ensures Unused(lower', upper', keys)
  {
    hide Group;
    forall k | k in keys
      ensures keys[k] == 1 && Group(lower', upper', k) == []
    {
      assert k in placed + keys && (placed + keys)[k] == placed[k] + keys[k];
    }
  }

  lemma PlacedTwice(l0: InodeMap, u0: InodeMap, l1: InodeMap, u1: InodeMap, l2: InodeMap, u2: InodeMap,
                    a: multiset<LayeredKey>, b: multiset<LayeredKey>, D: set<LayeredKey>)
    requires OnlyPlaced(l0, u0, l1, u1, a, D) && OnlyPlaced(l1, u1, l2, u2, b, D)
    ensures OnlyPlaced(l0, u0, l2, u2, a + b, D)
  {
    hide Group;
  }

  // ----- numbering one more node -----

  /** The record without what hard links change: as if every file were alone in its group. */
  function Plain(n: Node): Node {
    n.(inode := n.inode.(ino := n.index, nlink := if n.IsDir() then n.inode.nlink else 1))
  }

  function PlainAll(a: seq<Node>): (b: seq<Node>)
    ensures |b| == |a|
    ensures forall i :: 0 <= i < |a| ==> b[i] == Plain(a[i])
  {
    seq(|a|, i requires 0 <= i < |a| => Plain(a[i]))
  }

  /** The maps after noting position `x` for the key `k`. */
  ghost predicate Noted(lower: InodeMap, upper: InodeMap, lower': InodeMap, upper': InodeMap, k: LayeredKey, x: nat) {
    && NoneEmpty(lower') && NoneEmpty(upper')
    && Group(lower', upper', k) == Group(lower, upper, k) + [x]
    && forall k' :: k' != k ==> Group(lower', upper', k') == Group(lower, upper, k')
  }

  lemma NoteKey(lower: InodeMap, upper: InodeMap, k: LayeredKey, x: nat)
    requires NoneEmpty(lower) && NoneEmpty(upper)
    ensures var g := Group(lower, upper, k) + [x];
            Noted(lower, upper, if k.lower then lower[(k.realIno, k.dev) := g] else lower,
                  if k.lower then upper else upper[(k.realIno, k.dev) := g], k, x)
  {
  }

  lemma GroupGrows(nodes: seq<Node>, nodes': seq<Node>, k: LayeredKey, g: seq<nat>)
    requires IsGroup(nodes, k, g) && |nodes| <= |nodes'|
    requires forall i :: 0 <= i < |nodes| ==> KeyOf(nodes'[i]) == KeyOf(nodes[i])
    ensures IsGroup(nodes', k, g)
    ensures |nodes'| == |nodes| + 1 && KeyOf(nodes'[|nodes|]) == k ==> IsGroup(nodes', k, g + [|nodes| + 1])
  {
    hide KeyOf;
    var g' := g + [|nodes| + 1];
    forall i, j | 0 <= i < j < |g'|
      ensures g'[i] < g'[j]
    {
      assert g[i] in g;
    }
  }

  /** The node at position `i`, patched if it is in the group of the new node, is still linked to its group. */
  lemma LinkedStays(m: Node, m': Node, i: nat, g: seq<nat>, g': seq<nat>, x: nat)
    requires Linked(m, i, g) && g != []
    requires (g' == g && m' == m)
             || (!m.IsDir() && g' == g + [x] && m' == m.(inode := m.inode.(nlink := |g| + 1)))
    ensures Linked(m', i, g')
  {
  }

  /** Appending a node to its group keeps the maps and the numbers in agreement. */
  lemma GroupedPush(nodes: seq<Node>, patched: seq<Node>, lower: InodeMap, upper: InodeMap, lower': InodeMap,
      upper': InodeMap, n: Node)
    requires Grouped(nodes, lower, upper)
    requires var k, x := KeyOf(n), |nodes| + 1; var g := Group(lower, upper, k);
             && Noted(lower, upper, lower', upper', k, x) && Patched(nodes, patched, g, |g| + 1)
             && n.index == x && n.inode.ino == (g + [x])[0] && n.inode.nlink == |g| + 1
             && (n.IsDir() ==> g == [])
    requires !n.IsDir() ==> forall i :: 0 <= i < |nodes| && nodes[i].IsDir() ==> KeyOf(nodes[i]) != KeyOf(n)
    ensures Grouped(patched + [n], lower', upper')
  {
    hide Group, KeyOf, IsGroup, Linked, NoneEmpty;
    var k, x, all := KeyOf(n), |nodes| + 1, patched + [n];
    var g := Group(lower, upper, k);
    forall i | 0 <= i < |nodes|
      ensures KeyOf(all[i]) == KeyOf(nodes[i])
    {
      PatchKeepsKey(nodes[i], |g| + 1);
    }
    forall k'
      ensures IsGroup(all, k', Group(lower', upper', k'))
    {
      GroupGrows(nodes, all, k', Group(lower, upper, k'));
    }
    forall i | 0 <= i < |all|
      ensures Linked(all[i], i, Group(lower', upper', KeyOf(all[i])))
    {
      if i < |nodes| {
        var gi := Group(lower, upper, KeyOf(nodes[i]));
        LinkedIn(nodes, lower, upper, i, k);
        LinkedStays(nodes[i], all[i], i, gi, Group(lower', upper', KeyOf(nodes[i])), x);
      } else {
        NewLinked(n, i, g);
      }
    }
  }

  lemma PatchKeepsKey(n: Node, nlink: nat)
    ensures KeyOf(n.(inode := n.inode.(nlink := nlink))) == KeyOf(n)
  {
  }

  lemma NewLinked(n: Node, i: nat, g: seq<nat>)
    requires n.index == i + 1 && n.inode.ino == (g + [i + 1])[0] && n.inode.nlink == |g| + 1 && (n.IsDir() ==> g == [])
    ensures Linked(n, i, g + [i + 1])
  {
    assert (g + [i + 1])[|g|] == i + 1;
  }

  /** Position `i` is in its own group, and in no other. */
  lemma LinkedIn(nodes: seq<Node>, lower: InodeMap, upper: InodeMap, i: nat, k: LayeredKey)
    requires Grouped(nodes, lower, upper) && i < |nodes|
    ensures var g := Group(lower, upper, KeyOf(nodes[i]));
            Linked(nodes[i], i, g) && i + 1 in g && g != []
    ensures i + 1 in Group(lower, upper, k) <==> KeyOf(nodes[i]) == k
  {
    hide Group, KeyOf;
    assert Linked(nodes[i], i, Group(lower, upper, KeyOf(nodes[i])));
    assert IsGroup(nodes, k, Group(lower, upper, k));
  }

  // ----- the steps of the builder -----

  /** The same place in the groups: what changes is at most the child range, and a directory's link count. */
  ghost predicate SameLink(m: Node, n: Node) {
    && KeyOf(m) == KeyOf(n) && m.index == n.index && m.inode.ino == n.inode.ino && m.IsDir() == n.IsDir()
    && (!m.IsDir() ==> m.inode.nlink == n.inode.nlink)
  }

  lemma GroupedUpdate(nodes: seq<Node>, nodes': seq<Node>, lower: InodeMap, upper: InodeMap)
    requires Grouped(nodes, lower, upper)
    requires |nodes'| == |nodes| && forall i :: 0 <= i < |nodes| ==> SameLink(nodes[i], nodes'[i])
    ensures Grouped(nodes', lower, upper)
  {
    hide Group, KeyOf, NoneEmpty;
    forall k
      ensures IsGroup(nodes', k, Group(lower, upper, k))
    {
      assert IsGroup(nodes, k, Group(lower, upper, k));
    }
    forall i | 0 <= i < |nodes'|
      ensures Linked(nodes'[i], i, Group(lower, upper, KeyOf(nodes'[i])))
    {
      LinkedIn(nodes, lower, upper, i, KeyOf(nodes[i]));
      assert SameLink(nodes[i], nodes'[i]);
    }
  }

  /** Setting the child range or link count of a directory. */
  lemma DirUpdate(nodes: seq<Node>, k: nat, childIndex: Word, childCount: nat, nlink: nat, lower: InodeMap,
      upper: InodeMap, D: set<LayeredKey>)
    requires Grouped(nodes, lower, upper) && DirsIn(nodes, D) && k < |nodes| && nodes[k].IsDir()
    ensures var nodes' := nodes[k := WithRange(nodes[k], childIndex, childCount)];
            Grouped(nodes', lower, upper) && DirsIn(nodes', D)
            && PlainAll(nodes') == PlainAll(nodes)[k := WithRange(PlainAll(nodes)[k], childIndex, childCount)]
    ensures var nodes' := nodes[k := WithLinks(nodes[k], nlink)];
            Grouped(nodes', lower, upper) && DirsIn(nodes', D)
            && PlainAll(nodes') == PlainAll(nodes)[k := WithLinks(PlainAll(nodes)[k], nlink)]
  {
    hide Grouped;
    GroupedUpdate(nodes, nodes[k := WithRange(nodes[k], childIndex, childCount)], lower, upper);
    GroupedUpdate(nodes, nodes[k := WithLinks(nodes[k], nlink)], lower, upper);
  }

  lemma PlainPush(nodes: seq<Node>, patched: seq<Node>, g: seq<nat>, nlink: nat, n: Node)
    requires Patched(nodes, patched, g, nlink)
    requires forall i :: 0 <= i < |nodes| && i + 1 in g ==> !nodes[i].IsDir()
    ensures PlainAll(patched + [n]) == PlainAll(nodes) + [Plain(n)]
  {
    forall i | 0 <= i < |nodes|
      ensures Plain(patched[i]) == Plain(nodes[i])
    {
    }
  }

  lemma DirsInPush(nodes: seq<Node>, patched: seq<Node>, g: seq<nat>, nlink: nat, n: Node, D: set<LayeredKey>)
    requires DirsIn(nodes, D) && Patched(nodes, patched, g, nlink) && (n.IsDir() <==> KeyOf(n) in D)
    ensures DirsIn(patched + [n], D)
  {
  }

  /** A child that becomes part of a group is no directory, and joins no directory. */
  lemma GroupHasNoDirs(nodes: seq<Node>, lower: InodeMap, upper: InodeMap, n: Node, D: set<LayeredKey>)
    requires Grouped(nodes, lower, upper) && DirsIn(nodes, D) && (n.IsDir() <==> KeyOf(n) in D)
    requires n.IsDir() ==> Group(lower, upper, KeyOf(n)) == []
    ensures forall i :: 0 <= i < |nodes| && i + 1 in Group(lower, upper, KeyOf(n)) ==> !nodes[i].IsDir()
    ensures !n.IsDir() ==> forall i :: 0 <= i < |nodes| && nodes[i].IsDir() ==> KeyOf(nodes[i]) != KeyOf(n)
  {
    hide Group, KeyOf;
    assert IsGroup(nodes, KeyOf(n), Group(lower, upper, KeyOf(n)));
  }

  lemma NotedPlaced(lower: InodeMap, upper: InodeMap, lower': InodeMap, upper': InodeMap, t: Tree,
      D: set<LayeredKey>, x: nat)
    requires Noted(lower, upper, lower', upper', KeyOf(t.node), x) && (t.node.IsDir() <==> KeyOf(t.node) in D)
    ensures OnlyPlaced(lower, upper, lower', upper', OwnKey(t), D)
  {
    hide Group, KeyOf;
  }

  lemma {:induction false} OwnKeysPrefix(ts: seq<Tree>, i: nat)
    requires i < |ts|
    ensures OwnKeys(ts[..i + 1]) == OwnKeys(ts[..i]) + OwnKey(ts[i])
    ensures OwnKeys(ts[..i + 1]) <= OwnKeys(ts)
    decreases |ts| - i
  {
    hide OwnKey;
    assert ts[..i + 1][..i] == ts[..i];
    if i + 1 < |ts| {
      OwnKeysPrefix(ts, i + 1);
    } else {
      assert ts[..i + 1] == ts;
    }
  }

  /** The next child's key is unused if it is a directory. */
  lemma NextIsUnused(l0: InodeMap, u0: InodeMap, l1: InodeMap, u1: InodeMap, ts: seq<Tree>, i: nat, D: set<LayeredKey>)
    requires i < |ts| && Unused(l0, u0, OwnKeys(ts)) && OnlyPlaced(l0, u0, l1, u1, OwnKeys(ts[..i]), D)
    requires ts[i].node.IsDir() && KeyOf(ts[i].node) in D
    ensures Group(l1, u1, KeyOf(ts[i].node)) == []
  {
    hide Group, KeyOf;
    OwnKeysPrefix(ts, i);
    var k := KeyOf(ts[i].node);
    assert OwnKeys(ts)[k] >= OwnKeys(ts[..i + 1])[k] == OwnKeys(ts[..i])[k] + 1;
    assert k in OwnKeys(ts);
  }

  lemma UnusedPart(lower: InodeMap, upper: InodeMap, keys: multiset<LayeredKey>, part: multiset<LayeredKey>)
    requires Unused(lower, upper, keys) && part <= keys
    ensures Unused(lower, upper, part)
  {
    hide Group;
    forall k | k in part
      ensures part[k] == 1 && Group(lower, upper, k) == []
    {
      assert 1 <= part[k] <= keys[k];
    }
  }

  lemma {:induction false} KeysAreIn(t: Tree, D: set<LayeredKey>)
    requires Keyed(t, D)
    ensures forall k :: k in DirKeys(t) ==> k in D
    ensures forall k :: k in DirKeysAll(t.children) ==> k in D
    decreases t, 1
  {
    AllKeysAreIn(t.children, D);
  }

  lemma {:induction false} AllKeysAreIn(ts: seq<Tree>, D: set<LayeredKey>)
    requires forall i :: 0 <= i < |ts| ==> Keyed(ts[i], D)
    ensures forall k :: k in DirKeysAll(ts) ==> k in D
    decreases ts, 0
  {
    if ts != [] {
      KeysAreIn(ts[0], D);
      AllKeysAreIn(ts[1..], D);
    }
  }

  lemma {:induction false} BelowKeysAreIn(ds: seq<Tree>, D: set<LayeredKey>)
    requires forall i :: 0 <= i < |ds| ==> Keyed(ds[i], D)
    ensures forall k :: k in KeysBelow(ds) ==> k in D
  {
    hide DirKeysAll, Keyed;
    if ds != [] {
      KeysAreIn(ds[0], D);
      BelowKeysAreIn(ds[1..], D);
    }
  }

  lemma {:induction false} KeysBelowAt(ds: seq<Tree>, m: nat)
    requires m < |ds|
    ensures KeysBelow(ds[..m + 1]) == KeysBelow(ds[..m]) + DirKeysAll(ds[m].children)
    ensures KeysBelow(ds[..m + 1]) <= KeysBelow(ds)
  {
    assert ds[..m + 1] == ds[..m] + [ds[m]];
    assert ds == ds[..m + 1] + ds[m + 1..];
    KeysBelowAppend(ds[..m], [ds[m]]);
    KeysBelowAppend(ds[..m + 1], ds[m + 1..]);
    assert KeysBelow([ds[m]]) == DirKeysAll(ds[m].children) + KeysBelow([ds[m]][1..]);
  }

  lemma PlacedDirsKeyed(ts: seq<Tree>, base: nat, parentIno: nat, D: set<LayeredKey>)
    requires forall i :: 0 <= i < |ts| ==> Keyed(ts[i], D)
    ensures forall m :: 0 <= m < |PlacedDirs(ts, base, parentIno, false)| ==>
              Keyed(PlacedDirs(ts, base, parentIno, false)[m], D)
  {
    hide PlacedDirs, DirKeysAll;
    var ds := PlacedDirs(ts, base, parentIno, false);
    forall m | 0 <= m < |ds|
      ensures Keyed(ds[m], D)
    {
      var i := PlacedDirFrom(ts, base, parentIno, m, false);
    }
  }

  /** A directory of the plain array is the same in the real one. */
  lemma PlainDir(nodes: seq<Node>, k: nat, n: Node)
    requires k < |nodes| && SameFileAndNumber(PlainAll(nodes)[k], n)
    ensures SameFileAndNumber(nodes[k], n)
  {
    assert FileOf(Plain(nodes[k])) == FileOf(nodes[k]);
  }

  /** The flattened directory is alone in its group, so noting it again changes nothing. */
  lemma DirIsNoted(nodes: seq<Node>, lower: InodeMap, upper: InodeMap, n: Node, k: nat)
    requires Grouped(nodes, lower, upper) && k < |nodes| && n.IsDir() && n.index == k + 1
               && SameFileAndNumber(nodes[k], n)
    ensures nodes[k].IsDir() && HasIndex(nodes[k], k) && PlainAll(nodes)[k] == nodes[k]
    ensures n.overlay.Lower? ==> lower[(n.realIno, n.dev) := [n.index]] == lower
    ensures !n.overlay.Lower? ==> upper[(n.realIno, n.dev) := [n.index]] == upper
  {
    assert FileOf(nodes[k]).kind == FileOf(n).kind;
    assert Linked(nodes[k], k, Group(lower, upper, KeyOf(nodes[k])));
    assert KeyOf(nodes[k]) == KeyOf(n);
  }

  lemma OnlyPlacedNothing(lower: InodeMap, upper: InodeMap, D: set<LayeredKey>)
    ensures OnlyPlaced(lower, upper, lower, upper, multiset{}, D)
  {
  }

  /** After the children are placed, the directories below them are still unused. */
  lemma BelowUnused(l0: InodeMap, u0: InodeMap, l1: InodeMap, u1: InodeMap, t: Tree, base: nat, parentIno: nat,
      D: set<LayeredKey>)
    requires WellFormed(t) && Keyed(t, D) && Unused(l0, u0, DirKeysAll(t.children))
    requires OnlyPlaced(l0, u0, l1, u1, OwnKeys(SortByName(t.children)), D)
    ensures var ds := PlacedDirs(SortByName(t.children), base, parentIno, false);
            && Unused(l1, u1, KeysBelow(ds))
            && DirKeysAll(t.children) == OwnKeys(SortByName(t.children)) + KeysBelow(ds)
            && forall m :: 0 <= m < |ds| ==> Keyed(ds[m], D)
  {
    hide WellFormed, Unused, OnlyPlaced, Group, DirKeysAll, OwnKeys, KeysBelow, PlacedDirs, SortByName, Keyed;
    SortedForDirs(t);
    DirKeysSorted(t.children);
    KeyedSorted(t, D);
    KeysOfPlaced(SortByName(t.children), base, parentIno);
    PlacedDirsKeyed(SortByName(t.children), base, parentIno, D);
    BelowKeysAreIn(PlacedDirs(SortByName(t.children), base, parentIno, false), D);
    StillUnused(l0, u0, l1, u1, OwnKeys(SortByName(t.children)), KeysBelow(PlacedDirs(SortByName(t.children), base,
        parentIno, false)), D);
  }

  lemma SortedForDirs(t: Tree)
    requires WellFormed(t)
    ensures forall i :: 0 <= i < |SortByName(t.children)| && !SortByName(t.children)[i].node.IsDir() ==>
              SortByName(t.children)[i].children == []
  {
    hide SortByName, WellFormed;
    SortedChildren(t);
    SortedLeaves(SortByName(t.children));
  }

  /** Before the children are placed, the directories among them are unused. */
  lemma OwnUnused(lower: InodeMap, upper: InodeMap, t: Tree, D: set<LayeredKey>)
    requires WellFormed(t) && Keyed(t, D) && Unused(lower, upper, DirKeysAll(t.children))
    ensures Unused(lower, upper, OwnKeys(SortByName(t.children)))
    ensures forall i :: 0 <= i < |SortByName(t.children)| ==>
              (SortByName(t.children)[i].node.IsDir() <==> KeyOf(SortByName(t.children)[i].node) in D)
  {
    hide WellFormed, Unused, Group, DirKeysAll, OwnKeys, KeysBelow, PlacedDirs, SortByName;
    SortedForDirs(t);
    DirKeysSorted(t.children);
    KeysOfPlaced(SortByName(t.children), 0, 0);
    KeyedSorted(t, D);
    UnusedPart(lower, upper, DirKeysAll(t.children), OwnKeys(SortByName(t.children)));
  }

  /** What the second loop needs of the placed directories. */
  lemma ReadyToFlatten(nodes: seq<Node>, t: Tree, base: nat, parentIno: nat)
    requires WellFormed(t)
    requires base + |t.children| == |nodes| && base + SizeAll(t.children) + 1 < U32
    requires nodes[base..] == Records(SortByName(t.children), base, parentIno, false)
    ensures var ds := PlacedDirs(SortByName(t.children), base, parentIno, false);
            && (forall m :: 0 <= m < |ds| ==> ReadyDir(nodes, ds[m], t.node.path))
            && (forall l, m :: 0 <= l < m < |ds| ==> ds[l].node.index != ds[m].node.index)
            && |nodes| + SizeAll(ds) - |ds| + 1 < U32
            && SizeAll(ds) < Size(t)
  {
    hide WellFormed, PlacedDirs, SortByName, ReadyDir, SizeAll, Sorted, Records, DistinctNames;
    var ts := SortByName(t.children);
    SortedChildren(t);
    SortedLeaves(ts);
    PlacedDirsSize(ts, base, parentIno, false);
    PlacedDirsReady(nodes, ts, base, parentIno, t.node.path, false);
  }

  // ----- the whole array -----

  /** As in any file system, every directory is an inode of its own: no two share a key, nor does a file share one's. */
  ghost predicate OwnInodes(t: Tree) {
    && (forall k :: k in DirKeys(t) ==> DirKeys(t)[k] == 1)
    && Keyed(t, KeysOf(t))
  }

  ghost function KeysOf(t: Tree): set<LayeredKey> {
    set k | k in DirKeys(t)
  }

  function AsFirst(n: Node): Node {
    n.(index := 1, inode := n.inode.(ino := 1))
  }

  /** The maps with the root entered as inode 1. */
  function RootLower(k: LayeredKey): InodeMap {
    if k.lower then map[(k.realIno, k.dev) := [1]] else map[]
  }

  function RootUpper(k: LayeredKey): InodeMap {
    if k.lower then map[] else map[(k.realIno, k.dev) := [1]]
  }

  lemma RootGroups(k: LayeredKey)
    ensures NoneEmpty(RootLower(k)) && NoneEmpty(RootUpper(k))
    ensures forall k' :: Group(RootLower(k), RootUpper(k), k') == if k' == k then [1] else []
  {
  }

  lemma RootGrouped(n: Node)
    requires n.IsDir() && n.index == 1 && n.inode.ino == 1
    ensures Grouped([n], RootLower(KeyOf(n)), RootUpper(KeyOf(n)))
  {
    hide Group, KeyOf, RootLower, RootUpper, NoneEmpty;
    RootGroups(KeyOf(n));
  }

  lemma OwnInodesStart(tree: Tree)
    requires OwnInodes(tree) && tree.node.IsDir()
    ensures var n := AsFirst(tree.node); var k := KeyOf(n);
            && Keyed(Tree(n, tree.children), KeysOf(tree)) && Grouped([n], RootLower(k), RootUpper(k))
            && DirsIn([n], KeysOf(tree)) && Unused(RootLower(k), RootUpper(k), DirKeysAll(tree.children))
            && PlainAll([n]) == [n]
  {
    hide Group, Grouped, RootLower, RootUpper, DirKeysAll;
    var n := AsFirst(tree.node);
    RootGrouped(n);
    RootGroups(KeyOf(n));
    assert KeyOf(n) == KeyOf(tree.node) && KeyOf(n) in DirKeys(tree);
    forall k | k in DirKeysAll(tree.children)
      ensures k != KeyOf(n) && DirKeysAll(tree.children)[k] == 1
    {
      assert k in DirKeys(tree) && DirKeys(tree)[k] == OwnKey(tree)[k] + DirKeysAll(tree.children)[k];
    }
  }

  class Builder {
    var nodes: seq<Node>
    var lowerInodeMap: InodeMap
    var upperInodeMap: InodeMap

    constructor ()
      ensures nodes == [] && lowerInodeMap == map[] && upperInodeMap == map[]
    {
      nodes, lowerInodeMap, upperInodeMap := [], map[], map[];
    }

    ghost predicate Valid(D: set<LayeredKey>)
      reads this
    {
      Grouped(nodes, lowerInodeMap, upperInodeMap) && DirsIn(nodes, D)
    }

    /** The hard link block: the number and link count of the node about to be placed at `index`, by its layer's map. */
    method NumberInLayer(node: Node, index: nat) returns (nodes': seq<Node>, ino: nat, nlink: nat)
      requires Grouped(nodes, lowerInodeMap, upperInodeMap) && index == |nodes| + 1
      modifies this`lowerInodeMap, this`upperInodeMap
      ensures var g := Group(old(lowerInodeMap), old(upperInodeMap), KeyOf(node));
              && Noted(old(lowerInodeMap), old(upperInodeMap), lowerInodeMap, upperInodeMap, KeyOf(node), index)
              && Patched(nodes, nodes', g, |g| + 1) && ino == (g + [index])[0] && nlink == |g| + 1
    {
      hide IsGroup, Linked;
      GroupIsUsable(nodes, lowerInodeMap, upperInodeMap, KeyOf(node));
      NoteKey(lowerInodeMap, upperInodeMap, KeyOf(node), index);
      if node.overlay.Lower? {
        lowerInodeMap, nodes', ino, nlink := Number(lowerInodeMap, nodes, (node.realIno, node.dev), index);
      } else {
        upperInodeMap, nodes', ino, nlink := Number(upperInodeMap, nodes, (node.realIno, node.dev), index);
      }
    }

    /** One round of the first loop of `build_rafs`: number a child within its layer and append it. */
    method PlaceChild(child: Tree, parentIno: nat, ghost D: set<LayeredKey>) returns (placed: Tree)
      requires Valid(D)
      requires child.node.IsDir() <==> KeyOf(child.node) in D
      requires child.node.IsDir() ==> Group(lowerInodeMap, upperInodeMap, KeyOf(child.node)) == []
      modifies this
      ensures Valid(D)
      ensures PlainAll(nodes) == PlainAll(old(nodes)) + [Placed(child.node, |old(nodes)| + 1, parentIno, false)]
      ensures child.node.IsDir() ==> placed == Tree(Placed(child.node, |old(nodes)| + 1, parentIno, false),
                child.children)
      ensures placed.node.IsDir() == child.node.IsDir()
      ensures OnlyPlaced(old(lowerInodeMap), old(upperInodeMap), lowerInodeMap, upperInodeMap, OwnKey(child), D)
    {
      hide Grouped, DirsIn, OnlyPlaced, Group, IsGroup, Linked, Noted, Patched, OwnKey;
      GroupHasNoDirs(nodes, lowerInodeMap, upperInodeMap, child.node, D);
      var node := child.node;
      var index := |nodes| + 1;
      node := node.(index := index, inode := node.inode.(parent := parentIno));
      var nodes', ino, nlink := NumberInLayer(node, index);
      node := node.(inode := node.inode.(ino := ino, nlink := nlink));
      ghost var g := Group(old(lowerInodeMap), old(upperInodeMap), KeyOf(node));
      GroupedPush(nodes, nodes', old(lowerInodeMap), old(upperInodeMap), lowerInodeMap, upperInodeMap, node);
      PlainPush(nodes, nodes', g, |g| + 1, node);
      DirsInPush(nodes, nodes', g, |g| + 1, node, D);
      NotedPlaced(old(lowerInodeMap), old(upperInodeMap), lowerInodeMap, upperInodeMap, child, D, index);
      nodes := nodes' + [node];
      placed := Tree(node, child.children);
    }

    /** The first loop of `build_rafs`. */
    method PlaceChildren(children: seq<Tree>, parentIno: nat, ghost D: set<LayeredKey>) returns (dirs: seq<Tree>)
      requires Valid(D)
      requires forall i :: 0 <= i < |children| ==> (children[i].node.IsDir() <==> KeyOf(children[i].node) in D)
      requires Unused(lowerInodeMap, upperInodeMap, OwnKeys(children))
      modifies this
      ensures Valid(D)
      ensures PlainAll(nodes) == PlainAll(old(nodes)) + Records(children, |old(nodes)|, parentIno, false)
      ensures dirs == PlacedDirs(children, |old(nodes)|, parentIno, false)
      ensures OnlyPlaced(old(lowerInodeMap), old(upperInodeMap), lowerInodeMap, upperInodeMap, OwnKeys(children), D)
    {
      hide Grouped, DirsIn, OnlyPlaced, Group, Unused, OwnKey, OwnKeys, KeyOf, Placed, Records, PlacedDirs, Plain;
      dirs := [];
      PlacedAll(children, |nodes|, parentIno, false);
      NoOwnKeys(children);
      OnlyPlacedNothing(lowerInodeMap, upperInodeMap, D);
      for i := 0 to |children|
        invariant Valid(D)
        invariant PlainAll(nodes) == PlainAll(old(nodes)) + Records(children, |old(nodes)|, parentIno, false)[..i]
        invariant dirs == PlacedDirs(children[..i], |old(nodes)|, parentIno, false)
        invariant OnlyPlaced(old(lowerInodeMap), old(upperInodeMap), lowerInodeMap, upperInodeMap,
                    OwnKeys(children[..i]), D)
      {
        PlacedNext(children, i, |old(nodes)|, parentIno, false);
        OwnKeysPrefix(children, i);
        ghost var l1, u1 := lowerInodeMap, upperInodeMap;
        if children[i].node.IsDir() {
          NextIsUnused(old(lowerInodeMap), old(upperInodeMap), l1, u1, children, i, D);
        }
        assert |nodes| == |old(nodes)| + i by { assert |PlainAll(nodes)| == |old(nodes)| + i; }
        var placed := PlaceChild(children[i], parentIno, D);
        PlacedTwice(old(lowerInodeMap), old(upperInodeMap), l1, u1, lowerInodeMap, upperInodeMap,
                    OwnKeys(children[..i]), OwnKey(children[i]), D);
        if placed.node.IsDir() {
          dirs := dirs + [placed];
        }
      }
    }

    /** The second loop of `build_rafs`. */
    method FlattenDirs(dirs: seq<Tree>, ghost parent: Path, ghost D: set<LayeredKey>)
      requires Valid(D)
      requires forall i :: 0 <= i < |dirs| ==> ReadyDir(PlainAll(nodes), dirs[i], parent) && Keyed(dirs[i], D)
      requires forall i, j :: 0 <= i < j < |dirs| ==> dirs[i].node.index != dirs[j].node.index
      requires Unused(lowerInodeMap, upperInodeMap, KeysBelow(dirs))
      requires |nodes| + SizeAll(dirs) - |dirs| + 1 < U32
      modifies this
      ensures Valid(D)
      ensures Flattened(PlainAll(old(nodes)), PlainAll(nodes), dirs, false)
      ensures OnlyPlaced(old(lowerInodeMap), old(upperInodeMap), lowerInodeMap, upperInodeMap, KeysBelow(dirs), D)
      decreases SizeAll(dirs), 1
    {
      hide Rep, Canon, WellFormed, Grouped, DirsIn, OnlyPlaced, Group, Unused, Keyed, RepBlocks, SameButChildren,
           SameFileAndNumber, Built, Blocks, BuiltNode, DirKeysAll, KeysBelow, Plain, ReadyDir, KeyOf;
      ghost var before := PlainAll(nodes);
      FlattenedNone(before, false);
      OnlyPlacedNothing(lowerInodeMap, upperInodeMap, D);
      KeysOfNone();
      forall i | 0 <= i < |dirs|
        ensures 1 <= dirs[i].node.index <= |before|
      {
        ReadyParts(before, dirs[i], parent);
      }
      for m := 0 to |dirs|
        invariant Valid(D)
        invariant Flattened(before, PlainAll(nodes), dirs[..m], false)
        invariant OnlyPlaced(old(lowerInodeMap), old(upperInodeMap), lowerInodeMap, upperInodeMap,
                    KeysBelow(dirs[..m]), D)
      {
        ghost var mid, d := PlainAll(nodes), dirs[m];
        ghost var l1, u1 := lowerInodeMap, upperInodeMap;
        SizeAllAt(dirs, m);
        ReadyParts(before, d, parent);
        ReadyDirStays(before, mid, d, parent);
        ReadyParts(mid, d, parent);
        PlainDir(nodes, d.node.index - 1, d.node);
        KeysBelowAt(dirs, m);
        KeysAreIn(d, D);
        UnusedPart(old(lowerInodeMap), old(upperInodeMap), KeysBelow(dirs), KeysBelow(dirs[..m + 1]));
        StillUnused(old(lowerInodeMap), old(upperInodeMap), l1, u1, KeysBelow(dirs[..m]), DirKeysAll(d.children), D);
        BuildRafs(dirs[m], D);
        assert dirs[..m + 1] == dirs[..m] + [d];
        FlattenedStep(before, mid, PlainAll(nodes), dirs[..m], d, false);
        PlacedTwice(old(lowerInodeMap), old(upperInodeMap), l1, u1, lowerInodeMap, upperInodeMap,
                    KeysBelow(dirs[..m]), DirKeysAll(d.children), D);
      }
      assert dirs[..|dirs|] == dirs;
    }

    /** `build_rafs` up to its second loop: set the child range of `tree`, place its children, set its link count. */
    method PlaceLevel(tree: Tree, ghost D: set<LayeredKey>) returns (dirs: seq<Tree>, ghost a: seq<Node>)
      requires Valid(D)
      requires WellFormed(tree) && tree.node.IsDir() && Keyed(tree, D)
      requires 1 <= tree.node.index <= |nodes| && SameFileAndNumber(nodes[tree.node.index - 1], tree.node)
      requires Unused(lowerInodeMap, upperInodeMap, DirKeysAll(tree.children))
      requires |nodes| + SizeAll(tree.children) + 1 < U32
      modifies this
      ensures Valid(D)
      ensures var before, k, ts := PlainAll(old(nodes)), tree.node.index - 1, SortByName(tree.children);
              && dirs == PlacedDirs(ts, |before|, k + 1, false)
              && SameFileAndNumber(before[k], tree.node) && HasIndex(before[k], k)
              && a == before[k := WithRange(before[k], |before| + 1, |ts|)]
              && PlainAll(nodes) == (a + Records(ts, |before|, k + 1, false))[k := WithLinks(a[k], 2 + |dirs|)]
      ensures OnlyPlaced(old(lowerInodeMap), old(upperInodeMap), lowerInodeMap, upperInodeMap,
                OwnKeys(SortByName(tree.children)), D)
    {
      hide WellFormed, Canon, SortByName, RepBlocks, Rep, Placed, PlacedDirs, SizeAll, Flattened, Grouped, Records,
           FileOf, Sorted, DistinctNames, WithRange, WithLinks, SameButChildren, Keyed, Unused, OnlyPlaced,
           DirKeysAll, OwnKeys, Group, KeyOf, Plain, DirsIn, SameFileAndNumber, OwnKey;
      var k := tree.node.index - 1;
      var base := |nodes|;
      DirIsNoted(nodes, lowerInodeMap, upperInodeMap, tree.node, k);
      PlainFile(nodes, k, tree.node);
      if tree.node.overlay.Lower? {
        lowerInodeMap := lowerInodeMap[(tree.node.realIno, tree.node.dev) := [tree.node.index]];
      } else {
        upperInodeMap := upperInodeMap[(tree.node.realIno, tree.node.dev) := [tree.node.index]];
      }
      DirUpdate(nodes, k, (base + 1) % U32, |tree.children| % U32, 0, lowerInodeMap, upperInodeMap, D);
      if nodes[k].IsDir() {
        nodes := nodes[k := WithRange(nodes[k], (base + 1) % U32, |tree.children| % U32)];
      }
      a := PlainAll(nodes);
      RangeAndLinks(old(nodes)[k], (base + 1) % U32, |tree.children| % U32, 1);
      var parentIno := nodes[k].inode.ino;
      var children := SortByName(tree.children);
      OwnUnused(lowerInodeMap, upperInodeMap, tree, D);
      dirs := PlaceChildren(children, parentIno, D);
      PlainIsDir(nodes, k, a);
      DirUpdate(nodes, k, 0, 0, 2 + |dirs|, lowerInodeMap, upperInodeMap, D);
      if tree.node.IsDir() {
        nodes := nodes[k := WithLinks(nodes[k], 2 + |dirs|)];
      }
    }

    /** `build_rafs`: place the children of `tree`, then flatten each of its directories. */
    method BuildRafs(tree: Tree, ghost D: set<LayeredKey>)
      requires Valid(D)
      requires WellFormed(tree) && tree.node.IsDir() && Keyed(tree, D)
      requires 1 <= tree.node.index <= |nodes| && SameFileAndNumber(nodes[tree.node.index - 1], tree.node)
      requires Unused(lowerInodeMap, upperInodeMap, DirKeysAll(tree.children))
      requires |nodes| + SizeAll(tree.children) + 1 < U32
      modifies this
      ensures Valid(D)
      ensures Built(PlainAll(old(nodes)), PlainAll(nodes), tree, false)
      ensures OnlyPlaced(old(lowerInodeMap), old(upperInodeMap), lowerInodeMap, upperInodeMap,
                DirKeysAll(tree.children), D)
      decreases Size(tree), 0
    {
      hide WellFormed, SortByName, Placed, PlacedDirs, SizeAll, Built, Flattened, Grouped, Records, ReadyDir, WithRange,
           WithLinks, Keyed, Unused, OnlyPlaced, DirKeysAll, OwnKeys, KeysBelow, Plain, DirsIn, SameFileAndNumber;
      var base := |nodes|;
      var dirs, a := PlaceLevel(tree, D);
      ghost var children := SortByName(tree.children);
      BelowUnused(old(lowerInodeMap), old(upperInodeMap), lowerInodeMap, upperInodeMap, tree, base, tree.node.index, D);
      ghost var b, l1, u1 := PlainAll(nodes), lowerInodeMap, upperInodeMap;
      assert b[base..] == Records(children, base, tree.node.index, false);
      ReadyToFlatten(b, tree, base, tree.node.index);
      FlattenDirs(dirs, tree.node.path, D);
      PlacedTwice(old(lowerInodeMap), old(upperInodeMap), l1, u1, lowerInodeMap, upperInodeMap, OwnKeys(children),
          KeysBelow(dirs), D);
      PlacedThenFlattened(PlainAll(old(nodes)), a, b, PlainAll(nodes), tree, false);
    }

    /** `build_rafs_wrap`: number the root, then flatten everything below it. */
    method BuildRafsWrap(tree: Tree)
      requires nodes == [] && lowerInodeMap == map[] && upperInodeMap == map[]
      requires tree.node.IsDir() && WellFormed(tree) && OwnInodes(tree)
      requires Size(tree) + 1 < U32
      modifies this
      ensures Grouped(nodes, lowerInodeMap, upperInodeMap)
      ensures var t := Tree(AsFirst(tree.node), tree.children); Built([t.node], PlainAll(nodes), t, false)
    {
      hide WellFormed, Built, Canon, SizeAll, OwnInodes, Keyed, Unused, Grouped, DirsIn, DirKeysAll;
      OwnInodesStart(tree);
      var node := AsFirst(tree.node);
      nodes := [node];
      // `build_rafs` starts by entering its directory into the map of its layer; doing so here makes `Valid` hold.
      if node.overlay.Lower? {
        lowerInodeMap := map[(node.realIno, node.dev) := [node.index]];
      } else {
        upperInodeMap := map[(node.realIno, node.dev) := [node.index]];
      }
      WellFormedRenumbered(tree, Tree(node, tree.children));
      BuildRafs(Tree(node, tree.children), KeysOf(tree));
    }
  }

  lemma NoOwnKeys(ts: seq<Tree>)
    ensures OwnKeys(ts[..0]) == multiset{}
  {
  }

  lemma PlainFile(nodes: seq<Node>, k: nat, n: Node)
    requires k < |nodes| && SameFileAndNumber(nodes[k], n) && PlainAll(nodes)[k] == nodes[k]
    ensures SameFileAndNumber(PlainAll(nodes)[k], n)
  {
  }

  lemma PlainIsDir(nodes: seq<Node>, k: nat, a: seq<Node>)
    requires k < |a| <= |nodes| && PlainAll(nodes)[k] == a[k] && a[k].IsDir()
    ensures nodes[k].IsDir()
  {
    assert PlainAll(nodes)[k] == Plain(nodes[k]);
  }

  lemma GroupIsUsable(nodes: seq<Node>, lower: InodeMap, upper: InodeMap, k: LayeredKey)
    requires Grouped(nodes, lower, upper)
    ensures forall x :: x in Group(lower, upper, k) ==> 1 <= x <= |nodes|
    ensures var m, key := if k.lower then lower else upper, (k.realIno, k.dev);
            key in m ==> m[key] != [] && m[key] == Group(lower, upper, k)
  {
    hide KeyOf;
    assert IsGroup(nodes, k, Group(lower, upper, k));
  }
}
