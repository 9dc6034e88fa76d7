/** File trees: the builder's `Tree`, its sorted image `FileTree`, path lookup and sorting by name. */
module Trees {
  import opened Wrappers
  import opened Bytes
  import opened Nodes

  datatype Tree = Tree(node: Node, children: seq<Tree>)

  function Size(t: Tree): (n: nat)
    ensures n > 0
  {
    1 + SizeAll(t.children)
  }

  function SizeAll(ts: seq<Tree>): (n: nat)
    ensures n >= |ts|
  {
    if ts == [] then 0 else Size(ts[0]) + SizeAll(ts[1..])
  }

  lemma {:induction false} SizeAllAppend(a: seq<Tree>, b: seq<Tree>)
    ensures SizeAll(a + b) == SizeAll(a) + SizeAll(b)
  {
    if a == [] {
      assert a + b == b;
    } else {
      assert (a + b)[1..] == a[1..] + b;
      SizeAllAppend(a[1..], b);
    }
  }

  // ----- well-formed trees -----

  ghost predicate DistinctNames(ts: seq<Tree>) {
    forall i, j :: 0 <= i < j < |ts| ==> ts[i].node.Name() != ts[j].node.Name()
  }

  /** Only directories have children; siblings have distinct names; a child's path is its parent's plus its own name;
      every file's chunk count fits the fields the format has for it. */
  ghost predicate WellFormed(t: Tree) {
    && (!t.node.IsDir() ==>
          t.children == [] && t.node.inode.childCount == |t.node.chunks| < U32)
    && t.node.inode.size < 0x20_0000_0000_0000
    && DistinctNames(t.children)
    && forall i :: 0 <= i < |t.children| ==>
         && t.children[i].node.path == t.node.path + [t.children[i].node.Name()]
         && WellFormed(t.children[i])
  }

  // ----- lookup by path -----

  /** The position of the first child with the given name. */
  function ChildNamed(ts: seq<Tree>, name: Name): (r: Option<nat>)
    ensures r.Some? ==> r.value < |ts| && ts[r.value].node.Name() == name
    ensures r.None? ==> forall i :: 0 <= i < |ts| ==> ts[i].node.Name() != name
  {
    if ts == [] then None
    else if ts[0].node.Name() == name then Some(0)
    else match ChildNamed(ts[1..], name)
         case Some(i) => Some(i + 1)
         case None =>
           assert forall i :: 1 <= i < |ts| ==> ts[i] == ts[1..][i - 1];
           None
  }

  /** The subtree at the path `p` below `t`. */
  function Find(t: Tree, p: Path): Option<Tree>
    decreases |p|
  {
    if p == [] then Some(t)
    else match ChildNamed(t.children, p[0])
         case Some(i) => Find(t.children[i], p[1..])
         case None => None
  }

  lemma ChildNamedIs(ts: seq<Tree>, i: nat)
    requires DistinctNames(ts) && i < |ts|
    ensures ChildNamed(ts, ts[i].node.Name()) == Some(i)
  {
  }

  // ----- sorting by name -----

  function InsertByName(t: Tree, ts: seq<Tree>): (r: seq<Tree>)
    ensures multiset(r) == multiset{t} + multiset(ts)
    ensures SizeAll(r) == Size(t) + SizeAll(ts)
  {
    if ts == [] then [t]
    else if Less(ts[0].node.Name(), t.node.Name()) then
      assert ts == [ts[0]] + ts[1..];
      var rest := InsertByName(t, ts[1..]);
      assert ([ts[0]] + rest)[1..] == rest;
      [ts[0]] + rest
    else
      assert ([t] + ts)[1..] == ts;
      [t] + ts
  }

  /** The stable `sort_by_key` by file name. */
  function SortByName(ts: seq<Tree>): (r: seq<Tree>)
    ensures multiset(r) == multiset(ts)
    ensures SizeAll(r) == SizeAll(ts)
    ensures |r| == |ts|
  {
    if ts == [] then [] else
      assert ts == [ts[0]] + ts[1..];
      var r := InsertByName(ts[0], SortByName(ts[1..]));
      assert |multiset(r)| == |multiset(ts)|;
      r
  }

  ghost predicate Sorted(ts: seq<Tree>) {
    forall i, j :: 0 <= i < j < |ts| ==> Less(ts[i].node.Name(), ts[j].node.Name())
  }

  lemma InsertedFrom(t: Tree, ts: seq<Tree>, r: Tree)
    requires r in InsertByName(t, ts)
    ensures r == t || r in ts
  {
    assert r in multiset(InsertByName(t, ts));
  }

  lemma {:induction false} InsertIsSorted(t: Tree, ts: seq<Tree>)
    requires Sorted(ts)
    requires forall i :: 0 <= i < |ts| ==> ts[i].node.Name() != t.node.Name()
    ensures Sorted(InsertByName(t, ts))
  {
    hide Less;
    if ts != [] {
      if Less(ts[0].node.Name(), t.node.Name()) {
        InsertIsSorted(t, ts[1..]);
        var rest := InsertByName(t, ts[1..]);
        forall j | 0 <= j < |rest|
          ensures Less(ts[0].node.Name(), rest[j].node.Name())
        {
          InsertedFrom(t, ts[1..], rest[j]);
        }
      } else {
        LessTotal(t.node.Name(), ts[0].node.Name());
        forall j | 0 <= j < |ts|
          ensures Less(t.node.Name(), ts[j].node.Name())
        {
          if j > 0 { LessTransitive(t.node.Name(), ts[0].node.Name(), ts[j].node.Name()); }
        }
      }
    }
  }

  lemma {:induction false} SortIsSorted(ts: seq<Tree>)
    requires DistinctNames(ts)
    ensures Sorted(SortByName(ts))
  {
    if ts != [] {
      SortIsSorted(ts[1..]);
      var rest := SortByName(ts[1..]);
      forall i | 0 <= i < |rest|
        ensures rest[i].node.Name() != ts[0].node.Name()
      {
        assert rest[i] in multiset(ts[1..]);
        var m :| 0 <= m < |ts[1..]| && ts[1..][m] == rest[i];
        assert ts[m + 1] == rest[i];
      }
      InsertIsSorted(ts[0], rest);
    }
  }

  lemma SortedIsDistinct(ts: seq<Tree>)
    requires Sorted(ts)
    ensures DistinctNames(ts)
  {
    forall i, j | 0 <= i < j < |ts|
      ensures ts[i].node.Name() != ts[j].node.Name()
    {
      LessIrreflexive(ts[i].node.Name());
    }
  }

  /** Every sorted child is one of the children. */
  lemma SortedFrom(ts: seq<Tree>, i: nat) returns (j: nat)
    requires i < |ts|
    ensures j < |ts| && SortByName(ts)[i] == ts[j]
  {
    assert SortByName(ts)[i] in multiset(SortByName(ts));
    assert SortByName(ts)[i] in ts;
    j :| 0 <= j < |ts| && ts[j] == SortByName(ts)[i];
  }

  /** Every child is one of the sorted children. */
  lemma SortedTo(ts: seq<Tree>, j: nat) returns (i: nat)
    requires j < |ts|
    ensures i < |ts| && SortByName(ts)[i] == ts[j]
  {
    assert ts[j] in multiset(ts);
    assert ts[j] in SortByName(ts);
    i :| 0 <= i < |ts| && SortByName(ts)[i] == ts[j];
  }

  // ----- the sorted tree of files, without builder bookkeeping -----

  datatype FileTree = FileTree(file: File, children: seq<FileTree>)

  function FileSize(f: FileTree): (n: nat)
    ensures n > 0
  {
    1 + FileSizeAll(f.children)
  }

  function FileSizeAll(fs: seq<FileTree>): (n: nat)
    ensures n >= |fs|
  {
    if fs == [] then 0 else FileSize(fs[0]) + FileSizeAll(fs[1..])
  }

  /** The tree with siblings sorted by name and, if `split`, large files re-split. */
  function Canon(t: Tree, split: bool): (f: FileTree)
    ensures FileSize(f) == Size(t)
    decreases Size(t), 0
  {
    FileTree(FileOf(if split then Resplit(t.node) else t.node), CanonAll(SortByName(t.children), split))
  }

  function CanonAll(ts: seq<Tree>, split: bool): (fs: seq<FileTree>)
    ensures |fs| == |ts|
    ensures FileSizeAll(fs) == SizeAll(ts)
    decreases SizeAll(ts), 1
  {
    if ts == [] then []
    else
      var rest := CanonAll(ts[1..], split);
      assert ([Canon(ts[0], split)] + rest)[1..] == rest;
      [Canon(ts[0], split)] + rest
  }

  lemma {:induction false} CanonAllAt(ts: seq<Tree>, split: bool, i: nat)
    requires i < |ts|
    ensures CanonAll(ts, split)[i] == Canon(ts[i], split)
  {
    if i > 0 { CanonAllAt(ts[1..], split, i - 1); }
  }
}
