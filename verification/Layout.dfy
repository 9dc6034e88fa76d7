/** Consequences of the array layout: every file sits in it exactly once, below its parent, in name order. */
module Layout {
  import opened Bytes
  import opened Nodes
  import opened Trees
  import opened Flatten

  function FileName(f: File): Name {
    if f.path == [] then ROOT_NAME else f.path[|f.path| - 1]
  }

  /** Siblings strictly increase by name, children extend their directory's path, and only directories have any. */
  ghost predicate Ordered(f: FileTree) {
    && (!f.file.kind.Dir? ==> f.children == [])
    && (forall i, j :: 0 <= i < j < |f.children| ==> Less(FileName(f.children[i].file), FileName(f.children[j].file)))
    && (forall i :: 0 <= i < |f.children| ==>
          f.children[i].file.path == f.file.path + [FileName(f.children[i].file)] && Ordered(f.children[i]))
  }

  lemma CanonParts(t: Tree, split: bool)
    ensures var f, ts := Canon(t, split), SortByName(t.children);
            && f.children == CanonAll(ts, split) && f.file.path == t.node.path && f.file.kind == t.node.inode.kind
            && FileName(f.file) == t.node.Name()
  {
    hide SortByName, CanonAll;
  }

  /** A well-formed tree is in order once its siblings are sorted. */
  lemma {:induction false} CanonIsOrdered(t: Tree, split: bool)
    requires WellFormed(t)
    ensures Ordered(Canon(t, split))
    decreases Size(t)
  {
    hide SortByName, Canon, CanonAll, SizeAll, FileName;
    var f, ts := Canon(t, split), SortByName(t.children);
    SortIsSorted(t.children);
    CanonParts(t, split);
    forall i | 0 <= i < |ts|
      ensures FileName(f.children[i].file) == ts[i].node.Name()
      ensures f.children[i].file.path == f.file.path + [FileName(f.children[i].file)] && Ordered(f.children[i])
    {
      var j := SortedFrom(t.children, i);
      CanonAllAt(ts, split, i);
      SizeAt(ts, i);
      CanonParts(ts[i], split);
      CanonIsOrdered(ts[i], split);
    }
  }

  lemma {:induction false} SizeAt(ts: seq<Tree>, i: nat)
    requires i < |ts|
    ensures Size(ts[i]) <= SizeAll(ts)
  {
    if i > 0 { SizeAt(ts[1..], i - 1); }
  }

  // ----- where the children of a represented directory are -----

  /** Where the descendants of the `i`-th of the trees `fs` start, if those of the first start at `base`. */
  function KidBase(fs: seq<FileTree>, base: nat, i: nat): nat
    requires i <= |fs|
  {
    if i == 0 then base else KidBase(fs[1..], base + FileSizeAll(fs[0].children), i - 1)
  }

  lemma {:induction false} RepKid(a: seq<Node>, k: nat, fs: seq<FileTree>, pos: nat, base: nat, i: nat)
    requires RepKids(a, k, fs, pos, base) && i < |fs|
    ensures k < pos + i < |a| && a[pos + i].inode.parent == a[k].inode.ino
    ensures Rep(a, pos + i, fs[i], KidBase(fs, base, i))
    decreases i
  {
    if i > 0 {
      RepKid(a, k, fs[1..], pos + 1, base + FileSizeAll(fs[0].children), i - 1);
    }
  }

  // ----- every file exactly once -----

  /** The files of a tree in preorder, and the positions that hold them. */
  function Preorder(f: FileTree): seq<File>
    decreases f, 0
  {
    [f.file] + PreorderAll(f.children)
  }

  function PreorderAll(fs: seq<FileTree>): seq<File>
    decreases fs, 1
  {
    if fs == [] then [] else Preorder(fs[0]) + PreorderAll(fs[1..])
  }

  function Positions(f: FileTree, k: nat, base: nat): seq<nat>
    decreases f, 0
  {
    [k] + PositionsAll(f.children, base, base + |f.children|)
  }

  function PositionsAll(fs: seq<FileTree>, pos: nat, base: nat): seq<nat>
    decreases fs, 1
  {
    if fs == [] then []
    else Positions(fs[0], pos, base) + PositionsAll(fs[1..], pos + 1, base + FileSizeAll(fs[0].children))
  }

  function Count(s: seq<nat>, x: nat): nat {
    multiset(s)[x]
  }

  function Within(x: nat, lo: nat, hi: nat): nat {
    if lo <= x < hi then 1 else 0
  }

  /** The positions of a tree laid out from `base` are its root's and the whole descendants block, each once. */
  lemma {:induction false} PositionsOnce(f: FileTree, k: nat, base: nat, x: nat)
    requires k < base
    ensures Count(Positions(f, k, base), x) == Within(x, k, k + 1) + Within(x, base, base + FileSizeAll(f.children))
    decreases f, 0
  {
    PositionsAllOnce(f.children, base, base + |f.children|, x);
  }

  lemma {:induction false} PositionsAllOnce(fs: seq<FileTree>, pos: nat, base: nat, x: nat)
    requires pos + |fs| <= base
    ensures Count(PositionsAll(fs, pos, base), x)
            == Within(x, pos, pos + |fs|) + Within(x, base, base + FileSizeAll(fs) - |fs|)
    decreases fs, 1
  {
    hide Count, Positions;
    if fs == [] {
      CountNone(x);
    } else {
      var next := base + FileSizeAll(fs[0].children);
      PositionsOnce(fs[0], pos, base, x);
      PositionsAllOnce(fs[1..], pos + 1, next, x);
      CountAppend(Positions(fs[0], pos, base), PositionsAll(fs[1..], pos + 1, next), x);
    }
  }

  lemma CountNone(x: nat)
    ensures Count([], x) == 0
  {
  }

  lemma CountAppend(s: seq<nat>, t: seq<nat>, x: nat)
    ensures Count(s + t, x) == Count(s, x) + Count(t, x)
  {
  }

  /** The array holds the files of the tree in those positions. */
  lemma {:induction false} FilesAtPositions(a: seq<Node>, k: nat, f: FileTree, base: nat)
    requires Rep(a, k, f, base)
    ensures |Positions(f, k, base)| == |Preorder(f)|
    ensures forall i :: 0 <= i < |Preorder(f)| ==>
              Positions(f, k, base)[i] < |a| && FileOf(a[Positions(f, k, base)[i]]) == Preorder(f)[i]
    decreases f, 0
  {
    AllFilesAtPositions(a, k, f.children, base, base + |f.children|);
  }

  lemma {:induction false} AllFilesAtPositions(a: seq<Node>, k: nat, fs: seq<FileTree>, pos: nat, base: nat)
    requires RepKids(a, k, fs, pos, base)
    ensures |PositionsAll(fs, pos, base)| == |PreorderAll(fs)|
    ensures forall i :: 0 <= i < |PreorderAll(fs)| ==>
              PositionsAll(fs, pos, base)[i] < |a| && FileOf(a[PositionsAll(fs, pos, base)[i]]) == PreorderAll(fs)[i]
    decreases fs, 1
  {
    if fs != [] {
      FilesAtPositions(a, pos, fs[0], base);
      AllFilesAtPositions(a, k, fs[1..], pos + 1, base + FileSizeAll(fs[0].children));
    }
  }

  // ----- what holds of every position -----

  /** Position `q` holds a child of an earlier directory, inside that directory's child range, under its path; and if
      it is itself a directory, its child range is inside the array, after it. */
  ghost predicate WellPlaced(a: seq<Node>, q: nat) {
    q < |a| && var p := a[q].inode.parent - 1;
    && 0 <= p < q && a[p].IsDir()
    && a[p].inode.childIndex <= q + 1 < a[p].inode.childIndex + a[p].inode.childCount
    && a[q].path == a[p].path + [a[q].Name()]
    && GoodRange(a, q)
  }

  ghost predicate NamesIncrease(a: seq<Node>, lo: nat, hi: nat) {
    hi <= |a| && forall i, j :: lo <= i < j < hi ==> Less(a[i].Name(), a[j].Name())
  }

  ghost predicate ParentIs(a: seq<Node>, lo: nat, hi: nat, ino: nat) {
    hi <= |a| && forall i :: lo <= i < hi ==> a[i].inode.parent == ino
  }

  /** The directories among the positions `lo .. hi`. */
  ghost function Subdirs(a: seq<Node>, lo: int, hi: int): set<int> {
    set c | lo <= c < hi && 0 <= c < |a| && a[c].IsDir()
  }

  ghost predicate GoodRange(a: seq<Node>, q: nat) {
    && q < |a|
    && (a[q].IsDir() ==>
          && q + 1 < a[q].inode.childIndex
          && a[q].inode.childIndex - 1 + a[q].inode.childCount <= |a|
          && 2 <= a[q].inode.nlink <= 2 + a[q].inode.childCount
          && a[q].inode.nlink
             == 2 + |Subdirs(a, a[q].inode.childIndex - 1, a[q].inode.childIndex - 1 + a[q].inode.childCount)|
          && NamesIncrease(a, a[q].inode.childIndex - 1, a[q].inode.childIndex - 1 + a[q].inode.childCount)
          && ParentIs(a, a[q].inode.childIndex - 1, a[q].inode.childIndex - 1 + a[q].inode.childCount, a[q].inode.ino))
    && (!a[q].IsDir() ==> a[q].inode.childCount == |a[q].chunks|)
  }

  /** Every position of the descendants block is well placed. */
  lemma {:induction false} BlockWellPlaced(a: seq<Node>, k: nat, f: FileTree, base: nat)
    requires Rep(a, k, f, base) && Ordered(f)
    requires forall q :: 0 <= q < |a| && a[q].IsDir() ==> a[q].inode.ino == q + 1
    ensures GoodRange(a, k)
    ensures forall q :: base <= q < base + FileSizeAll(f.children) ==> WellPlaced(a, q)
    decreases f, 0
  {
    hide WellPlaced, GoodRange;
    assert GoodRange(a, k) by { RepGoodRange(a, k, f, base); }
    if f.file.kind.Dir? {
      KidsWellPlaced(a, k, f.children, base, base + |f.children|);
    }
  }

  lemma RepGoodRange(a: seq<Node>, k: nat, f: FileTree, base: nat)
    requires Rep(a, k, f, base) && Ordered(f)
    ensures GoodRange(a, k)
  {
    hide RepKids, Less, Subdirs;
    DirsAreFew(f.children);
    DirsCounted(a, k, f.children, base, base + |f.children|);
    assert FileOf(a[k]).chunks == f.file.chunks && FileOf(a[k]).kind == f.file.kind;
    forall i, j | base <= i < j < base + |f.children|
      ensures Less(a[i].Name(), a[j].Name())
    {
      KidName(a, k, f.children, base, base + |f.children|, i - base);
      KidName(a, k, f.children, base, base + |f.children|, j - base);
    }
    forall i | base <= i < base + |f.children|
      ensures a[i].inode.parent == a[k].inode.ino
    {
      RepKid(a, k, f.children, base, base + |f.children|, i - base);
    }
  }

  /** The directories among children that stand side by side are counted. */
  lemma {:induction false} DirsCounted(a: seq<Node>, k: nat, fs: seq<FileTree>, pos: nat, base: nat)
    requires RepKids(a, k, fs, pos, base)
    ensures |Subdirs(a, pos, pos + |fs|)| == CountDirs(fs)
    decreases fs
  {
    hide Rep;
    if fs != [] {
      KidName(a, k, fs, pos, base, 0);
      DirsCounted(a, k, fs[1..], pos + 1, base + FileSizeAll(fs[0].children));
      var rest := Subdirs(a, pos + 1, pos + |fs|);
      assert FileOf(a[pos]).kind == a[pos].inode.kind;
      assert Subdirs(a, pos, pos + |fs|) == if a[pos].IsDir() then rest + {pos} else rest;
    } else {
      assert Subdirs(a, pos, pos) == {};
    }
  }

  lemma {:induction false} DirsAreFew(fs: seq<FileTree>)
    ensures CountDirs(fs) <= |fs|
  {
    if fs != [] { DirsAreFew(fs[1..]); }
  }

  lemma KidName(a: seq<Node>, k: nat, fs: seq<FileTree>, pos: nat, base: nat, i: nat)
    requires RepKids(a, k, fs, pos, base) && i < |fs|
    ensures pos + i < |a| && FileOf(a[pos + i]) == fs[i].file && a[pos + i].Name() == FileName(fs[i].file)
  {
    RepKid(a, k, fs, pos, base, i);
    assert FileOf(a[pos + i]).path == a[pos + i].path;
  }

  lemma {:induction false} KidsWellPlaced(a: seq<Node>, k: nat, fs: seq<FileTree>, pos: nat, base: nat)
    requires RepKids(a, k, fs, pos, base) && forall i :: 0 <= i < |fs| ==> Ordered(fs[i])
    requires k < |a| && a[k].IsDir() && a[k].inode.ino == k + 1
    requires a[k].inode.childIndex <= pos + 1 && pos + |fs| + 1 <= a[k].inode.childIndex + a[k].inode.childCount
    requires pos + |fs| <= base && pos + |fs| <= |a|
    requires forall i :: 0 <= i < |fs| ==> fs[i].file.path == a[k].path + [FileName(fs[i].file)]
    requires forall q :: 0 <= q < |a| && a[q].IsDir() ==> a[q].inode.ino == q + 1
    ensures forall q :: pos <= q < pos + |fs| || base <= q < base + FileSizeAll(fs) - |fs| ==> WellPlaced(a, q)
    decreases fs, 1
  {
    if fs != [] {
      BlockWellPlaced(a, pos, fs[0], base);
      assert FileOf(a[pos]) == fs[0].file;
      assert WellPlaced(a, pos);
      KidsWellPlaced(a, k, fs[1..], pos + 1, base + FileSizeAll(fs[0].children));
    }
  }
}
