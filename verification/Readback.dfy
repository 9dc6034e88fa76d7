/** Reading a built image back: its soundness, lookup by path, and paths from inode numbers. */
module Readback {
  import opened Wrappers
  import opened Bytes
  import opened Nodes
  import opened Trees
  import opened Flatten
  import opened Layout
  import opened Direct

  /** The node array of an image without hard links that lays out the tree `f`. */
  ghost predicate Image(a: seq<Node>, f: FileTree) {
    && Rep(a, 0, f, 1) && Ordered(f)
    && f.file.path == [] && f.file.kind.Dir?
    && |a| == FileSize(f) < 0x4000_0000
    && a[0].inode.parent == 0
    && (forall q :: 0 <= q < |a| ==>
          && a[q].inode.ino == q + 1
          && a[q].inode.nlink >= 1
          && (!a[q].IsDir() ==> a[q].inode.nlink == 1)
          && a[q].inode.nameSize == |a[q].Name()| <= MAX_NAME + 1)
  }

  /** Every position other than the root's is well placed. */
  lemma ImageWellPlaced(a: seq<Node>, f: FileTree)
    requires Image(a, f)
    ensures GoodRange(a, 0)
    ensures forall q :: 1 <= q < |a| ==> WellPlaced(a, q)
  {
    hide WellPlaced, GoodRange, Rep;
    BlockWellPlaced(a, 0, f, 1);
  }

  /** The memory-mapped driver accepts every inode of a built image, and can search every directory. */
  lemma ImageIsSound(a: seq<Node>, f: FileTree)
    requires Image(a, f)
    ensures Mapping(Views(a)).Sound() && Mapping(Views(a)).ParentsFirst()
  {
    hide Rep, Less;
    ImageWellPlaced(a, f);
    var m := Mapping(Views(a));
    forall q | 0 <= q < |a|
      ensures ValidInode(m.entries[q].inode, |m.entries|) && GoodRange(a, q)
      ensures q > 0 ==> 1 <= m.entries[q].inode.parent <= q
    {
      assert q > 0 ==> WellPlaced(a, q);
    }
    forall q | 0 <= q < |a|
      ensures m.Searchable(q)
    {
      assert GoodRange(a, q);
    }
  }

  // ----- lookup by path -----

  /** The first of the trees whose root has the given name. */
  function ChildFile(fs: seq<FileTree>, name: Name): (r: Option<nat>)
    ensures r.Some? ==> r.value < |fs| && FileName(fs[r.value].file) == name
    ensures r.Some? ==> forall i :: 0 <= i < r.value ==> FileName(fs[i].file) != name
    ensures r.None? ==> forall i :: 0 <= i < |fs| ==> FileName(fs[i].file) != name
  {
    if fs == [] then None
    else if FileName(fs[0].file) == name then Some(0)
    else match ChildFile(fs[1..], name)
         case Some(i) =>
           assert forall j :: 1 <= j < i + 1 ==> fs[j] == fs[1..][j - 1];
           Some(i + 1)
         case None =>
           assert forall j :: 1 <= j < |fs| ==> fs[j] == fs[1..][j - 1];
           None
  }

  /** The file at the path `p` below `f`. */
  function FindFile(f: FileTree, p: Path): Option<FileTree>
    decreases |p|
  {
    if p == [] then Some(f)
    else match ChildFile(f.children, p[0])
         case Some(i) => FindFile(f.children[i], p[1..])
         case None => None
  }

  lemma KindAt(n: Node, f: File)
    requires FileOf(n) == f
    ensures n.inode.kind == f.kind && n.path == f.path && n.chunks == f.chunks
  {
  }

  /** The children's names stand in the mapping where the tree's order puts them. */
  lemma ChildNames(a: seq<Node>, f: FileTree, k: nat, g: FileTree, base: nat)
    requires Image(a, f) && Rep(a, k, g, base)
    ensures base + |g.children| <= |a| || g.children == []
    ensures forall j :: 0 <= j < |g.children| ==> Views(a)[base + j].name == FileName(g.children[j].file)
  {
    hide RepKids, FileName, FileOf, GoodRange, Ordered;
    forall j | 0 <= j < |g.children|
      ensures base + j < |a| && Views(a)[base + j].name == FileName(g.children[j].file)
    {
      KidName(a, k, g.children, base, base + |g.children|, j);
    }
    if g.children != [] { KidName(a, k, g.children, base, base + |g.children|, |g.children| - 1); }
  }

  /** Linear search by name, in the mapping and in the list of files. */
  lemma SameSearch(es: seq<Entry>, fs: seq<FileTree>, base: nat, name: Name)
    requires base + |fs| <= |es| && forall j :: 0 <= j < |fs| ==> es[base + j].name == FileName(fs[j].file)
    ensures FirstNamed(es, base, base + |fs|, name)
            == match ChildFile(fs, name)
               case Some(i) => Ok(base + i)
               case None => Err(Enoent)
  {
    hide FileName;
    var found := ChildFile(fs, name);
    var to := match found case Some(i) => i case None => |fs|;
    forall j | base <= j < base + to
      ensures es[j].name != name
    {
      assert es[base + (j - base)].name == FileName(fs[j - base].file);
    }
    match found {
      case Some(i) => FirstNamedIs(es, base, base + |fs|, name, base + i);
      case None => FirstNamedNone(es, base, base + |fs|, name);
    }
  }

  /** Linear search among the children finds the position of the child of that name. */
  lemma ChildIsFound(a: seq<Node>, f: FileTree, k: nat, g: FileTree, base: nat, name: Name)
    requires Image(a, f) && Rep(a, k, g, base) && Ordered(g)
    ensures Mapping(Views(a)).ChildSpec(k, name)
            == match ChildFile(g.children, name)
               case Some(i) => Ok(base + i)
               case None => (if g.file.kind.Dir? then Err(Enoent) else Err(Einval))
  {
    hide Less, RepKids, Ordered, FileName, FileOf, GoodRange, FirstNamed, Image;
    KindAt(a[k], g.file);
    ChildNames(a, f, k, g, base);
    if g.children != [] { SameSearch(Views(a), g.children, base, name); }
  }

  /** Resolving a path from the position of `g` ends at the file that `FindFile` names, or finds nothing when there is
      none. */
  lemma {:induction false} ResolveFinds(a: seq<Node>, f: FileTree, k: nat, g: FileTree, base: nat,
      p: Path) returns (q: nat, b: nat)
    requires Image(a, f) && Rep(a, k, g, base) && Ordered(g)
    ensures var m := Mapping(Views(a));
            match FindFile(g, p)
            case Some(h) => m.Resolve(k, p) == Ok(q) && Rep(a, q, h, b) && Ordered(h) && h.file.path == g.file.path + p
            case None => m.Resolve(k, p) == Err(Enoent)
    decreases |p|
  {
    hide Image, Rep, Ordered, Mapping.Resolve, Mapping.ChildSpec, FindFile;
    q, b := k, base;
    if p == [] {
      ResolveHere(a, k, g, base);
    } else {
      ResolveStep(a, f, k, g, base, p);
      match ChildFile(g.children, p[0]) {
        case Some(i) =>
          q, b := ResolveFinds(a, f, base + i, g.children[i], KidBase(g.children, base + |g.children|, i), p[1..]);
          assert g.file.path + p == (g.file.path + [p[0]]) + p[1..];
        case None =>
      }
    }
  }

  lemma ResolveHere(a: seq<Node>, k: nat, g: FileTree, base: nat)
    requires Rep(a, k, g, base)
    ensures Mapping(Views(a)).Resolve(k, []) == Ok(k) && FindFile(g, []) == Some(g) && g.file.path + [] == g.file.path
  {
  }

  /** One component down, in the mapping and in the tree. */
  lemma ResolveStep(a: seq<Node>, f: FileTree, k: nat, g: FileTree, base: nat, p: Path)
    requires Image(a, f) && Rep(a, k, g, base) && Ordered(g) && p != []
    ensures var m := Mapping(Views(a));
            match ChildFile(g.children, p[0])
            case Some(i) =>
              && FindFile(g, p) == FindFile(g.children[i], p[1..])
              && base + i < |a| && m.Resolve(k, p) == m.Resolve(base + i, p[1..])
              && Rep(a, base + i, g.children[i], KidBase(g.children, base + |g.children|, i)) && Ordered(g.children[i])
              && g.children[i].file.path == g.file.path + [p[0]]
            case None => FindFile(g, p) == None && m.Resolve(k, p) == Err(Enoent)
  {
    hide Image, Less, RepKids, Mapping.ChildSpec;
    ChildIsFound(a, f, k, g, base, p[0]);
    match ChildFile(g.children, p[0]) {
      case Some(i) => RepKid(a, k, g.children, base, base + |g.children|, i);
      case None =>
    }
  }

  /** `ino_from_path` on a built image: the number of the inode that holds the file at that path. */
  lemma LookupFinds(a: seq<Node>, f: FileTree, p: Path) returns (q: nat)
    requires Image(a, f)
    ensures var m := Mapping(Views(a));
            match FindFile(f, p)
            case Some(h) =>
              q < |a| && m.InoFromPathSpec(true, p) == Ok(q + 1) && FileOf(a[q]) == h.file && a[q].path == p
                  && GoodRange(a, q)
            case None => m.InoFromPathSpec(true, p) == Err(Enoent)
  {
    hide RepKids, Less, Mapping.Resolve;
    var b;
    q, b := ResolveFinds(a, f, 0, f, 1, p);
    if FindFile(f, p).Some? {
      assert FileOf(a[q]).path == a[q].path;
      RepGoodRange(a, q, FindFile(f, p).value, b);
    }
    assert FindFile(f, []) == Some(f);
  }

  // ----- paths from inode numbers -----

  /** The names on the way down to an inode of an image make up the path of its file. */
  lemma {:induction false} PathToIsPath(a: seq<Node>, f: FileTree, q: nat)
    requires Image(a, f) && q < |a|
    requires Mapping(Views(a)).ParentsFirst()
    ensures Mapping(Views(a)).PathTo(q) == a[q].path
    decreases q
  {
    hide Rep, Ordered;
    ImageWellPlaced(a, f);
    if q == 0 {
      assert FileOf(a[0]).path == f.file.path by { RootFile(a, f); }
    } else {
      assert WellPlaced(a, q);
      PathToIsPath(a, f, a[q].inode.parent - 1);
    }
  }

  lemma RootFile(a: seq<Node>, f: FileTree)
    requires Image(a, f)
    ensures FileOf(a[0]) == f.file
  {
  }

  /** `path_from_ino` inverts `ino_from_path`: an inode number reads as the path its file was built for, which leads
      back to that number. */
  lemma {:induction false} PathRoundTrip(a: seq<Node>, f: FileTree, q: nat)
    requires Image(a, f) && q < |a|
    ensures var m := Mapping(Views(a));
            && m.ParentsFirst() && m.PathTo(q) == a[q].path
            && m.Resolve(0, m.PathTo(q)) == Ok(q) && m.InoFromPathSpec(true, m.PathTo(q)) == Ok(q + 1)
    decreases q
  {
    hide Rep, Ordered, Mapping.Sound, Mapping.ChildSpec, GoodRange;
    ImageIsSound(a, f);
    PathToIsPath(a, f, q);
    ImageWellPlaced(a, f);
    if q > 0 {
      assert WellPlaced(a, q);
      var m, p := Mapping(Views(a)), a[q].inode.parent - 1;
      assert p > 0 ==> WellPlaced(a, p);
      PathRoundTrip(a, f, p);
      ChildHasItsName(a, p, q);
      ResolveAppend(m, 0, m.PathTo(p), m.entries[q].name);
    }
  }

  lemma ChildHasItsName(a: seq<Node>, p: nat, q: nat)
    requires p < q < |a| && GoodRange(a, p) && a[p].IsDir()
    requires a[p].inode.childIndex <= q + 1 < a[p].inode.childIndex + a[p].inode.childCount
    ensures Mapping(Views(a)).ChildSpec(p, a[q].Name()) == Ok(q)
  {
    hide Less;
    var m := Mapping(Views(a));
    forall j | a[p].inode.childIndex - 1 <= j < q
      ensures m.entries[j].name != m.entries[q].name
    {
      LessIrreflexive(a[q].Name());
      assert Less(a[j].Name(), a[q].Name());
    }
    FirstNamedIs(m.entries, a[p].inode.childIndex - 1, a[p].inode.childIndex - 1 + a[p].inode.childCount,
        a[q].Name(), q);
  }

  lemma {:induction false} ResolveAppend(m: Mapping, pos: nat, path: Path, name: Name)
    requires pos < |m.entries|
    ensures m.Resolve(pos, path + [name])
            == match m.Resolve(pos, path)
               case Ok(q) => m.Resolve(q, [name])
               case Err(e) => Err(e)
    decreases |path|
  {
    hide Mapping.ChildSpec;
    if path == [] {
      assert path + [name] == [name];
    } else {
      assert (path + [name])[1..] == path[1..] + [name];
      match m.ChildSpec(pos, path[0]) {
        case Ok(child) => if child < |m.entries| { ResolveAppend(m, child, path[1..], name); }
        case Err(_) =>
      }
    }
  }
}
