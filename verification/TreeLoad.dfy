/** Loading an image back into a builder's tree through the mapped driver, which checks the digest of every inode it
    hands out. */
module TreeLoad {
  import opened Wrappers
  import opened Bytes
  import opened Nodes
  import opened Trees
  import opened Flatten
  import opened Layout
  import opened Direct
  import opened Readback
  import opened Digest

  // ----- fetching with a digest check -----

  /** `get_inode` of the mapped driver: the inode is validated and, if asked for, its digest is checked against its
      children's. */
  method FetchInode(m: Mapping, ino: nat, digestValidate: bool, h: Hash, ghost a: seq<Node>) returns (r: Result<nat>)
    requires digestValidate ==> DirsOwnNumber(m)
    ensures r.Ok? ==> r == m.GetInode(ino)
    ensures !digestValidate ==> r == m.GetInode(ino)
    ensures ImageOf(m, a) && 1 <= ino <= |a| ==>
              r == if digestValidate && !Accepts(a, ino - 1, false, h) then Err(Einval) else Ok(ino - 1)
  {
    hide ValidInode, Accepts, DirsOwnNumber, ImageOf;
    if ImageOf(m, a) && 1 <= ino <= |a| { PositionIsRead(m, a, ino); }
    var pos :- m.GetInode(ino);
    if digestValidate {
      FetchedIsValid(m, ino);
      var accepted :- DigestValidate(m, pos, false, h, a);
      if !accepted {
        return Err(Einval);
      }
    }
    r := Ok(pos);
  }

  lemma FetchedIsValid(m: Mapping, ino: nat)
    requires m.GetInode(ino).Ok?
    ensures ino >= 1 && m.GetInode(ino).value == ino - 1 < |m.entries|
    ensures ValidInode(m.entries[ino - 1].inode, |m.entries|)
  {
  }

  lemma PositionIsRead(m: Mapping, a: seq<Node>, ino: nat)
    requires ImageOf(m, a) && 1 <= ino <= |a|
    ensures m.GetInode(ino) == Ok(ino - 1) && |m.entries| == |a| && m.entries[ino - 1] == View(a[ino - 1])
  {
    hide Readable;
    ReadableAt(a, ino - 1);
  }

  /** `ino_from_path` with the driver's own setting for the root's digest. */
  method InoFromPath(m: Mapping, absolute: bool, path: Path, digestValidate: bool, h: Hash,
      ghost a: seq<Node>) returns (r: Result<nat>)
    requires m.Sound() && (digestValidate ==> DirsOwnNumber(m))
    ensures !digestValidate ==> r == m.InoFromPathSpec(absolute, path)
    ensures ImageOf(m, a) ==>
              r == if absolute && path != [] && digestValidate && !Accepts(a, 0, false, h) then Err(Einval)
                   else m.InoFromPathSpec(absolute, path)
  {
    hide ValidInode, Accepts, Readable, Mapping.Resolve, DirsOwnNumber;
    if absolute && path == [] {
      return Ok(ROOT_INO);
    }
    if !absolute {
      return Err(Einval);
    }
    RootIsRead(m);
    if ImageOf(m, a) { ReadableHasRoot(a); }
    var parent :- FetchInode(m, ROOT_INO, digestValidate, h, a);
    var pos :- m.WalkDown(parent, path);
    r := Ok(m.entries[pos].inode.ino);
  }

  lemma RootIsRead(m: Mapping)
    requires m.Sound()
    ensures m.GetInode(ROOT_INO) == Ok(0)
  {
    assert m.Searchable(0);
  }

  // ----- rebuilding the tree -----

  /** `parse_node`: a loaded inode as a builder node of the lower layer. */
  function ParseNode(e: Entry, path: Path): Node {
    Node(0, e.inode.ino, U64 - 1, Lower, path, e.inode,
         if e.inode.kind.Reg? then e.chunks else [],
         if e.inode.kind.Symlink? then e.symlink else None,
         e.xattrs)
  }

  /** The trees at positions `lo .. hi`, as children of the directory at `path`. */
  function LoadRange(a: seq<Node>, lo: nat, hi: nat, path: Path): seq<Tree>
    requires Readable(a) && hi <= |a|
    decreases |a| - lo
  {
    if lo >= hi then []
    else
      ReadableAt(a, lo);
      var childPath := path + [a[lo].Name()];
      [Tree(ParseNode(View(a[lo]), childPath),
            if a[lo].IsDir() then
              LoadRange(a, a[lo].inode.childIndex - 1, a[lo].inode.childIndex - 1 + a[lo].inode.childCount, childPath)
            else [])]
      + LoadRange(a, lo + 1, hi, path)
  }

  /** The children of position `pos`, whose own path is `path`. */
  function Below(a: seq<Node>, pos: nat, path: Path): seq<Tree>
    requires Readable(a) && pos < |a|
  {
    ReadableAt(a, pos);
    if a[pos].IsDir() then
      LoadRange(a, a[pos].inode.childIndex - 1, a[pos].inode.childIndex - 1 + a[pos].inode.childCount, path)
    else []
  }

  /** The tree of the whole image. */
  function LoadedTree(a: seq<Node>): Tree
    requires Readable(a)
  {
    ReadableHasRoot(a);
    Tree(ParseNode(View(a[0]), []), Below(a, 0, []))
  }

  lemma LoadRangeStep(a: seq<Node>, lo: nat, hi: nat, path: Path)
    requires Readable(a) && lo < hi <= |a|
    ensures var childPath := path + [a[lo].Name()];
            LoadRange(a, lo, hi, path)
            == [Tree(ParseNode(View(a[lo]), childPath), Below(a, lo, childPath))] + LoadRange(a, lo + 1, hi, path)
  {
    hide Readable;
  }

  lemma LoadRangeEmpty(a: seq<Node>, pos: nat, path: Path)
    requires Readable(a) && pos <= |a|
    ensures LoadRange(a, pos, pos, path) == []
  {
    hide Readable;
  }

  /** The trees of positions `lo .. at` have been loaded, out of `lo .. hi`, and everything in them is accepted. */
  ghost predicate LoadedUpTo(m: Mapping, a: seq<Node>, lo: nat, at: nat, hi: nat, path: Path, h: Hash,
      children: seq<Tree>) {
    && ImageOf(m, a) && lo <= at <= hi <= |a|
    && children + LoadRange(a, at, hi, path) == LoadRange(a, lo, hi, path)
    && AllAccepted(a, lo, at, true, h)
  }

  lemma LoadStart(m: Mapping, a: seq<Node>, lo: nat, hi: nat, path: Path, h: Hash)
    requires ImageOf(m, a) && lo <= hi <= |a|
    ensures LoadedUpTo(m, a, lo, lo, hi, path, h, [])
  {
    hide Readable, LoadRange, Accepts;
    assert [] + LoadRange(a, lo, hi, path) == LoadRange(a, lo, hi, path);
  }

  lemma LoadNext(m: Mapping, a: seq<Node>, lo: nat, at: nat, hi: nat, path: Path, h: Hash, children: seq<Tree>)
    requires at < hi && LoadedUpTo(m, a, lo, at, hi, path, h, children) && Accepts(a, at, true, h)
    ensures var childPath := path + [a[at].Name()];
            LoadedUpTo(m, a, lo, at + 1, hi, path, h,
                       children + [Tree(ParseNode(View(a[at]), childPath), Below(a, at, childPath))])
  {
    hide Readable, LoadRange, ParseNode, Below, Accepts;
    LoadRangeStep(a, at, hi, path);
    var childPath := path + [a[at].Name()];
    var t := Tree(ParseNode(View(a[at]), childPath), Below(a, at, childPath));
    assert children + ([t] + LoadRange(a, at + 1, hi, path)) == (children + [t]) + LoadRange(a, at + 1, hi, path);
  }

  lemma LoadEnd(m: Mapping, a: seq<Node>, lo: nat, hi: nat, path: Path, h: Hash, children: seq<Tree>)
    requires LoadedUpTo(m, a, lo, hi, hi, path, h, children)
    ensures children == LoadRange(a, lo, hi, path) && AllAccepted(a, lo, hi, true, h)
  {
    hide Readable, LoadRange, AllAccepted;
    LoadRangeEmpty(a, hi, path);
    assert children + [] == children;
  }

  // ----- what the recursion accepts -----

  /** Accepted with all that lies below, which is accepted on its own and so are all children. */
  lemma {:induction false} AcceptedDeeply(a: seq<Node>, pos: nat, h: Hash)
    requires Readable(a) && pos < |a| && Accepts(a, pos, true, h)
    ensures Accepts(a, pos, false, h)
    decreases |a| - pos
  {
    hide Readable, GoodRange, ValidInode, DigestMatches;
    ReadableAt(a, pos);
    if a[pos].IsDir() {
      var lo, hi := a[pos].inode.childIndex - 1, a[pos].inode.childIndex - 1 + a[pos].inode.childCount;
      forall c | lo <= c < hi && !a[c].IsDir()
        ensures Accepts(a, c, false, h)
      {
        AcceptedDeeply(a, c, h);
      }
    }
  }

  /** The range of children of a directory. */
  lemma RangeOf(a: seq<Node>, pos: nat)
    requires Readable(a) && pos < |a| && a[pos].IsDir()
    ensures var lo, hi := a[pos].inode.childIndex - 1, a[pos].inode.childIndex - 1 + a[pos].inode.childCount;
            pos < lo <= hi <= |a| && a[pos].inode.ino == pos + 1
  {
    hide Readable;
    ReadableAt(a, pos);
  }

  /** A directory is accepted with all below exactly when it is on its own and its children are with all below. */
  lemma AcceptedByParts(a: seq<Node>, pos: nat, h: Hash)
    requires Readable(a) && pos < |a| && a[pos].IsDir()
    ensures var lo, hi := a[pos].inode.childIndex - 1, a[pos].inode.childIndex - 1 + a[pos].inode.childCount;
            && 0 <= lo <= hi <= |a|
            && (Accepts(a, pos, true, h) <==> Accepts(a, pos, false, h) && AllAccepted(a, lo, hi, true, h))
  {
    hide Readable, GoodRange, ValidInode, DigestMatches;
    ReadableAt(a, pos);
    if Accepts(a, pos, true, h) { AcceptedDeeply(a, pos, h); }
  }

  lemma LeafAccepted(a: seq<Node>, pos: nat, h: Hash)
    requires Readable(a) && pos < |a| && !a[pos].IsDir()
    ensures Accepts(a, pos, true, h) <==> Accepts(a, pos, false, h)
  {
    hide Readable, GoodRange, ValidInode, DigestMatches;
  }

  lemma ChildRefused(a: seq<Node>, pos: nat, c: nat, h: Hash)
    requires Readable(a) && pos < |a| && a[pos].IsDir()
    requires a[pos].inode.childIndex <= c + 1 < a[pos].inode.childIndex + a[pos].inode.childCount
    ensures c < |a| && (!Accepts(a, c, true, h) ==> !Accepts(a, pos, true, h))
    ensures c < |a| && (!Accepts(a, c, false, h) ==> !Accepts(a, pos, true, h))
  {
    hide Readable, Accepts;
    AcceptedByParts(a, pos, h);
    if Accepts(a, c, true, h) { AcceptedDeeply(a, c, h); }
  }

  lemma DirsPointAhead(m: Mapping, ino: nat)
    requires DirsOwnNumber(m) && m.GetInode(ino).Ok?
    ensures var e := m.entries[m.GetInode(ino).value]; e.inode.kind.Dir? ==> ino < e.inode.childIndex
  {
  }

  /** What loading the inode at `pos` gives: its children's trees if all that is fetched has its digest. */
  ghost function Outcome(a: seq<Node>, pos: nat, path: Path, h: Hash): Result<seq<Tree>>
    requires Readable(a) && pos < |a|
  {
    if Accepts(a, pos, true, h) then Ok(Below(a, pos, path)) else Err(Einval)
  }

  /** The path `load_children` works with, for an inode below `parent`, or for the root. */
  function PathBelow(parent: Option<Path>, name: Name): Path {
    if parent.Some? then parent.value + [name] else []
  }

  /** The inode at `pos` has been fetched from the image. */
  ghost predicate Entered(m: Mapping, a: seq<Node>, pos: nat, h: Hash) {
    ImageOf(m, a) && pos < |a| && Accepts(a, pos, false, h)
  }

  lemma EnteredMeans(m: Mapping, a: seq<Node>, pos: nat, h: Hash)
    requires pos < |m.entries|
    ensures Entered(m, a, pos, h) ==>
              && ImageOf(m, a) && |a| == |m.entries| && Accepts(a, pos, false, h)
              && a[pos].inode == m.entries[pos].inode
  {
    hide Readable, Accepts;
  }

  /** The loop of `load_children` over the child range of the directory at `pos`. */
  method LoadEach(m: Mapping, pos: nat, path: Path, h: Hash, ghost a: seq<Node>) returns (r: Result<seq<Tree>>)
    requires DirsOwnNumber(m) && pos < |m.entries| && m.entries[pos].inode.kind.Dir?
    requires m.entries[pos].inode.childIndex > pos + 1
    ensures Entered(m, a, pos, h) ==> r == Outcome(a, pos, path, h)
    decreases |m.entries| - pos, 0
  {
    hide ImageOf, Readable, Accepts, ParseNode, LoadRange, ValidInode, LoadedUpTo, DirsOwnNumber, AllAccepted, Entered,
        Mapping.GetInode;
    var inode := m.entries[pos].inode;
    ghost var sound := Entered(m, a, pos, h);
    ghost var lo, hi := inode.childIndex - 1, inode.childIndex - 1 + inode.childCount;
    var children := [];
    EnteredMeans(m, a, pos, h);
    if sound { LoadBegins(m, a, pos, path, h); }
    for idx := inode.childIndex to inode.childIndex + inode.childCount
      invariant sound ==> LoadedUpTo(m, a, lo, idx - 1, hi, path, h, children)
    {
      if sound { ChildToLoad(m, a, pos, idx, h); }
      var child :- FetchInode(m, idx, true, h, a);
      FetchedIsValid(m, idx);
      var childPath := path + [m.entries[child].name];
      var node := ParseNode(m.entries[child], childPath);
      var below :- LoadChildren(m, idx, Some(path), h, a);
      if sound { LoadNext(m, a, lo, idx - 1, hi, path, h, children); }
      children := children + [Tree(node, below)];
    }
    if sound {
      LoadEnd(m, a, lo, hi, path, h, children);
      LoadCompletes(m, a, pos, path, h);
    }
    r := Ok(children);
  }

  lemma LoadBegins(m: Mapping, a: seq<Node>, pos: nat, path: Path, h: Hash)
    requires ImageOf(m, a) && pos < |a| && a[pos].IsDir()
    ensures var lo, hi := a[pos].inode.childIndex - 1, a[pos].inode.childIndex - 1 + a[pos].inode.childCount;
            pos < lo <= hi <= |a| == |m.entries| && m.entries[pos] == View(a[pos])
            && LoadedUpTo(m, a, lo, lo, hi, path, h, [])
  {
    hide Readable, LoadedUpTo;
    RangeOf(a, pos);
    LoadStart(m, a, a[pos].inode.childIndex - 1, a[pos].inode.childIndex - 1 + a[pos].inode.childCount, path, h);
  }

  lemma LoadCompletes(m: Mapping, a: seq<Node>, pos: nat, path: Path, h: Hash)
    requires ImageOf(m, a) && pos < |a| && a[pos].IsDir() && Accepts(a, pos, false, h)
    requires var lo, hi := a[pos].inode.childIndex - 1, a[pos].inode.childIndex - 1 + a[pos].inode.childCount;
             0 <= lo <= hi <= |a| && AllAccepted(a, lo, hi, true, h)
    ensures Outcome(a, pos, path, h)
            == Ok(LoadRange(a, a[pos].inode.childIndex - 1, a[pos].inode.childIndex - 1 + a[pos].inode.childCount,
                path))
  {
    hide Readable, Accepts, AllAccepted;
    AcceptedByParts(a, pos, h);
  }

  /** The child numbered `idx` of a directory: what it is, and that the directory is refused if it is. */
  lemma ChildToLoad(m: Mapping, a: seq<Node>, pos: nat, idx: nat, h: Hash)
    requires ImageOf(m, a) && pos < |a| && a[pos].IsDir()
    requires a[pos].inode.childIndex <= idx < a[pos].inode.childIndex + a[pos].inode.childCount
    ensures 1 <= idx <= |a| && m.entries[idx - 1] == View(a[idx - 1])
    ensures !Accepts(a, idx - 1, true, h) ==> !Accepts(a, pos, true, h)
    ensures !Accepts(a, idx - 1, false, h) ==> !Accepts(a, pos, true, h)
  {
    hide Readable, Accepts;
    RangeOf(a, pos);
    ChildRefused(a, pos, idx - 1, h);
  }

  /** `load_children`, for the directory or file numbered `ino`; `parent` is the path of its parent, absent for the
      root. */
  method LoadChildren(m: Mapping, ino: nat, parent: Option<Path>, h: Hash,
      ghost a: seq<Node>) returns (r: Result<seq<Tree>>)
    requires DirsOwnNumber(m)
    ensures ImageOf(m, a) && 1 <= ino <= |a| ==>
              r == Outcome(a, ino - 1, PathBelow(parent, a[ino - 1].Name()), h)
    decreases |m.entries| + 1 - ino, 1
  {
    hide ImageOf, Readable, Accepts, LoadRange, ValidInode, DirsOwnNumber, Mapping.GetInode;
    ghost var sound := ImageOf(m, a) && 1 <= ino <= |a|;
    if sound { Loads(m, a, ino, h); }
    var pos :- FetchInode(m, ino, true, h, a);
    DirsPointAhead(m, ino);
    FetchedIsValid(m, ino);
    var e := m.entries[pos];
    var parentPath := PathBelow(parent, e.name);
    var children := [];
    if e.inode.kind.Dir? {
      children :- LoadEach(m, pos, parentPath, h, a);
    }
    r := Ok(children);
  }

  lemma Loads(m: Mapping, a: seq<Node>, ino: nat, h: Hash)
    requires ImageOf(m, a) && 1 <= ino <= |a|
    ensures |m.entries| == |a| && m.entries[ino - 1] == View(a[ino - 1])
    ensures !a[ino - 1].IsDir() ==> (Accepts(a, ino - 1, true, h) <==> Accepts(a, ino - 1, false, h))
    ensures Accepts(a, ino - 1, true, h) ==> Accepts(a, ino - 1, false, h)
  {
    hide Readable, Accepts;
    if !a[ino - 1].IsDir() { LeafAccepted(a, ino - 1, h); }
    if Accepts(a, ino - 1, true, h) { AcceptedDeeply(a, ino - 1, h); }
  }

  /** `Tree::from_bootstrap`, which loads the children twice: the tree of the image if the recursive digest check
      accepts its root, and an error otherwise. */
  method FromBootstrap(m: Mapping, h: Hash, ghost a: seq<Node>) returns (r: Result<Tree>)
    requires DirsOwnNumber(m)
    ensures ImageOf(m, a) ==> 0 < |a| && r == if Accepts(a, 0, true, h) then Ok(LoadedTree(a)) else Err(Einval)
  {
    hide ImageOf, Readable, Accepts, LoadRange, ValidInode, DirsOwnNumber, Mapping.GetInode;
    ghost var sound := ImageOf(m, a);
    if sound { RootLoads(m, a, h); }
    var root :- FetchInode(m, ROOT_INO, true, h, a);
    FetchedIsValid(m, ROOT_INO);
    var rootNode := ParseNode(m.entries[root], []);
    var _ :- LoadChildren(m, ROOT_INO, None, h, a);
    var children :- LoadChildren(m, ROOT_INO, None, h, a);
    r := Ok(Tree(rootNode, children));
  }

  lemma RootLoads(m: Mapping, a: seq<Node>, h: Hash)
    requires ImageOf(m, a)
    ensures Readable(a) && 0 < |a| == |m.entries| && m.entries[0] == View(a[0])
    ensures Accepts(a, 0, true, h) ==> Accepts(a, 0, false, h)
    ensures Accepts(a, 0, true, h) ==> Outcome(a, 0, [], h) == Ok(LoadedTree(a).children)
  {
    hide Readable, Accepts;
    ReadableHasRoot(a);
    Loads(m, a, 1, h);
  }

  // ----- the tree is the one that was built -----

  /** A loaded tree without bookkeeping, siblings as they come. */
  function Strip(t: Tree): FileTree
    decreases t, 0
  {
    FileTree(FileOf(t.node), StripAll(t.children))
  }

  function StripAll(ts: seq<Tree>): (fs: seq<FileTree>)
    ensures |fs| == |ts|
    decreases ts, 1
  {
    if ts == [] then [] else [Strip(ts[0])] + StripAll(ts[1..])
  }

  /** Only regular files have chunks, and only symbolic links a target. */
  ghost predicate Plain(f: File) {
    (!f.kind.Reg? ==> f.chunks == []) && (!f.kind.Symlink? ==> f.symlink == None)
  }

  lemma ParsedFile(n: Node, path: Path)
    requires Plain(FileOf(n)) && n.path == path
    ensures FileOf(ParseNode(View(n), path)) == FileOf(n)
  {
  }

  /** The first of the trees laid out as children of position `k`. */
  lemma RepHead(a: seq<Node>, k: nat, fs: seq<FileTree>, pos: nat, base: nat)
    requires RepKids(a, k, fs, pos, base) && fs != [] && Ordered(fs[0])
    ensures pos < |a| && FileOf(a[pos]) == fs[0].file && a[pos].path == fs[0].file.path
    ensures a[pos].inode.kind == fs[0].file.kind && a[pos].Name() == FileName(fs[0].file)
    ensures RepKids(a, k, fs[1..], pos + 1, base + FileSizeAll(fs[0].children))
    ensures fs[0].file.kind.Dir? ==>
              && a[pos].inode.childIndex == base + 1 && a[pos].inode.childCount == |fs[0].children|
              && base + |fs[0].children| <= |a|
              && RepKids(a, pos, fs[0].children, base, base + |fs[0].children|)
    ensures !fs[0].file.kind.Dir? ==> fs[0].children == []
  {
    assert FileOf(a[pos]).path == a[pos].path && FileOf(a[pos]).kind == a[pos].inode.kind;
  }

  lemma StripCons(t: Tree, rest: seq<Tree>)
    ensures StripAll([t] + rest) == [FileTree(FileOf(t.node), StripAll(t.children))] + StripAll(rest)
  {
    hide FileOf;
    assert ([t] + rest)[1..] == rest;
  }

  lemma LoadStep(a: seq<Node>, lo: nat, hi: nat, path: Path)
    requires Readable(a) && lo < hi <= |a|
    ensures var childPath := path + [a[lo].Name()];
            StripAll(LoadRange(a, lo, hi, path))
            == [FileTree(FileOf(ParseNode(View(a[lo]), childPath)), StripAll(Below(a, lo, childPath)))]
               + StripAll(LoadRange(a, lo + 1, hi, path))
  {
    hide Readable, FileOf, ParseNode, StripAll, Strip, Below, LoadRange;
    var childPath := path + [a[lo].Name()];
    LoadRangeStep(a, lo, hi, path);
    StripCons(Tree(ParseNode(View(a[lo]), childPath), Below(a, lo, childPath)), LoadRange(a, lo + 1, hi, path));
  }

  lemma BelowIs(a: seq<Node>, pos: nat, path: Path)
    requires Readable(a) && pos < |a|
    ensures a[pos].IsDir() ==>
              var lo, hi := a[pos].inode.childIndex - 1, a[pos].inode.childIndex - 1 + a[pos].inode.childCount;
              0 <= lo <= hi <= |a| && Below(a, pos, path) == LoadRange(a, lo, hi, path)
    ensures !a[pos].IsDir() ==> StripAll(Below(a, pos, path)) == []
  {
    hide Readable, LoadRange;
    ReadableAt(a, pos);
  }

  /** Loading the children block of a represented directory gives back its subtrees, in order. */
  lemma {:induction false} LoadRebuilds(a: seq<Node>, k: nat, fs: seq<FileTree>, pos: nat, base: nat, path: Path)
    requires Readable(a) && forall q :: 0 <= q < |a| ==> Plain(FileOf(a[q]))
    requires RepKids(a, k, fs, pos, base) && pos + |fs| <= |a|
    requires forall i :: 0 <= i < |fs| ==> Ordered(fs[i]) && fs[i].file.path == path + [FileName(fs[i].file)]
    ensures StripAll(LoadRange(a, pos, pos + |fs|, path)) == fs
    decreases fs
  {
    hide Readable, Plain, Rep, RepKids, LoadRange, FileName, FileOf, ParseNode, Below;
    if fs == [] {
      LoadRangeEmpty(a, pos, path);
    } else {
      var f := fs[0];
      RepHead(a, k, fs, pos, base);
      ParsedFile(a[pos], f.file.path);
      BelowIs(a, pos, f.file.path);
      if f.file.kind.Dir? {
        LoadRebuilds(a, pos, f.children, base, base + |f.children|, f.file.path);
      }
      LoadRebuilds(a, k, fs[1..], pos + 1, base + FileSizeAll(f.children), path);
      LoadStep(a, pos, pos + |fs|, path);
      assert fs == [f] + fs[1..];
    }
  }

  /** The root of a laid-out tree. */
  lemma RootHead(a: seq<Node>, f: FileTree)
    requires Rep(a, 0, f, 1) && f.file.kind.Dir?
    ensures a[0].IsDir() && FileOf(a[0]) == f.file && a[0].path == f.file.path
    ensures a[0].inode.childIndex == 2 && a[0].inode.childCount == |f.children| && 1 + |f.children| <= |a|
    ensures RepKids(a, 0, f.children, 1, 1 + |f.children|)
  {
    hide RepKids;
    assert FileOf(a[0]).kind == a[0].inode.kind && FileOf(a[0]).path == a[0].path;
  }

  /** The tree that loading an image yields is the tree the image was laid out for, siblings sorted by name, hard links
      or not. */
  lemma LoadedTreeIsBuiltTree(a: seq<Node>, f: FileTree)
    requires Readable(a) && Rep(a, 0, f, 1) && Ordered(f) && f.file.path == [] && f.file.kind.Dir?
    requires forall q :: 0 <= q < |a| ==> Plain(FileOf(a[q]))
    ensures Strip(LoadedTree(a)) == f
  {
    hide Readable, RepKids, FileSizeAll, Plain, LoadRange, StripAll, Below, ParseNode, Rep, FileOf;
    RootHead(a, f);
    ParsedFile(a[0], []);
    BelowIs(a, 0, []);
    LoadRebuilds(a, 0, f.children, 1, 1 + |f.children|, []);
  }

  // ----- finished images -----

  /** The tree laid out for `f` with, at every position, the file the array `b` has there. */
  function Retold(b: seq<Node>, f: FileTree, k: nat, base: nat): FileTree
    decreases f, 0
  {
    FileTree(if k < |b| then FileOf(b[k]) else f.file, RetoldAll(b, f.children, base, base + |f.children|))
  }

  function RetoldAll(b: seq<Node>, fs: seq<FileTree>, pos: nat, base: nat): (r: seq<FileTree>)
    ensures |r| == |fs|
    decreases fs, 1
  {
    if fs == [] then []
    else [Retold(b, fs[0], pos, base)] + RetoldAll(b, fs[1..], pos + 1, base + FileSizeAll(fs[0].children))
  }

  /** The same file in the same place, with as many chunks. */
  ghost predicate SamePlace(m: Node, n: Node) {
    && SameButDigest(m, n) && m.symlink == n.symlink && m.xattrs == n.xattrs
  }

  lemma {:induction false} RetoldLaidOut(l: seq<Node>, b: seq<Node>, k: nat, f: FileTree, base: nat)
    requires Rep(l, k, f, base) && |b| == |l| && forall q :: 0 <= q < |l| ==> SamePlace(l[q], b[q])
    ensures var g := Retold(b, f, k, base);
            && Rep(b, k, g, base) && FileSizeAll(g.children) == FileSizeAll(f.children)
            && g.file.path == f.file.path && g.file.kind == f.file.kind
    decreases f, 0
  {
    hide RepKids;
    assert SamePlace(l[k], b[k]);
    assert FileOf(l[k]).path == l[k].path && FileOf(l[k]).kind == l[k].inode.kind && FileOf(l[k]).chunks == l[k].chunks;
    RetoldKids(l, b, k, f.children, base, base + |f.children|);
  }

  lemma {:induction false} RetoldKids(l: seq<Node>, b: seq<Node>, k: nat, fs: seq<FileTree>, pos: nat, base: nat)
    requires RepKids(l, k, fs, pos, base) && |b| == |l| && forall q :: 0 <= q < |l| ==> SamePlace(l[q], b[q])
    ensures var gs := RetoldAll(b, fs, pos, base);
            RepKids(b, k, gs, pos, base) && FileSizeAll(gs) == FileSizeAll(fs) && CountDirs(gs) == CountDirs(fs)
    decreases fs, 1
  {
    hide Rep, Retold;
    if fs != [] {
      FirstKid(l, k, fs, pos, base);
      assert SamePlace(l[pos], b[pos]) && SamePlace(l[k], b[k]);
      RetoldLaidOut(l, b, pos, fs[0], base);
      RetoldKids(l, b, k, fs[1..], pos + 1, base + FileSizeAll(fs[0].children));
    }
  }

  lemma {:induction false} RetoldOrdered(l: seq<Node>, b: seq<Node>, k: nat, f: FileTree, base: nat)
    requires Rep(l, k, f, base) && |b| == |l| && forall q :: 0 <= q < |l| ==> SamePlace(l[q], b[q])
    requires Ordered(f)
    ensures Ordered(Retold(b, f, k, base))
    decreases f, 0
  {
    hide Rep, RepKids, Less, SamePlace, Retold;
    RetoldLaidOut(l, b, k, f, base);
    KidsOf(l, k, f, base);
    RetoldKidsOrdered(l, b, k, f.children, base, base + |f.children|);
    RetoldChildren(b, f, k, base);
    SameOrder(f, Retold(b, f, k, base));
  }

  lemma RetoldChildren(b: seq<Node>, f: FileTree, k: nat, base: nat)
    ensures Retold(b, f, k, base).children == RetoldAll(b, f.children, base, base + |f.children|)
  {
    hide RetoldAll;
  }

  /** Order depends on kinds, paths and what is below. */
  lemma SameOrder(f: FileTree, g: FileTree)
    requires Ordered(f) && g.file.path == f.file.path && g.file.kind == f.file.kind && |g.children| == |f.children|
    requires forall i :: 0 <= i < |g.children| ==>
               Ordered(g.children[i]) && g.children[i].file.path == f.children[i].file.path
    ensures Ordered(g)
  {
    hide Less;
    forall i | 0 <= i < |g.children|
      ensures FileName(g.children[i].file) == FileName(f.children[i].file)
    {
    }
  }

  lemma KidsOf(l: seq<Node>, k: nat, f: FileTree, base: nat)
    requires Rep(l, k, f, base)
    ensures RepKids(l, k, f.children, base, base + |f.children|)
  {
    hide RepKids;
  }

  lemma {:induction false} RetoldKidsOrdered(l: seq<Node>, b: seq<Node>, k: nat, fs: seq<FileTree>, pos: nat, base: nat)
    requires RepKids(l, k, fs, pos, base) && |b| == |l| && forall q :: 0 <= q < |l| ==> SamePlace(l[q], b[q])
    requires forall i :: 0 <= i < |fs| ==> Ordered(fs[i])
    ensures var gs := RetoldAll(b, fs, pos, base);
            forall i :: 0 <= i < |gs| ==> Ordered(gs[i]) && gs[i].file.path == fs[i].file.path
    decreases fs, 1
  {
    hide Rep, RepKids, Retold, SamePlace, Ordered;
    if fs != [] {
      FirstKid(l, k, fs, pos, base);
      RetoldLaidOut(l, b, pos, fs[0], base);
      RetoldOrdered(l, b, pos, fs[0], base);
      RetoldKidsOrdered(l, b, k, fs[1..], pos + 1, base + FileSizeAll(fs[0].children));
    }
  }

  /** A node as the digest passes leave it. */
  lemma DumpedPlace(n: Node, blobIndex: nat, sha256: Hash, digest: RafsDigest)
    ensures SamePlace(n, WithDigest(Dumped(n, blobIndex, sha256), digest))
    ensures Plain(FileOf(n)) ==> Plain(FileOf(WithDigest(Dumped(n, blobIndex, sha256), digest)))
  {
  }

  /** What the digest passes leave of an array that lays out `f` loads back as the tree `f` with the files' chunks in
      their blob, provided the check accepts its root. */
  lemma FinishedLoads(l: seq<Node>, b: seq<Node>, f: FileTree, blobIndex: nat, sha256: Hash)
    requires Rep(l, 0, f, 1) && Ordered(f) && f.file.path == [] && f.file.kind.Dir?
    requires Readable(b) && |b| == |l| && forall q :: 0 <= q < |l| ==>
               Plain(FileOf(l[q])) && b[q] == WithDigest(Dumped(l[q], blobIndex, sha256), b[q].inode.digest)
    ensures Strip(LoadedTree(b)) == Retold(b, f, 0, 1)
  {
    hide Readable, Rep, Ordered, Plain, SamePlace, Dumped, WithDigest, Retold, FileOf;
    forall q | 0 <= q < |l|
      ensures SamePlace(l[q], b[q]) && Plain(FileOf(b[q]))
    {
      DumpedPlace(l[q], blobIndex, sha256, b[q].inode.digest);
    }
    RetoldLaidOut(l, b, 0, f, 1);
    RetoldOrdered(l, b, 0, f, 1);
    LoadedTreeIsBuiltTree(b, Retold(b, f, 0, 1));
  }

  /** Every node of a tree loaded from an image agrees with its digest, so a layer built on top keeps it acceptable. */
  lemma LoadedAgrees(a: seq<Node>, q: nat, path: Path, sha256: Hash, h: Hash)
    requires Readable(a) && Accepts(a, 0, true, h) && q < |a|
    ensures FileAgrees(ParseNode(View(a[q]), path), sha256, h)
  {
    hide Readable, Accepts, BlockIds;
    RootAcceptedIffAllMatch(a, h);
    assert DigestMatches(Views(a), q, h);
  }

  /** An image without digests, as `Bootstrap` writes them, does not load: its root is refused unless the hash of the
      digests below happens to be zero too. */
  lemma UndigestedNotLoaded(a: seq<Node>, f: FileTree, h: Hash)
    requires Image(a, f) && a[0].inode.digest == Zeros(DIGEST_SIZE)
    requires 1 + |f.children| <= |a| && h(StoredDigests(Views(a), 1, 1 + |f.children|)) != Zeros(DIGEST_SIZE)
    ensures Readable(a) && !Accepts(a, 0, false, h) && !Accepts(a, 0, true, h)
  {
    hide Readable, StoredDigests, RepKids;
    ImageIsReadable(a, f);
    RootHead(a, f);
    UndigestedRefused(a, h);
  }
}
