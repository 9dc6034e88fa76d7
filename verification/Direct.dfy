/** The memory-mapped driver: validated inode access, binary search by name, and translation between paths and
    inode numbers. */
module Direct {
  import opened Wrappers
  import opened Bytes
  import opened Nodes

  const ROOT_INO := 1
  const MAX_NAME := 255

  /** One inode of an image, as decoded from its bytes. */
  datatype Entry = Entry(inode: Inode, name: Name, symlink: Option<Name>, chunks: seq<Chunk>,
      xattrs: seq<(Name, seq<Byte>)>)

  function View(n: Node): Entry {
    Entry(n.inode, n.Name(), n.symlink, n.chunks, n.xattrs)
  }

  function Views(ns: seq<Node>): (es: seq<Entry>)
    ensures |es| == |ns|
  {
    seq(|ns|, i requires 0 <= i < |ns| => View(ns[i]))
  }

  /** `OndiskInodeWrapper::validate`, apart from its range checks against the end of the mapping. */
  predicate ValidInode(inode: Inode, maxIno: nat) {
    && inode.parent != inode.ino
    && !(inode.parent > inode.ino && inode.nlink == 1)
    && inode.nlink != 0
    && inode.nameSize <= MAX_NAME + 1
    && (inode.kind.Dir? ==>
          inode.childIndex > inode.ino && inode.childIndex - 1 <= maxIno && inode.childCount <= maxIno)
  }

  /** The first of the 0-based positions `lo .. hi` whose entry has the given name. */
  function FirstNamed(es: seq<Entry>, lo: nat, hi: nat, name: Name): Result<nat>
    requires hi <= |es|
    decreases hi - lo
  {
    if lo >= hi then Err(Enoent)
    else if es[lo].name == name then Ok(lo)
    else FirstNamed(es, lo + 1, hi, name)
  }

  lemma {:induction false} FirstNamedIs(es: seq<Entry>, lo: nat, hi: nat, name: Name, i: nat)
    requires lo <= i < hi <= |es| && es[i].name == name
    requires forall j :: lo <= j < i ==> es[j].name != name
    ensures FirstNamed(es, lo, hi, name) == Ok(i)
    decreases i - lo
  {
    if lo < i { FirstNamedIs(es, lo + 1, hi, name, i); }
  }

  lemma {:induction false} FirstNamedNone(es: seq<Entry>, lo: nat, hi: nat, name: Name)
    requires hi <= |es| && forall j :: lo <= j < hi ==> es[j].name != name
    ensures FirstNamed(es, lo, hi, name) == Err(Enoent)
    decreases hi - lo
  {
    if lo < hi { FirstNamedNone(es, lo + 1, hi, name); }
  }

  datatype Mapping = Mapping(entries: seq<Entry>) {
    /** `get_inode`: the 0-based position of a validated inode (index 0 makes the source panic). */
    function GetInode(ino: nat): Result<nat> {
      if ino == 0 || ino > |entries| then Err(Enoent)
      else if !ValidInode(entries[ino - 1].inode, |entries|) then Err(Ebadf)
      else Ok(ino - 1)
    }

    /** What a reader refuses: numbers that are not in the image, inodes that are their own parent, those numbered below
        their parent that have one link, those without links, with names over 256 bytes, and directories whose children
        do not come after them in the image. */
    lemma GetInodeIff(ino: nat)
      ensures GetInode(ino).Ok? ==> GetInode(ino).value == ino - 1
      ensures GetInode(ino) == Err(Enoent) <==> ino == 0 || ino > |entries|
      ensures GetInode(ino).Ok? <==>
              && 1 <= ino <= |entries|
              && var i := entries[ino - 1].inode;
                 && i.parent != i.ino && (i.parent < i.ino || i.nlink != 1) && i.nlink != 0 && i.nameSize <= 256
                 && (i.kind.Dir? ==>
                       i.ino < i.childIndex && i.childIndex <= |entries| + 1 && i.childCount <= |entries|)
    {
    }

    /** The children of position `pos` are inside the image, valid, and strictly increase by name. */
    ghost predicate Searchable(pos: nat) {
      && pos < |entries|
      && var inode := entries[pos].inode;
      inode.kind.Dir? ==>
        && inode.childIndex >= 1
        && inode.childIndex - 1 + inode.childCount <= |entries|
        && (forall i :: inode.childIndex - 1 <= i < inode.childIndex - 1 + inode.childCount ==>
              ValidInode(entries[i].inode, |entries|))
        && (forall i, j :: inode.childIndex - 1 <= i < j < inode.childIndex - 1 + inode.childCount ==>
              Less(entries[i].name, entries[j].name))
    }

    /** Linear search for a child. */
    function ChildSpec(pos: nat, name: Name): Result<nat>
      requires pos < |entries|
    {
      var inode := entries[pos].inode;
      if !inode.kind.Dir? then Err(Einval)
      else if inode.childCount == 0 then Err(Enoent)
      else if inode.childIndex >= 1 && inode.childIndex - 1 + inode.childCount <= |entries| then
        FirstNamed(entries, inode.childIndex - 1, inode.childIndex - 1 + inode.childCount, name)
      else Err(Ebadf)
    }

    /** Among the children of `pos`, those before `first` have smaller names and those after `last` larger ones. */
    ghost predicate Narrowed(pos: nat, first: int, last: int, name: Name)
      requires pos < |entries|
    {
      Searchable(pos) && entries[pos].inode.kind.Dir? ==>
        var base, count := entries[pos].inode.childIndex - 1, entries[pos].inode.childCount;
        && (forall j :: base <= j < base + first && j < base + count ==> Less(entries[j].name, name))
        && (forall j :: base + last < j < base + count && base <= j ==> Less(name, entries[j].name))
    }

    lemma FoundAt(pos: nat, name: Name, pivot: nat)
      requires pos < |entries| && Searchable(pos) && entries[pos].inode.kind.Dir?
                 && pivot < entries[pos].inode.childCount
      requires entries[entries[pos].inode.childIndex - 1 + pivot].name == name
      ensures ChildSpec(pos, name) == Ok(entries[pos].inode.childIndex - 1 + pivot)
    {
      hide Less;
      var base, count := entries[pos].inode.childIndex - 1, entries[pos].inode.childCount;
      forall j | base <= j < base + pivot
        ensures entries[j].name != name
      {
        LessIrreflexive(name);
      }
      FirstNamedIs(entries, base, base + count, name, base + pivot);
    }

    lemma NarrowsLast(pos: nat, first: int, last: int, name: Name, pivot: nat)
      requires pos < |entries| && Narrowed(pos, first, last, name) && pivot < entries[pos].inode.childCount
      requires Searchable(pos) && entries[pos].inode.kind.Dir? ==>
                 Less(name, entries[entries[pos].inode.childIndex - 1 + pivot].name)
      ensures Narrowed(pos, first, pivot - 1, name)
    {
      hide Less;
      if Searchable(pos) && entries[pos].inode.kind.Dir? {
        var base, count := entries[pos].inode.childIndex - 1, entries[pos].inode.childCount;
        forall j | base + pivot < j < base + count
          ensures Less(name, entries[j].name)
        {
          LessTransitive(name, entries[base + pivot].name, entries[j].name);
        }
      }
    }

    lemma NarrowsFirst(pos: nat, first: int, last: int, name: Name, pivot: nat)
      requires pos < |entries| && Narrowed(pos, first, last, name) && pivot < entries[pos].inode.childCount
      requires Searchable(pos) && entries[pos].inode.kind.Dir? ==>
                 Less(entries[entries[pos].inode.childIndex - 1 + pivot].name, name)
      ensures Narrowed(pos, pivot + 1, last, name)
    {
      hide Less;
      if Searchable(pos) && entries[pos].inode.kind.Dir? {
        var base := entries[pos].inode.childIndex - 1;
        forall j | base <= j < base + pivot
          ensures Less(entries[j].name, name)
        {
          LessTransitive(entries[j].name, entries[base + pivot].name, name);
        }
      }
    }

    lemma NarrowedOut(pos: nat, first: int, last: int, name: Name)
      requires pos < |entries| && Searchable(pos) && Narrowed(pos, first, last, name) && first > last
      requires entries[pos].inode.kind.Dir? && entries[pos].inode.childCount > 0
      ensures ChildSpec(pos, name) == Err(Enoent)
    {
      hide Less;
      var base, count := entries[pos].inode.childIndex - 1, entries[pos].inode.childCount;
      forall j | base <= j < base + count
        ensures entries[j].name != name
      {
        LessIrreflexive(name);
      }
      FirstNamedNone(entries, base, base + count, name);
    }

    /** `get_child_by_name`: binary search among the children of a valid inode. */
    method GetChildByName(pos: nat, name: Name) returns (r: Result<nat>)
      requires |entries| < 0x4000_0000
      requires pos < |entries| && ValidInode(entries[pos].inode, |entries|)
      ensures r.Ok? ==>
                r.value < |entries| && entries[r.value].name == name && ValidInode(entries[r.value].inode, |entries|)
      ensures Searchable(pos) ==> r == ChildSpec(pos, name)
    {
      hide Less, ValidInode, Narrowed;
      var inode := entries[pos].inode;
      if !inode.kind.Dir? {
        return Err(Einval);
      }
      var first: int := 0;
      if inode.childCount == 0 {
        return Err(Enoent);
      }
      var last: int := inode.childCount - 1;
      NothingNarrowed(pos, name);
      while first <= last
        invariant 0 <= first <= last + 1 <= inode.childCount
        invariant Narrowed(pos, first, last, name)
      {
        var pivot := first + (last - first) / 2;
        var child := this.GetInode(inode.childIndex + pivot);
        if child.Err? {
          return Err(child.error);
        }
        var target := entries[child.value].name;
        if target == name {
          if Searchable(pos) { FoundAt(pos, name, pivot); }
          return Ok(child.value);
        }
        LessTotal(target, name);
        if Less(name, target) {
          NarrowsLast(pos, first, last, name, pivot);
          last := pivot - 1;
        } else {
          NarrowsFirst(pos, first, last, name, pivot);
          first := pivot + 1;
        }
      }
      if Searchable(pos) { NarrowedOut(pos, first, last, name); }
      r := Err(Enoent);
    }

    lemma NothingNarrowed(pos: nat, name: Name)
      requires pos < |entries|
      ensures Narrowed(pos, 0, entries[pos].inode.childCount - 1, name)
    {
    }

    /** `get_child_by_index`. */
    function GetChildByIndex(pos: nat, idx: nat): Result<nat>
      requires pos < |entries|
    {
      var inode := entries[pos].inode;
      if !inode.kind.Dir? then Err(Einval)
      else if idx >= inode.childCount then Err(Enoent)
      else this.GetInode(idx + inode.childIndex)
    }

    /** Where the components `path` lead from position `pos`; every failure on the way reads as "no such file". */
    function Resolve(pos: nat, path: Path): (r: Result<nat>)
      requires pos < |entries|
      ensures r.Ok? ==> r.value < |entries|
      decreases |path|
    {
      if path == [] then Ok(pos)
      else match ChildSpec(pos, path[0])
           case Ok(child) => (if child < |entries| then Resolve(child, path[1..]) else Err(Enoent))
           case Err(_) => Err(Enoent)
    }

    /** Every position can be searched and read. */
    ghost predicate Sound() {
      && 1 <= |entries| < 0x4000_0000
      && forall pos :: 0 <= pos < |entries| ==> Searchable(pos) && ValidInode(entries[pos].inode, |entries|)
    }

    /** What `ino_from_path` gives once the root has been fetched; a relative path is refused. */
    function InoFromPathSpec(absolute: bool, path: Path): Result<nat>
      requires 1 <= |entries|
    {
      if !absolute then Err(Einval)
      else if path == [] then Ok(ROOT_INO)
      else match Resolve(0, path)
           case Ok(pos) => Ok(entries[pos].inode.ino)
           case Err(e) => Err(e)
    }

    /** The loop of `ino_from_path` over the components, from position `parent`. */
    method WalkDown(parent: nat, path: Path) returns (r: Result<nat>)
      requires Sound() && parent < |entries|
      ensures r == Resolve(parent, path)
    {
      hide ValidInode;
      var pos := parent;
      for i := 0 to |path|
        invariant 0 <= pos < |entries|
        invariant Resolve(parent, path) == Resolve(pos, path[i..])
      {
        assert Searchable(pos);
        var child := GetChildByName(pos, path[i]);
        assert path[i..][1..] == path[i + 1..];
        if child.Err? {
          return Err(Enoent);
        }
        pos := child.value;
      }
      r := Ok(pos);
    }

    /** Parents come first, which holds of an image without hard links. */
    ghost predicate ParentsFirst() {
      && 1 <= |entries|
      && forall pos :: 0 <= pos < |entries| ==>
           entries[pos].inode.ino == pos + 1 && (pos > 0 ==> 1 <= entries[pos].inode.parent <= pos)
    }

    /** The names from the root's child down to position `pos`. */
    ghost function PathTo(pos: nat): Path
      requires ParentsFirst() && pos < |entries|
      decreases pos
    {
      if pos == 0 then [] else PathTo(entries[pos].inode.parent - 1) + [entries[pos].name]
    }

    /** `path_from_ino`, as the components below the root. */
    method PathFromIno(ino: nat) returns (r: Result<Path>)
      requires ParentsFirst() && Sound()
      ensures r == if 1 <= ino <= |entries| then Ok(PathTo(ino - 1)) else Err(Enoent)
    {
      if ino == ROOT_INO {
        return Ok([]);
      }
      var path := [];
      var curIno := ino;
      while true
        invariant 1 <= ino <= |entries| ==> 1 <= curIno <= |entries| && PathTo(ino - 1) == PathTo(curIno - 1) + path
        invariant !(1 <= ino <= |entries|) ==> curIno == ino
        decreases curIno
      {
        assert 1 <= curIno <= |entries| ==> Searchable(curIno - 1);
        var inode := this.GetInode(curIno);
        if inode.Err? {
          return Err(inode.error);
        }
        if entries[inode.value].inode.ino == ROOT_INO {
          break;
        }
        path := [entries[inode.value].name] + path;
        curIno := entries[inode.value].inode.parent;
      }
      assert [] + path == path;
      r := Ok(path);
    }
  }
}
