/** The inode array: how a tree is laid out in it, and the steps of the flattening that both builders share. */
module Flatten {
  import opened Nodes
  import opened Trees

  // ----- the array represents the tree -----

  function CountDirs(fs: seq<FileTree>): nat {
    if fs == [] then 0 else (if fs[0].file.kind.Dir? then 1 else 0) + CountDirs(fs[1..])
  }

  /** Position `k` of the array holds the root of `f` and positions `base .. base + FileSizeAll(f.children)` hold
      exactly its strict descendants: first its children, side by side, then the blocks of its directories in order. */
  ghost predicate Rep(a: seq<Node>, k: nat, f: FileTree, base: nat)
    decreases f, 0
  {
    && k < base <= |a|
    && FileOf(a[k]) == f.file
    && (if f.file.kind.Dir? then
          && a[k].inode.childIndex == base + 1
          && a[k].inode.childCount == |f.children|
          && a[k].inode.nlink == 2 + CountDirs(f.children)
        else
          && f.children == []
          && a[k].inode.childCount == |f.file.chunks|)
    && base + FileSizeAll(f.children) <= |a|
    && RepKids(a, k, f.children, base, base + |f.children|)
  }

  /** Positions `pos ..` hold the roots of `fs` as children of position `k`, and the blocks of their descendants follow
      one another from `base`. */
  ghost predicate RepKids(a: seq<Node>, k: nat, fs: seq<FileTree>, pos: nat, base: nat)
    decreases fs, 1
  {
    fs == [] ||
    (&& k < pos < |a|
     && a[pos].inode.parent == a[k].inode.ino
     && Rep(a, pos, fs[0], base)
     && RepKids(a, k, fs[1..], pos + 1, base + FileSizeAll(fs[0].children)))
  }

  /** `a` and `b` agree on the descendants block of a tree laid out from `base`. */
  ghost predicate Agree(a: seq<Node>, b: seq<Node>, lo: nat, hi: nat) {
    hi <= |a| && hi <= |b| && forall i :: lo <= i < hi ==> SameRecord(a[i], b[i])
  }

  /** The same record, except that the link count of a non-directory may differ. */
  ghost predicate SameRecord(m: Node, n: Node) {
    n.(inode := n.inode.(nlink := m.inode.nlink)) == m && (m.IsDir() ==> n == m)
  }

  lemma {:induction false} RepFrame(a: seq<Node>, b: seq<Node>, k: nat, f: FileTree, base: nat)
    requires Rep(a, k, f, base)
    requires k < |b| && SameRecord(a[k], b[k])
    requires Agree(a, b, base, base + FileSizeAll(f.children))
    ensures Rep(b, k, f, base)
    decreases f, 0
  {
    RepKidsFrame(a, b, k, f.children, base, base + |f.children|, base, base + FileSizeAll(f.children));
  }

  lemma {:induction false} RepKidsFrame(a: seq<Node>, b: seq<Node>, k: nat, fs: seq<FileTree>, pos: nat, base: nat,
      lo: nat, hi: nat)
    requires RepKids(a, k, fs, pos, base)
    requires k < |a| && k < |b| && SameRecord(a[k], b[k])
    requires lo <= pos && pos + |fs| <= base && base + FileSizeAll(fs) - |fs| <= hi
    requires Agree(a, b, lo, hi)
    ensures RepKids(b, k, fs, pos, base)
    decreases fs, 1
  {
    if fs != [] {
      RepFrame(a, b, pos, fs[0], base);
      RepKidsFrame(a, b, k, fs[1..], pos + 1, base + FileSizeAll(fs[0].children), lo, hi);
    }
  }

  // ----- hard link numbering of one child -----

  type Key = (nat, nat)

  /** The nodes at the 1-based positions `idxs` get the link count `nlink`. */
  ghost predicate Patched(a: seq<Node>, b: seq<Node>, idxs: seq<nat>, nlink: nat) {
    && |a| == |b|
    && forall i :: 0 <= i < |a| ==>
         b[i] == if i + 1 in idxs then a[i].(inode := a[i].inode.(nlink := nlink)) else a[i]
  }

  /** The hard link block of `build_rafs`: the inode number and link count of the child about to be placed at the
      1-based `index`, and the link counts of the nodes placed before it that share its key. */
  method Number(inodeMap: map<Key, seq<nat>>, nodes: seq<Node>, key: Key, index: nat)
    returns (inodeMap': map<Key, seq<nat>>, nodes': seq<Node>, ino: nat, nlink: nat)
    requires index == |nodes| + 1
    requires key in inodeMap ==> inodeMap[key] != [] && forall x :: x in inodeMap[key] ==> 1 <= x <= |nodes|
    ensures key in inodeMap ==>
              && inodeMap' == inodeMap[key := inodeMap[key] + [index]]
              && ino == inodeMap[key][0]
              && nlink == |inodeMap[key]| + 1
              && Patched(nodes, nodes', inodeMap[key], nlink)
    ensures key !in inodeMap ==>
              inodeMap' == inodeMap[key := [index]] && ino == index && nlink == 1 && nodes' == nodes
  {
    nodes' := nodes;
    if key in inodeMap {
      var indexes := inodeMap[key] + [index];
      inodeMap' := inodeMap[key := indexes];
      ino := indexes[0];
      nlink := |indexes|;
      for m := 0 to |indexes|
        invariant Patched(nodes, nodes', if m <= |inodeMap[key]| then inodeMap[key][..m] else inodeMap[key], nlink)
      {
        var idx := indexes[m];
        assert m < |inodeMap[key]| ==> idx in inodeMap[key];
        if index == idx {
          continue;
        }
        assert inodeMap[key][..m + 1] == inodeMap[key][..m] + [idx];
        nodes' := nodes'[idx - 1 := nodes'[idx - 1].(inode := nodes'[idx - 1].inode.(nlink := nlink))];
      }
      assert inodeMap[key][..|inodeMap[key]|] == inodeMap[key];
    } else {
      ino, nlink := index, 1;
      inodeMap' := inodeMap[key := [index]];
    }
  }

  // ----- from the second loop of `build_rafs` to the array -----

  /** A directory whose record is at position `pos`. */
  datatype Block = Block(pos: nat, tree: FileTree)

  /** The directories among the roots `fs`, which sit at positions `pos ..`. */
  function DirBlocks(fs: seq<FileTree>, pos: nat): seq<Block> {
    if fs == [] then []
    else (if fs[0].file.kind.Dir? then [Block(pos, fs[0])] else []) + DirBlocks(fs[1..], pos + 1)
  }

  lemma {:induction false} DirBlocksAppend(fs: seq<FileTree>, f: FileTree, pos: nat)
    ensures DirBlocks(fs + [f], pos) == DirBlocks(fs, pos) + if f.file.kind.Dir? then [Block(pos + |fs|, f)] else []
  {
    if fs != [] {
      assert (fs + [f])[1..] == fs[1..] + [f];
      DirBlocksAppend(fs[1..], f, pos + 1);
    }
  }

  lemma {:induction false} DirBlocksCount(fs: seq<FileTree>, pos: nat)
    ensures |DirBlocks(fs, pos)| == CountDirs(fs)
  {
    if fs != [] { DirBlocksCount(fs[1..], pos + 1); }
  }

  /** The number of strict descendants of the blocks. */
  function BlockSize(bs: seq<Block>): nat {
    if bs == [] then 0 else FileSizeAll(bs[0].tree.children) + BlockSize(bs[1..])
  }

  /** The blocks of the given directories are laid out one after the other from `base`. */
  ghost predicate RepBlocks(a: seq<Node>, bs: seq<Block>, base: nat) {
    bs == [] || (Rep(a, bs[0].pos, bs[0].tree, base) && RepBlocks(a, bs[1..], base + FileSizeAll(bs[0].tree.children)))
  }

  lemma {:induction false} RepBlocksFrame(a: seq<Node>, b: seq<Node>, bs: seq<Block>, base: nat, hi: nat)
    requires RepBlocks(a, bs, base)
    requires hi == base + BlockSize(bs)
    requires forall x :: x in bs ==> x.pos < |a| && x.pos < |b| && SameRecord(a[x.pos], b[x.pos])
    requires Agree(a, b, base, hi)
    ensures RepBlocks(b, bs, base)
  {
    hide Rep;
    if bs != [] {
      RepFrame(a, b, bs[0].pos, bs[0].tree, base);
      RepBlocksFrame(a, b, bs[1..], base + FileSizeAll(bs[0].tree.children), hi);
    }
  }

  lemma {:induction false} RepBlocksAppend(a: seq<Node>, bs: seq<Block>, b: Block, base: nat)
    requires RepBlocks(a, bs, base)
    requires Rep(a, b.pos, b.tree, base + BlockSize(bs))
    ensures RepBlocks(a, bs + [b], base)
  {
    if bs == [] {
      assert (bs + [b])[1..] == [];
    } else {
      assert (bs + [b])[1..] == bs[1..] + [b];
      RepBlocksAppend(a, bs[1..], b, base + FileSizeAll(bs[0].tree.children));
    }
  }

  /** The record at `pos` is that of the root of `f`, as a child of position `k`. */
  ghost predicate PlacedAt(a: seq<Node>, k: nat, pos: nat, f: FileTree) {
    && k < pos < |a|
    && a[pos].inode.parent == a[k].inode.ino
    && FileOf(a[pos]) == f.file
    && (!f.file.kind.Dir? ==> f.children == [] && a[pos].inode.childCount == |f.file.chunks|)
  }

  /** The first child, once its own block is laid out. */
  lemma AssembleFirst(a: seq<Node>, k: nat, fs: seq<FileTree>, pos: nat, base: nat)
    requires fs != [] && PlacedAt(a, k, pos, fs[0]) && pos + |fs| <= base <= |a|
    requires RepBlocks(a, DirBlocks(fs, pos), base)
    ensures Rep(a, pos, fs[0], base)
    ensures RepBlocks(a, DirBlocks(fs[1..], pos + 1), base + FileSizeAll(fs[0].children))
    ensures BlockSize(DirBlocks(fs, pos)) == FileSizeAll(fs[0].children) + BlockSize(DirBlocks(fs[1..], pos + 1))
  {
    hide Rep;
    var rest := DirBlocks(fs[1..], pos + 1);
    if fs[0].file.kind.Dir? {
      assert DirBlocks(fs, pos)[1..] == rest;
    } else {
      assert DirBlocks(fs, pos) == rest;
      LeafRep(a, k, pos, fs[0], base);
    }
  }

  lemma LeafRep(a: seq<Node>, k: nat, pos: nat, f: FileTree, base: nat)
    requires PlacedAt(a, k, pos, f) && pos < base <= |a| && !f.file.kind.Dir?
    ensures Rep(a, pos, f, base) && FileSizeAll(f.children) == 0
  {
  }

  /** Children placed side by side, with the blocks of their directories laid out in order, are the children block. */
  lemma {:induction false} Assemble(a: seq<Node>, k: nat, fs: seq<FileTree>, pos: nat, base: nat)
    requires forall i :: 0 <= i < |fs| ==> PlacedAt(a, k, pos + i, fs[i])
    requires RepBlocks(a, DirBlocks(fs, pos), base)
    requires pos + |fs| <= base && base + BlockSize(DirBlocks(fs, pos)) <= |a|
    ensures RepKids(a, k, fs, pos, base)
    ensures base + FileSizeAll(fs) - |fs| == base + BlockSize(DirBlocks(fs, pos))
  {
    hide Rep, RepBlocks, DirBlocks, BlockSize;
    if fs == [] {
      NoBlocks(pos);
    } else {
      assert PlacedAt(a, k, pos + 0, fs[0]);
      AssembleFirst(a, k, fs, pos, base);
      forall i | 0 <= i < |fs[1..]|
        ensures PlacedAt(a, k, pos + 1 + i, fs[1..][i])
      {
        assert PlacedAt(a, k, pos + (i + 1), fs[i + 1]);
      }
      Assemble(a, k, fs[1..], pos + 1, base + FileSizeAll(fs[0].children));
    }
  }

  lemma NoBlocks(pos: nat)
    ensures BlockSize(DirBlocks([], pos)) == 0
  {
  }
}
