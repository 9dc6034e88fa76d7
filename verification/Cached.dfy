/** The cached driver: all inodes loaded into memory and attached to their parents through shared pointers. */
module Cached {
  import opened Wrappers
  import opened Bytes
  import opened Nodes
  import opened Flatten
  import opened Layout
  import opened Direct
  import opened Readback

  /** A loaded inode behind an `Arc`: its children, as positions in the order of loading, and how many pointers to it
      there are. */
  datatype CachedInode = CachedInode(entry: Entry, child: seq<nat>, strong: nat)

  predicate IsHardlink(inode: Inode) {
    !inode.kind.Dir? && inode.nlink > 1
  }

  // ----- sorted children -----

  function NamesOf(heap: seq<CachedInode>, id: nat): Name {
    if id < |heap| then heap[id].entry.name else []
  }

  function InsertChild(heap: seq<CachedInode>, id: nat, ids: seq<nat>): (r: seq<nat>)
    ensures multiset(r) == multiset{id} + multiset(ids)
  {
    if ids == [] then [id]
    else if Less(NamesOf(heap, ids[0]), NamesOf(heap, id)) then
      assert ids == [ids[0]] + ids[1..];
      [ids[0]] + InsertChild(heap, id, ids[1..])
    else [id] + ids
  }

  /** The sort of `add_child`. */
  function SortChildren(heap: seq<CachedInode>, ids: seq<nat>): (r: seq<nat>)
    ensures multiset(r) == multiset(ids)
  {
    if ids == [] then [] else
      assert ids == [ids[0]] + ids[1..];
      InsertChild(heap, ids[0], SortChildren(heap, ids[1..]))
  }

  ghost predicate NameOrder(es: seq<Entry>, ids: seq<nat>) {
    && (forall i :: 0 <= i < |ids| ==> ids[i] < |es|)
    && forall i, j :: 0 <= i < j < |ids| ==> Less(es[ids[i]].name, es[ids[j]].name)
  }

  /** The heap holds the first of the records `es`. */
  ghost predicate HeapOf(heap: seq<CachedInode>, es: seq<Entry>) {
    |heap| <= |es| && forall q :: 0 <= q < |heap| ==> heap[q].entry == es[q]
  }

  ghost predicate Inside(ids: seq<nat>, n: nat) {
    forall i :: 0 <= i < |ids| ==> ids[i] < n
  }

  ghost predicate Apart(es: seq<Entry>, ids: seq<nat>) {
    && Inside(ids, |es|)
    && forall i, j :: 0 <= i < j < |ids| ==> es[ids[i]].name != es[ids[j]].name
  }

  lemma InsertMembers(heap: seq<CachedInode>, id: nat, ids: seq<nat>, x: nat)
    requires x in InsertChild(heap, id, ids)
    ensures x == id || x in ids
  {
    assert x in multiset(InsertChild(heap, id, ids));
  }

  lemma ConsOrders(es: seq<Entry>, id: nat, ids: seq<nat>)
    requires id < |es| && NameOrder(es, ids) && forall j :: 0 <= j < |ids| ==> Less(es[id].name, es[ids[j]].name)
    ensures NameOrder(es, [id] + ids)
  {
    hide Less;
  }

  lemma TailOrders(es: seq<Entry>, ids: seq<nat>)
    requires NameOrder(es, ids) && ids != []
    ensures NameOrder(es, ids[1..]) && ids[0] < |es|
    ensures forall j :: 0 <= j < |ids[1..]| ==> ids[1..][j] < |es| && Less(es[ids[0]].name, es[ids[1..][j]].name)
  {
    hide Less;
  }

  lemma {:induction false} InsertOrders(heap: seq<CachedInode>, es: seq<Entry>, id: nat, ids: seq<nat>)
    requires HeapOf(heap, es) && id < |heap| && Inside(ids, |heap|) && NameOrder(es, ids)
    requires forall i :: 0 <= i < |ids| ==> es[ids[i]].name != es[id].name
    ensures NameOrder(es, InsertChild(heap, id, ids))
  {
    hide Less, NameOrder;
    if ids == [] {
      NothingOrders(es);
      ConsOrders(es, id, []);
      assert [id] + [] == [id];
    } else {
      TailOrders(es, ids);
      if Less(NamesOf(heap, ids[0]), NamesOf(heap, id)) {
        InsertOrders(heap, es, id, ids[1..]);
        var rest := InsertChild(heap, id, ids[1..]);
        InsertedInside(heap, es, id, ids[1..]);
        forall j | 0 <= j < |rest|
          ensures Less(es[ids[0]].name, es[rest[j]].name)
        {
          InsertMembers(heap, id, ids[1..], rest[j]);
        }
        ConsOrders(es, ids[0], rest);
      } else {
        LessTotal(es[id].name, es[ids[0]].name);
        forall j | 0 <= j < |ids|
          ensures Less(es[id].name, es[ids[j]].name)
        {
          if j > 0 {
            assert ids[j] == ids[1..][j - 1];
            LessTransitive(es[id].name, es[ids[0]].name, es[ids[j]].name);
          }
        }
        ConsOrders(es, id, ids);
      }
    }
  }

  lemma NothingOrders(es: seq<Entry>)
    ensures NameOrder(es, [])
  {
  }

  lemma InsertedInside(heap: seq<CachedInode>, es: seq<Entry>, id: nat, ids: seq<nat>)
    requires id < |es| && Inside(ids, |es|)
    ensures Inside(InsertChild(heap, id, ids), |es|)
  {
    hide InsertChild;
    var r := InsertChild(heap, id, ids);
    forall i | 0 <= i < |r|
      ensures r[i] < |es|
    {
      InsertMembers(heap, id, ids, r[i]);
    }
  }

  lemma SortMembers(heap: seq<CachedInode>, ids: seq<nat>, x: nat)
    ensures x in SortChildren(heap, ids) <==> x in ids
    ensures |SortChildren(heap, ids)| == |ids|
  {
    assert x in multiset(SortChildren(heap, ids)) <==> x in multiset(ids);
    assert |multiset(SortChildren(heap, ids))| == |multiset(ids)|;
  }

  lemma {:induction false} SortOrders(heap: seq<CachedInode>, es: seq<Entry>, ids: seq<nat>)
    requires HeapOf(heap, es) && Inside(ids, |heap|) && Apart(es, ids)
    ensures NameOrder(es, SortChildren(heap, ids)) && Inside(SortChildren(heap, ids), |heap|)
  {
    hide Less, InsertChild;
    if ids != [] {
      SortOrders(heap, es, ids[1..]);
      var rest := SortChildren(heap, ids[1..]);
      forall i | 0 <= i < |rest|
        ensures es[rest[i]].name != es[ids[0]].name && rest[i] < |heap|
      {
        SortMembers(heap, ids[1..], rest[i]);
      }
      InsertOrders(heap, es, ids[0], rest);
      forall i | 0 <= i < |SortChildren(heap, ids)|
        ensures SortChildren(heap, ids)[i] < |heap|
      {
        SortMembers(heap, ids, SortChildren(heap, ids)[i]);
      }
    }
  }

  /** There is only one order by name. */
  lemma {:induction false} OrderIsUnique(es: seq<Entry>, a: seq<nat>, b: seq<nat>)
    requires NameOrder(es, a) && NameOrder(es, b) && forall x :: x in a <==> x in b
    ensures a == b
  {
    hide Less;
    if a == [] {
      if b != [] { SameFirst(es, b, a); }
    } else {
      SameFirst(es, a, b);
      RestAgrees(es, a, b);
      OrderIsUnique(es, a[1..], b[1..]);
      assert a == [a[0]] + a[1..] && b == [b[0]] + b[1..];
    }
  }

  lemma SameFirst(es: seq<Entry>, a: seq<nat>, b: seq<nat>)
    requires NameOrder(es, a) && NameOrder(es, b) && a != [] && forall x :: x in a <==> x in b
    ensures b != [] && a[0] == b[0]
  {
    hide Less;
    assert a[0] in b && b[0] in a;
    var i :| 0 <= i < |b| && b[i] == a[0];
    var j :| 0 <= j < |a| && a[j] == b[0];
    if i > 0 && j > 0 {
      LessAsymmetric(es[a[0]].name, es[b[0]].name);
    }
  }

  lemma RestAgrees(es: seq<Entry>, a: seq<nat>, b: seq<nat>)
    requires NameOrder(es, a) && NameOrder(es, b) && a != [] && b != [] && a[0] == b[0]
    requires forall x :: x in a <==> x in b
    ensures forall x :: x in a[1..] <==> x in b[1..]
  {
    hide Less;
    forall x
      ensures x in a[1..] <==> x in b[1..]
    {
      TailMembers(es, a, x);
      TailMembers(es, b, x);
    }
  }

  lemma TailMembers(es: seq<Entry>, a: seq<nat>, x: nat)
    requires NameOrder(es, a) && a != []
    ensures x in a[1..] <==> x in a && x != a[0]
  {
    hide Less;
    assert a == [a[0]] + a[1..];
    if a[0] in a[1..] {
      var j :| 0 <= j < |a[1..]| && a[1..][j] == a[0];
      assert a[j + 1] == a[0];
      LessIrreflexive(es[a[0]].name);
    }
  }

  // ----- what holds while inodes are attached -----

  /** The entries of an image, hard links included: the number of a directory is its position and no other entry's, and
      every entry but the root's is in the range of an earlier directory, whose children have distinct names and name it
      as their parent. */
  ghost predicate TreeOrder(es: seq<Entry>) {
    && es != [] && es[0].inode.kind.Dir? && es[0].inode.parent == 0
    && (forall q :: 0 <= q < |es| ==> NumberedAs(es, q))
    && (forall c :: 1 <= c < |es| ==> HasParent(es, c))
    && (forall q :: 0 <= q < |es| ==> OwnsRange(es, q))
  }

  predicate NumberedAs(es: seq<Entry>, q: nat)
    requires q < |es|
  {
    var ino := es[q].inode.ino;
    if es[q].inode.kind.Dir? then ino == q + 1 else 1 <= ino <= |es| && !es[ino - 1].inode.kind.Dir?
  }

  ghost predicate HasParent(es: seq<Entry>, c: nat)
    requires c < |es|
  {
    var p := es[c].inode.parent - 1;
    && 0 <= p < c && es[p].inode.kind.Dir?
    && es[p].inode.childIndex - 1 <= c < es[p].inode.childIndex - 1 + es[p].inode.childCount
  }

  ghost predicate OwnsRange(es: seq<Entry>, q: nat)
    requires q < |es|
  {
    es[q].inode.kind.Dir? ==>
      && q + 1 < es[q].inode.childIndex && es[q].inode.childIndex - 1 + es[q].inode.childCount <= |es|
      && NameOrder(es, Range(es[q].inode.childIndex - 1, es[q].inode.childCount))
      && forall c :: es[q].inode.childIndex - 1 <= c < es[q].inode.childIndex - 1 + es[q].inode.childCount ==>
           es[c].inode.parent == q + 1
  }

  function Range(lo: nat, n: nat): (r: seq<nat>)
    ensures |r| == n && forall i :: 0 <= i < n ==> r[i] == lo + i
  {
    seq(n, i => lo + i)
  }

  /** Entry `c` is attached once the first `i` entries are loaded and the directories from `j` on are attached. */
  predicate Attached(es: seq<Entry>, i: nat, j: nat, c: nat) {
    1 <= c < i && c < |es| && (es[c].inode.kind.Dir? ==> c >= j)
  }

  ghost predicate NoDup(s: seq<nat>) {
    forall i, j :: 0 <= i < j < |s| ==> s[i] != s[j]
  }

  /** The children pushed to `q` so far: those attached, each once, and in name order once all are there. */
  ghost predicate ChildrenSoFar(es: seq<Entry>, i: nat, j: nat, q: nat, child: seq<nat>)
    requires q < |es|
  {
    && NoDup(child)
    && (forall c: nat :: c in child <==> Attached(es, i, j, c) && es[c].inode.parent == q + 1)
    && (|child| == es[q].inode.childCount ==> NameOrder(es, child))
  }

  /** Entry `q` is the one that the inode map has for its number. */
  predicate Entered(es: seq<Entry>, sInodes: map<nat, nat>, q: nat)
    requires q < |es|
  {
    es[q].inode.ino in sInodes && sInodes[es[q].inode.ino] == q
  }

  /** Inode `q` as it is then: one pointer to it in the inode map, if it is entered, and one in its parent once
      attached. */
  ghost predicate Loaded(es: seq<Entry>, i: nat, j: nat, q: nat, o: CachedInode, sInodes: map<nat, nat>)
    requires q < |es|
  {
    && o.entry == es[q] && ChildrenSoFar(es, i, j, q, o.child)
    && o.strong == (if Entered(es, sInodes, q) then 1 else 0) + (if Attached(es, i, j, q) then 1 else 0)
  }

  /** The first `k` entries are loaded, and of those before `i` all but the directories before `j` are attached. */
  ghost predicate Loading(es: seq<Entry>, k: nat, i: nat, j: nat, heap: seq<CachedInode>, sInodes: map<nat, nat>) {
    && k == |heap| <= |es|
    && Numbers(es, sInodes, k)
    && (forall q :: 0 <= q < k ==> Loaded(es, i, j, q, heap[q], sInodes))
  }

  /** The inode map has exactly the numbers of the first `k` entries, for each one of the entries that have it. */
  ghost predicate Numbers(es: seq<Entry>, sInodes: map<nat, nat>, k: nat)
    requires k <= |es|
  {
    && (forall ino :: ino in sInodes ==> sInodes[ino] < k && es[sInodes[ino]].inode.ino == ino)
    && (forall q :: 0 <= q < k ==> es[q].inode.ino in sInodes)
  }

  lemma TreeFacts(es: seq<Entry>, c: nat)
    requires TreeOrder(es) && c < |es|
    ensures NumberedAs(es, c) && OwnsRange(es, c) && (es[c].inode.kind.Dir? ==> es[c].inode.ino == c + 1)
    ensures c > 0 ==> HasParent(es, c)
    ensures c == 0 ==> es[c].inode.kind.Dir? && es[c].inode.parent == 0
  {
    hide OwnsRange, HasParent;
  }

  /** A new inode has no children yet. */
  lemma NoChildrenYet(es: seq<Entry>, q: nat, j: nat)
    requires TreeOrder(es) && q < |es|
    ensures ChildrenSoFar(es, q, j, q, [])
  {
    hide OwnsRange, TreeOrder;
    TreeFacts(es, q);
    forall c: nat | Attached(es, q, j, c)
      ensures es[c].inode.parent != q + 1
    {
      TreeFacts(es, c);
    }
  }

  /** Attaching nothing new to an inode leaves it as it is. */
  lemma LoadedStays(es: seq<Entry>, i: nat, j: nat, i': nat, j': nat, q: nat, o: CachedInode, sInodes: map<nat, nat>)
    requires q < |es| && Loaded(es, i, j, q, o, sInodes)
    requires forall c: nat :: c < |es| && (c == q || es[c].inode.parent == q + 1) ==>
               (Attached(es, i, j, c) <==> Attached(es, i', j', c))
    ensures Loaded(es, i', j', q, o, sInodes)
  {
    hide NameOrder;
    forall c: nat
      ensures c in o.child <==> Attached(es, i', j', c) && es[c].inode.parent == q + 1
    {
    }
  }

  /** A directory is entered under its number. */
  lemma DirEntered(es: seq<Entry>, k: nat, sInodes: map<nat, nat>, q: nat)
    requires TreeOrder(es) && k <= |es| && Numbers(es, sInodes, k) && q < k && es[q].inode.kind.Dir?
    ensures q + 1 in sInodes && sInodes[q + 1] == q && Entered(es, sInodes, q)
  {
    hide TreeOrder;
    TreeFacts(es, q);
    TreeFacts(es, sInodes[q + 1]);
  }

  /** The number of the root's parent is nobody's. */
  lemma ZeroNotEntered(es: seq<Entry>, k: nat, sInodes: map<nat, nat>)
    requires TreeOrder(es) && k <= |es| && Numbers(es, sInodes, k)
    ensures 0 !in sInodes
  {
    hide TreeOrder;
    if 0 in sInodes { TreeFacts(es, sInodes[0]); }
  }

  /** What `hash_inode` does to the heap, whose last inode is new, and to the map. */
  function HashedMap(heap: seq<CachedInode>, sInodes: map<nat, nat>): map<nat, nat>
    requires heap != []
  {
    var n := |heap| - 1;
    var inode := heap[n].entry.inode;
    if KeepsOld(heap, sInodes) then sInodes else sInodes[inode.ino := n]
  }

  /** The new inode is a link to one whose data is loaded. */
  predicate KeepsOld(heap: seq<CachedInode>, sInodes: map<nat, nat>)
    requires heap != []
  {
    var inode := heap[|heap| - 1].entry.inode;
    && IsHardlink(inode) && inode.ino in sInodes && sInodes[inode.ino] < |heap|
    && heap[sInodes[inode.ino]].entry.chunks != []
  }

  /** One pointer less, if there is one. */
  function Less1(o: CachedInode): CachedInode {
    if o.strong > 0 then o.(strong := o.strong - 1) else o
  }

  function HashedHeap(heap: seq<CachedInode>, sInodes: map<nat, nat>): (r: seq<CachedInode>)
    requires heap != []
    ensures |r| == |heap|
  {
    var n := |heap| - 1;
    var ino := heap[n].entry.inode.ino;
    if KeepsOld(heap, sInodes) then heap
    else
      var without := if ino in sInodes && sInodes[ino] < n then heap[sInodes[ino] := Less1(heap[sInodes[ino]])]
          else heap;
      without[n := without[n].(strong := without[n].strong + 1)]
  }

  /** The next entry is loaded, and in no parent yet. */
  lemma NextLoaded(es: seq<Entry>, i: nat, heap: seq<CachedInode>, sInodes: map<nat, nat>)
    requires TreeOrder(es) && Loading(es, i, i, |es|, heap, sInodes) && i < |es|
    ensures var next := heap + [CachedInode(es[i], [], 1)];
            Holding(es, i + 1, i, |es|, HashedHeap(next, sInodes), HashedMap(next, sInodes), i)
  {
    hide TreeOrder, ChildrenSoFar, KeepsOld;
    NoChildrenYet(es, i, |es|);
    var next := heap + [CachedInode(es[i], [], 1)];
    var heap', numbers := HashedHeap(next, sInodes), HashedMap(next, sInodes);
    HashedNumbers(es, i, next, sInodes);
    var h := heap'[i := heap'[i].(strong := heap'[i].strong - 1)];
    forall q | 0 <= q < i + 1
      ensures Loaded(es, i, |es|, q, h[q], numbers)
    {
      if q < i { assert Loaded(es, i, |es|, q, heap[q], sInodes); }
    }
  }

  lemma HashedNumbers(es: seq<Entry>, i: nat, next: seq<CachedInode>, sInodes: map<nat, nat>)
    requires i < |es| && Numbers(es, sInodes, i) && |next| == i + 1 && next[i].entry == es[i]
    ensures Numbers(es, HashedMap(next, sInodes), i + 1)
    ensures forall q :: 0 <= q < i ==>
              (Entered(es, HashedMap(next, sInodes), q) <==>
                 Entered(es, sInodes, q) && (es[q].inode.ino != es[i].inode.ino || KeepsOld(next, sInodes)))
    ensures Entered(es, HashedMap(next, sInodes), i) <==> !KeepsOld(next, sInodes)
  {
  }

  /** A directory waits for its children. */
  lemma DirWaits(es: seq<Entry>, i: nat, heap: seq<CachedInode>, sInodes: map<nat, nat>)
    requires Loading(es, i + 1, i, |es|, heap, sInodes) && i < |es| && es[i].inode.kind.Dir?
    ensures Loading(es, i + 1, i + 1, |es|, heap, sInodes)
  {
    hide Loaded, Numbers;
    forall q | 0 <= q < i + 1
      ensures Loaded(es, i + 1, |es|, q, heap[q], sInodes)
    {
      LoadedStays(es, i, |es|, i + 1, |es|, q, heap[q], sInodes);
    }
  }

  /** The children of `p` with `c` pushed, sorted if they are then complete. */
  function Pushed(heap: seq<CachedInode>, p: nat, c: nat): seq<nat>
    requires p < |heap|
  {
    var child := heap[p].child + [c];
    if |child| == heap[p].entry.inode.childCount then SortChildren(heap, child) else child
  }

  /** Different children of a directory have different names. */
  lemma SiblingNames(es: seq<Entry>, q: nat, c: nat, d: nat)
    requires TreeOrder(es) && q < |es| && 1 <= c < d < |es|
    requires es[c].inode.parent == q + 1 && es[d].inode.parent == q + 1
    ensures es[c].name != es[d].name
  {
    hide TreeOrder, Less;
    TreeFacts(es, c);
    TreeFacts(es, d);
    TreeFacts(es, q);
    var lo, r := es[q].inode.childIndex - 1, Range(es[q].inode.childIndex - 1, es[q].inode.childCount);
    assert r[c - lo] == c && r[d - lo] == d;
    LessIrreflexive(es[c].name);
  }

  lemma ChildrenApart(es: seq<Entry>, q: nat, child: seq<nat>)
    requires TreeOrder(es) && q < |es| && NoDup(child)
    requires forall x: nat :: x in child ==> 1 <= x < |es| && es[x].inode.parent == q + 1
    ensures Apart(es, child)
  {
    hide TreeOrder;
    forall x | 0 <= x < |child|
      ensures child[x] < |es|
    {
      assert child[x] in child;
    }
    forall x, y | 0 <= x < y < |child|
      ensures es[child[x]].name != es[child[y]].name
    {
      assert child[x] in child && child[y] in child;
      if child[x] < child[y] {
        SiblingNames(es, q, child[x], child[y]);
      } else {
        SiblingNames(es, q, child[y], child[x]);
      }
    }
  }

  lemma {:induction false} SortedNoDup(heap: seq<CachedInode>, ids: seq<nat>)
    requires NoDup(ids)
    ensures NoDup(SortChildren(heap, ids))
  {
    NoDupMultiset(ids);
    MultisetNoDup(SortChildren(heap, ids));
  }

  lemma {:induction false} NoDupMultiset(ids: seq<nat>)
    requires NoDup(ids)
    ensures forall x :: multiset(ids)[x] <= 1
  {
    if ids != [] {
      NoDupMultiset(ids[1..]);
      assert ids == [ids[0]] + ids[1..];
      assert ids[0] !in ids[1..];
    }
  }

  lemma {:induction false} MultisetNoDup(ids: seq<nat>)
    requires forall x :: multiset(ids)[x] <= 1
    ensures NoDup(ids)
  {
    if ids != [] {
      assert ids == [ids[0]] + ids[1..];
      forall x
        ensures multiset(ids[1..])[x] <= 1
      {
        assert multiset(ids)[x] >= multiset(ids[1..])[x];
      }
      MultisetNoDup(ids[1..]);
      assert multiset(ids)[ids[0]] == 1 + multiset(ids[1..])[ids[0]];
      assert ids[0] !in ids[1..];
    }
  }

  /** Entry `c` is what is attached between the two stages. */
  ghost predicate AttachesOne(es: seq<Entry>, i: nat, j: nat, i': nat, j': nat, c: nat) {
    && 1 <= c < |es| && !Attached(es, i, j, c)
    && forall x: nat :: Attached(es, i', j', x) <==> Attached(es, i, j, x) || x == c
  }

  lemma ChildPushed(es: seq<Entry>, i: nat, j: nat, i': nat, j': nat, heap: seq<CachedInode>, q: nat, c: nat)
    requires TreeOrder(es) && HeapOf(heap, es) && AttachesOne(es, i, j, i', j', c)
    requires q < c < |heap| && es[c].inode.parent == q + 1 && ChildrenSoFar(es, i, j, q, heap[q].child)
    requires forall x: nat :: Attached(es, i', j', x) ==> x < |heap|
    ensures ChildrenSoFar(es, i', j', q, Pushed(heap, q, c))
  {
    hide TreeOrder, Attached, NameOrder, SortChildren;
    var child := heap[q].child + [c];
    assert c !in heap[q].child;
    forall x: nat
      ensures x in child <==> Attached(es, i', j', x) && es[x].inode.parent == q + 1
    {
    }
    forall x: nat | x in child
      ensures 1 <= x < |es| && x < |heap|
    {
      AttachedInside(es, i', j', x);
    }
    if |child| == heap[q].entry.inode.childCount {
      ChildrenApart(es, q, child);
      assert Inside(child, |heap|) by {
        forall x | 0 <= x < |child| ensures child[x] < |heap| { assert child[x] in child; }
      }
      SortOrders(heap, es, child);
      SortedNoDup(heap, child);
      forall x: nat
        ensures x in SortChildren(heap, child) <==> x in child
      {
        SortMembers(heap, child, x);
      }
    }
  }

  lemma AttachedInside(es: seq<Entry>, i: nat, j: nat, x: nat)
    requires Attached(es, i, j, x)
    ensures 1 <= x < |es|
  {
  }

  /** One pointer more to entry `c` is held; everything else is as in `Loading`. */
  ghost predicate Holding(es: seq<Entry>, k: nat, i: nat, j: nat, heap: seq<CachedInode>, sInodes: map<nat, nat>,
      c: nat) {
    && k == |heap| <= |es| && c < k && heap[c].strong >= 1
    && Loading(es, k, i, j, heap[c := heap[c].(strong := heap[c].strong - 1)], sInodes)
  }

  lemma HoldingHeap(es: seq<Entry>, k: nat, i: nat, j: nat, heap: seq<CachedInode>, sInodes: map<nat, nat>, c: nat)
    requires Holding(es, k, i, j, heap, sInodes, c)
    ensures HeapOf(heap, es)
    ensures forall q :: 0 <= q < k ==> ChildrenSoFar(es, i, j, q, heap[q].child)
    ensures forall q :: 0 <= q < k && q != c ==> Loaded(es, i, j, q, heap[q], sInodes)
    ensures Loaded(es, i, j, c, heap[c].(strong := heap[c].strong - 1), sInodes) && Numbers(es, sInodes, k)
  {
    hide ChildrenSoFar, Numbers;
    var h := heap[c := heap[c].(strong := heap[c].strong - 1)];
    forall q | 0 <= q < k
      ensures heap[q].entry == es[q] && ChildrenSoFar(es, i, j, q, heap[q].child) && (q != c ==> heap[q] == h[q])
    {
      assert Loaded(es, i, j, q, h[q], sInodes);
    }
    assert h[c] == heap[c].(strong := heap[c].strong - 1) && Loaded(es, i, j, c, h[c], sInodes);
  }

  /** The parent of a held entry is not shared, so it can be changed through its pointer. */
  lemma ParentUnshared(es: seq<Entry>, k: nat, i: nat, j: nat, heap: seq<CachedInode>, sInodes: map<nat, nat>, c: nat)
    requires TreeOrder(es) && Holding(es, k, i, j, heap, sInodes, c) && c >= 1
    requires c < j
    ensures var p := es[c].inode.parent - 1;
            && 0 <= p < c && p + 1 in sInodes && sInodes[p + 1] == p && heap[p].strong == 1
            && heap[c].entry.inode.parent == p + 1 && heap[p].entry == es[p]
  {
    hide TreeOrder, ChildrenSoFar, Numbers;
    HoldingHeap(es, k, i, j, heap, sInodes, c);
    TreeFacts(es, c);
    DirEntered(es, k, sInodes, es[c].inode.parent - 1);
  }

  /** Attaching a held entry to its parent. */
  lemma AttachStep(es: seq<Entry>, k: nat, i: nat, j: nat, i': nat, j': nat, heap: seq<CachedInode>,
      sInodes: map<nat, nat>, c: nat)
    requires TreeOrder(es) && Holding(es, k, i, j, heap, sInodes, c) && AttachesOne(es, i, j, i', j', c)
    requires c < j && i' <= k
    ensures var p := es[c].inode.parent - 1;
            0 <= p < |heap| && Loading(es, k, i', j', heap[p := heap[p].(child := Pushed(heap, p, c))], sInodes)
  {
    hide TreeOrder, ChildrenSoFar, Pushed, Numbers, Loading;
    HoldingHeap(es, k, i, j, heap, sInodes, c);
    ParentUnshared(es, k, i, j, heap, sInodes, c);
    var p := es[c].inode.parent - 1;
    var heap' := heap[p := heap[p].(child := Pushed(heap, p, c))];
    ChildPushed(es, i, j, i', j', heap, p, c);
    forall q | 0 <= q < k
      ensures Loaded(es, i', j', q, heap'[q], sInodes)
    {
      if q != p { ChildrenKept(es, i, j, i', j', q, c, heap[q].child); }
    }
    LoadingWhole(es, k, i, j, i', j', heap, heap', sInodes, c);
  }

  lemma ChildrenKept(es: seq<Entry>, i: nat, j: nat, i': nat, j': nat, q: nat, c: nat, child: seq<nat>)
    requires q < |es| && c < |es| && ChildrenSoFar(es, i, j, q, child) && AttachesOne(es, i, j, i', j', c)
    requires es[c].inode.parent != q + 1
    ensures ChildrenSoFar(es, i', j', q, child)
  {
    hide NameOrder;
    forall x: nat
      ensures x in child <==> Attached(es, i', j', x) && es[x].inode.parent == q + 1
    {
    }
  }

  lemma LoadingWhole(es: seq<Entry>, k: nat, i: nat, j: nat, i': nat, j': nat, heap: seq<CachedInode>,
      heap': seq<CachedInode>,
                     sInodes: map<nat, nat>, c: nat)
    requires Holding(es, k, i, j, heap, sInodes, c) && |heap'| == |heap|
    requires forall q :: 0 <= q < k ==> Loaded(es, i', j', q, heap'[q], sInodes)
    ensures Loading(es, k, i', j', heap', sInodes)
  {
    hide Loaded, Numbers;
  }

  /** A file is attached as soon as it is loaded. */
  lemma FileAttaches(es: seq<Entry>, i: nat)
    requires 1 <= i < |es| && !es[i].inode.kind.Dir?
    ensures AttachesOne(es, i, |es|, i + 1, |es|, i)
  {
  }

  /** The directories are attached from the last to the first. */
  lemma DirAttaches(es: seq<Entry>, c: nat, j: nat)
    requires 1 <= c < j <= |es| && es[c].inode.kind.Dir? && forall d :: c < d < j ==> !es[d].inode.kind.Dir?
    ensures AttachesOne(es, |es|, j, |es|, c, c)
  {
  }

  // ----- the two loops of `load_all_inodes` -----

  /** The numbers of the directories before `j`, in order. */
  ghost function Dirs(es: seq<Entry>, j: nat): seq<nat>
    requires j <= |es|
  {
    if j == 0 then [] else Dirs(es, j - 1) + if es[j - 1].inode.kind.Dir? then [es[j - 1].inode.ino] else []
  }

  /** The last of those directories, and those before it. */
  lemma {:induction false} LastDir(es: seq<Entry>, j: nat) returns (c: nat)
    requires j <= |es| && Dirs(es, j) != []
    ensures c < j && es[c].inode.kind.Dir? && forall d :: c < d < j ==> !es[d].inode.kind.Dir?
    ensures Dirs(es, j) == Dirs(es, c) + [es[c].inode.ino]
  {
    c := j - 1;
    if !es[j - 1].inode.kind.Dir? {
      c := LastDir(es, j - 1);
    }
  }

  lemma {:induction false} NoDirs(es: seq<Entry>, j: nat)
    requires j <= |es| && Dirs(es, j) == []
    ensures forall d :: 0 <= d < j ==> !es[d].inode.kind.Dir?
  {
    if j > 0 { NoDirs(es, j - 1); }
  }

  /** The driver refuses symbolic links without a target. */
  ghost predicate LinksHaveTargets(es: seq<Entry>) {
    forall q :: 0 <= q < |es| && es[q].inode.kind.Symlink? ==> es[q].symlink.Some? && es[q].symlink.value != []
  }

  lemma LoadingStart(es: seq<Entry>)
    ensures Loading(es, 0, 0, |es|, [], map[])
  {
  }

  /** A directory's second pointer. */
  lemma HoldOne(es: seq<Entry>, k: nat, i: nat, j: nat, heap: seq<CachedInode>, sInodes: map<nat, nat>, c: nat)
    requires TreeOrder(es) && Loading(es, k, i, j, heap, sInodes) && c < k && es[c].inode.kind.Dir?
    ensures c + 1 in sInodes && sInodes[c + 1] == c && heap[c].entry == es[c] && es[c].inode.ino == c + 1
    ensures Holding(es, k, i, j, heap[c := heap[c].(strong := heap[c].strong + 1)], sInodes, c) && 0 !in sInodes
  {
    hide TreeOrder, Numbers, ChildrenSoFar;
    TreeFacts(es, c);
    DirEntered(es, k, sInodes, c);
    ZeroNotEntered(es, k, sInodes);
    assert Loaded(es, i, j, c, heap[c], sInodes);
    var h := heap[c := heap[c].(strong := heap[c].strong + 1)];
    assert h[c := h[c].(strong := h[c].strong - 1)] == heap;
  }

  /** Giving the held pointer back. */
  lemma HeldDropped(es: seq<Entry>, k: nat, i: nat, j: nat, heap: seq<CachedInode>, sInodes: map<nat, nat>, c: nat)
    requires Holding(es, k, i, j, heap, sInodes, c)
    ensures Loading(es, k, i, j, heap[c := heap[c].(strong := heap[c].strong - 1)], sInodes)
  {
  }

  /** With no directories in between, nothing else has been attached. */
  lemma NothingBetween(es: seq<Entry>, k: nat, j: nat, j': nat, heap: seq<CachedInode>, sInodes: map<nat, nat>)
    requires Loading(es, k, |es|, j, heap, sInodes) && j' <= j
    requires forall d: nat :: 1 <= d < |es| && j' <= d < j ==> !es[d].inode.kind.Dir?
    ensures Loading(es, k, |es|, j', heap, sInodes)
  {
    hide Numbers, Loaded;
    forall q | 0 <= q < k
      ensures Loaded(es, |es|, j', q, heap[q], sInodes)
    {
      LoadedStays(es, |es|, j, |es|, j', q, heap[q], sInodes);
    }
  }

  // ----- once everything is attached -----

  lemma {:induction false} NoDupBounded(s: seq<nat>, lo: nat, hi: nat)
    requires NoDup(s) && lo <= hi && forall x: nat :: x in s <==> lo <= x < hi
    ensures |s| == hi - lo
    decreases hi - lo
  {
    if s == [] {
      if lo < hi { NotEmpty(s, lo); }
    } else if lo == hi {
      NotEmpty(s, s[0]);
    } else {
      assert hi - 1 in s;
      var i :| 0 <= i < |s| && s[i] == hi - 1;
      var t := s[..i] + s[i + 1..];
      forall x: nat
        ensures x in t <==> lo <= x < hi - 1
      {
        Removed(s, i, x);
      }
      RemovedNoDup(s, i);
      NoDupBounded(t, lo, hi - 1);
    }
  }

  lemma NotEmpty(s: seq<nat>, x: nat)
    ensures x in s ==> s != []
    ensures s != [] ==> s[0] in s
  {
  }

  lemma Removed(s: seq<nat>, i: nat, x: nat)
    requires NoDup(s) && i < |s|
    ensures x in s[..i] + s[i + 1..] <==> x in s && x != s[i]
  {
    var t := s[..i] + s[i + 1..];
    if x in s && x != s[i] {
      var j :| 0 <= j < |s| && s[j] == x;
      assert x == t[if j < i then j else j - 1];
    }
  }

  lemma RemovedNoDup(s: seq<nat>, i: nat)
    requires NoDup(s) && i < |s|
    ensures NoDup(s[..i] + s[i + 1..])
  {
  }

  /** A loaded directory has its whole range as children, in order; nothing else has children. */
  lemma FinalChildren(es: seq<Entry>, heap: seq<CachedInode>, sInodes: map<nat, nat>, q: nat)
    requires TreeOrder(es) && Loading(es, |es|, |es|, 0, heap, sInodes) && q < |es|
    ensures heap[q].entry == es[q] && (es[q].inode.kind.Dir? ==> es[q].inode.childIndex >= 1)
    ensures heap[q].child == if es[q].inode.kind.Dir? then Range(es[q].inode.childIndex - 1, es[q].inode.childCount)
              else []
  {
    hide TreeOrder, NameOrder, Numbers;
    TreeFacts(es, q);
    assert Loaded(es, |es|, 0, q, heap[q], sInodes);
    var child := heap[q].child;
    if es[q].inode.kind.Dir? {
      var lo, n := es[q].inode.childIndex - 1, es[q].inode.childCount;
      forall x: nat
        ensures x in child <==> lo <= x < lo + n
      {
        if 1 <= x < |es| { TreeFacts(es, x); }
      }
      NoDupBounded(child, lo, lo + n);
      forall x: nat
        ensures x in child <==> x in Range(lo, n)
      {
        assert lo <= x < lo + n ==> Range(lo, n)[x - lo] == x;
      }
      OrderIsUnique(es, child, Range(lo, n));
    } else {
      forall x: nat
        ensures x !in child
      {
        if 1 <= x < |es| { TreeFacts(es, x); }
      }
      NotEmpty(child, if child == [] then 0 else child[0]);
    }
  }

  class CachedInodes {
    var heap: seq<CachedInode>
    var sInodes: map<nat, nat>

    constructor ()
      ensures heap == [] && sInodes == map[]
    {
      heap, sInodes := [], map[];
    }

    /** One pointer to the inode is dropped. */
    method Drop(id: nat)
      requires id < |heap| && heap[id].strong > 0
      modifies this`heap
      ensures heap == old(heap)[id := old(heap)[id].(strong := old(heap)[id].strong - 1)]
    {
      heap := heap[id := heap[id].(strong := heap[id].strong - 1)];
    }

    /** `hash_inode`, for the inode just allocated: a link to an inode whose data is loaded is not entered again, and
        any other takes the place of what its number had. The caller holds one pointer to the result. */
    method HashInode(id: nat) returns (r: nat)
      requires |heap| == id + 1 && heap[id].strong == 1 && forall ino :: ino in sInodes ==> sInodes[ino] < id
      modifies this
      ensures r == id && heap == HashedHeap(old(heap), old(sInodes)) && sInodes == HashedMap(old(heap), old(sInodes))
      ensures heap[id].strong > 0 && heap[id].entry == old(heap)[id].entry
      ensures forall ino :: ino in sInodes ==> sInodes[ino] <= id
      ensures var i, before := old(heap)[id].entry.inode, old(sInodes);
              sInodes == if !i.kind.Dir? && i.nlink > 1 && i.ino in before
                            && |old(heap)[before[i.ino]].entry.chunks| > 0
                         then before else before[i.ino := id]
    {
      var ino := heap[id].entry.inode.ino;
      if IsHardlink(heap[id].entry.inode) && ino in sInodes && heap[sInodes[ino]].entry.chunks != [] {
        return id;
      }
      if ino in sInodes && heap[sInodes[ino]].strong > 0 {
        Drop(sInodes[ino]);
      }
      sInodes := sInodes[ino := id];
      heap := heap[id := heap[id].(strong := heap[id].strong + 1)];
      r := id;
    }

    /** `add_into_parent`, which consumes the caller's pointer to the child. It panics, here an error, when the parent
        is shared. */
    method AddIntoParent(id: nat) returns (r: Result<()>)
      requires id < |heap| && heap[id].strong > 0
      requires forall ino :: ino in sInodes ==> sInodes[ino] < |heap|
      modifies this`heap
      ensures |heap| == |old(heap)|
      ensures var parent := old(heap)[id].entry.inode.parent;
              && (parent !in sInodes ==>
                    r == Ok(()) && heap == old(heap)[id := old(heap)[id].(strong := old(heap)[id].strong - 1)])
              && (parent in sInodes ==>
                    var p := sInodes[parent];
                    if old(heap)[p].strong == 1 then
                      r == Ok(()) && heap == old(heap)[p := old(heap)[p].(child := Pushed(old(heap), p, id))]
                    else r == Err(Other) && heap == old(heap))
    {
      var parent := heap[id].entry.inode.parent;
      if parent in sInodes {
        var p := sInodes[parent];
        if heap[p].strong != 1 {
          return Err(Other);
        }
        var child := heap[p].child + [id];
        if |child| == heap[p].entry.inode.childCount {
          child := SortChildren(heap, child);
        }
        heap := heap[p := heap[p].(child := child)];
        heap := heap[id := heap[id].(strong := heap[id].strong + 1)];
      }
      Drop(id);
      r := Ok(());
    }

    /** One round of the first loop of `load_all_inodes`: allocate, enter and, unless it is a directory, attach. */
    method LoadOne(e: Entry, dirInos: seq<nat>, ghost es: seq<Entry>) returns (r: Result<seq<nat>>)
      requires forall ino :: ino in sInodes ==> sInodes[ino] < |heap|
      modifies this
      ensures |heap| == |old(heap)| + 1 && forall ino :: ino in sInodes ==> sInodes[ino] < |heap|
      ensures var i := |old(heap)|;
              TreeOrder(es) && i < |es| && e == es[i] && Loading(es, i, i, |es|, old(heap), old(sInodes)) ==>
                && r == Ok(dirInos + if e.inode.kind.Dir? then [e.inode.ino] else [])
                && Loading(es, i + 1, i + 1, |es|, heap, sInodes)
    {
      hide TreeOrder, Loading, Loaded, Holding, Numbers, Pushed, HeapOf, HashedHeap, HashedMap;
      ghost var i := |heap|;
      ghost var sound := TreeOrder(es) && i < |es| && e == es[i] && Loading(es, i, i, |es|, heap, sInodes);
      if sound { NextLoaded(es, i, heap, sInodes); }
      heap := heap + [CachedInode(e, [], 1)];
      var child := HashInode(|heap| - 1);
      if e.inode.kind.Dir? {
        if sound { HeldDropped(es, i + 1, i, |es|, heap, sInodes, i); }
        Drop(child);
        if sound { DirWaits(es, i, heap, sInodes); }
        return Ok(dirInos + [e.inode.ino]);
      }
      if sound {
        TreeFacts(es, i);
        ParentUnshared(es, i + 1, i, |es|, heap, sInodes, i);
        FileAttaches(es, i);
        AttachStep(es, i + 1, i, |es|, i + 1, |es|, heap, sInodes, i);
      }
      var attached := AddIntoParent(child);
      if attached.Err? {
        return Err(attached.error);
      }
      r := Ok(dirInos + []);
    }

    /** One round of the second loop: attach the directory numbered `ino`. */
    method AttachDir(ino: nat, ghost es: seq<Entry>, ghost j: nat, ghost c: nat) returns (r: Result<()>)
      requires forall ino :: ino in sInodes ==> sInodes[ino] < |heap|
      modifies this`heap
      ensures |heap| == |old(heap)|
      ensures TreeOrder(es) && c < j <= |es| && es[c].inode.kind.Dir?
                && (forall d :: c < d < j ==> !es[d].inode.kind.Dir?)
              && ino == c + 1 && Loading(es, |es|, |es|, j, old(heap), sInodes) ==>
                r == Ok(()) && Loading(es, |es|, |es|, c, heap, sInodes)
    {
      hide TreeOrder, Loading, Loaded, Holding, Numbers, Pushed, HeapOf;
      ghost var sound := TreeOrder(es) && c < j <= |es| && es[c].inode.kind.Dir?
          && (forall d :: c < d < j ==> !es[d].inode.kind.Dir?)
                         && ino == c + 1 && Loading(es, |es|, |es|, j, heap, sInodes);
      ghost var before := heap;
      if sound {
        TreeFacts(es, c);
        LoadingSize(es, |es|, |es|, j, heap, sInodes);
        HoldOne(es, |es|, |es|, j, heap, sInodes, c);
      }
      if ino !in sInodes {
        return Err(Enoent);
      }
      var id := sInodes[ino];
      heap := heap[id := heap[id].(strong := heap[id].strong + 1)];
      if sound && c > 0 {
        ParentUnshared(es, |es|, |es|, j, heap, sInodes, c);
        DirAttaches(es, c, j);
        AttachStep(es, |es|, |es|, j, |es|, c, heap, sInodes, c);
      }
      r := AddIntoParent(id);
      if sound && c == 0 {
        assert heap == before;
        NothingBetween(es, |es|, j, 0, heap, sInodes);
      }
    }

    /** `load_all_inodes`, from the records in the order of the file. */
    method LoadAllInodes(es: seq<Entry>) returns (r: Result<()>)
      requires heap == [] && sInodes == map[]
      modifies this
      ensures TreeOrder(es) && LinksHaveTargets(es) ==> r == Ok(()) && Loading(es, |es|, |es|, 0, heap, sInodes)
      ensures TreeOrder(es) && !LinksHaveTargets(es) ==> r == Err(Einval)
    {
      hide TreeOrder, Loading;
      var dirInos := [];
      LoadingStart(es);
      for i := 0 to |es|
        invariant |heap| == i && forall ino :: ino in sInodes ==> sInodes[ino] < |heap|
        invariant TreeOrder(es) ==>
                    && Loading(es, i, i, |es|, heap, sInodes) && dirInos == Dirs(es, i)
                    && forall q :: 0 <= q < i && es[q].inode.kind.Symlink? ==>
                        es[q].symlink.Some? && es[q].symlink.value != []
      {
        if es[i].inode.kind.Symlink? && (es[i].symlink.None? || es[i].symlink.value == []) {
          return Err(Einval);
        }
        dirInos :- LoadOne(es[i], dirInos, es);
      }
      ghost var j: nat := |es|;
      while dirInos != []
        invariant forall ino :: ino in sInodes ==> sInodes[ino] < |heap|
        invariant TreeOrder(es) ==> j <= |es| && dirInos == Dirs(es, j) && Loading(es, |es|, |es|, j, heap, sInodes)
        decreases |dirInos|
      {
        var ino := dirInos[|dirInos| - 1];
        ghost var c := 0;
        if TreeOrder(es) {
          c := LastDir(es, j);
          TreeFacts(es, c);
        }
        var attached := AttachDir(ino, es, j, c);
        if attached.Err? {
          return Err(attached.error);
        }
        dirInos := dirInos[..|dirInos| - 1];
        j := c;
      }
      if TreeOrder(es) {
        NoDirs(es, j);
        NothingBetween(es, |es|, j, 0, heap, sInodes);
      }
      r := Ok(());
    }

    /** `get_child_by_name`: the standard library's binary search over the children. */
    method GetChildByName(id: nat, name: Name, ghost es: seq<Entry>) returns (r: Result<nat>)
      requires id < |heap| && Inside(heap[id].child, |heap|)
      ensures HeapOf(heap, es) && NameOrder(es, heap[id].child) ==>
                r == ChildNamed(es, heap[id].child, name)
    {
      hide Less, HeapOf, NameOrder;
      var child := heap[id].child;
      ghost var sound := HeapOf(heap, es) && NameOrder(es, child);
      var size, left, right := |child|, 0, |child|;
      while left < right
        invariant 0 <= left <= right <= |child| && size == right - left
        invariant sound ==> (forall i :: 0 <= i < left ==> child[i] < |es| && Less(es[child[i]].name, name))
                            && forall i :: right <= i < |child| ==> child[i] < |es| && Less(name, es[child[i]].name)
      {
        var mid := left + size / 2;
        var target := heap[child[mid]].entry.name;
        if sound { SearchStep(heap, es, child, mid, name); }
        if target == name {
          if sound { SearchFound(es, child, mid, name); }
          return Ok(child[mid]);
        }
        LessTotal(target, name);
        if Less(target, name) {
          left := mid + 1;
        } else {
          right := mid;
        }
        size := right - left;
      }
      if sound { SearchMissed(es, child, left, name); }
      r := Err(Enoent);
    }

    /** `get_child_by_index`; past the children it panics, here an error. */
    function GetChildByIndex(id: nat, idx: nat): Result<nat>
      requires id < |heap|
      reads this
    {
      if idx < |heap[id].child| then Ok(heap[id].child[idx]) else Err(Other)
    }
  }

  /** The first of the children with the given name. */
  function ChildNamed(es: seq<Entry>, ids: seq<nat>, name: Name): Result<nat> {
    if ids == [] then Err(Enoent)
    else if ids[0] < |es| && es[ids[0]].name == name then Ok(ids[0])
    else ChildNamed(es, ids[1..], name)
  }

  lemma SearchStep(heap: seq<CachedInode>, es: seq<Entry>, child: seq<nat>, mid: nat, name: Name)
    requires HeapOf(heap, es) && NameOrder(es, child) && Inside(child, |heap|) && mid < |child|
    ensures child[mid] < |es| && heap[child[mid]].entry.name == es[child[mid]].name
    ensures Less(es[child[mid]].name, name) ==> forall i :: 0 <= i <= mid ==>
              child[i] < |es| && Less(es[child[i]].name, name)
    ensures Less(name, es[child[mid]].name) ==> forall i :: mid <= i < |child| ==>
              child[i] < |es| && Less(name, es[child[i]].name)
  {
    hide Less;
    var target := es[child[mid]].name;
    if Less(target, name) {
      forall i | 0 <= i < mid
        ensures Less(es[child[i]].name, name)
      {
        LessTransitive(es[child[i]].name, target, name);
      }
    }
    if Less(name, target) {
      forall i | mid < i < |child|
        ensures Less(name, es[child[i]].name)
      {
        LessTransitive(name, target, es[child[i]].name);
      }
    }
  }

  lemma {:induction false} ChildNamedIs(es: seq<Entry>, ids: seq<nat>, name: Name, k: nat)
    requires k <= |ids| && forall i :: 0 <= i < k ==> ids[i] < |es| && es[ids[i]].name != name
    ensures k == |ids| ==> ChildNamed(es, ids, name) == Err(Enoent)
    ensures k < |ids| && ids[k] < |es| && es[ids[k]].name == name ==> ChildNamed(es, ids, name) == Ok(ids[k])
    decreases k
  {
    if k > 0 { ChildNamedIs(es, ids[1..], name, k - 1); }
  }

  lemma SearchFound(es: seq<Entry>, child: seq<nat>, mid: nat, name: Name)
    requires NameOrder(es, child) && mid < |child| && child[mid] < |es| && es[child[mid]].name == name
    ensures ChildNamed(es, child, name) == Ok(child[mid])
  {
    hide Less;
    forall i | 0 <= i < mid
      ensures es[child[i]].name != name
    {
      LessIrreflexive(name);
    }
    ChildNamedIs(es, child, name, mid);
  }

  lemma SearchMissed(es: seq<Entry>, child: seq<nat>, left: nat, name: Name)
    requires left <= |child|
    requires forall i :: 0 <= i < left ==> child[i] < |es| && Less(es[child[i]].name, name)
    requires forall i :: left <= i < |child| ==> child[i] < |es| && Less(name, es[child[i]].name)
    ensures ChildNamed(es, child, name) == Err(Enoent)
  {
    hide Less;
    LessIrreflexive(name);
    ChildNamedIs(es, child, name, |child|);
  }

  // ----- both drivers agree -----

  /** The entries of an image without hard links are in tree order. */
  lemma ImageIsTreeOrder(a: seq<Node>, f: Trees.FileTree)
    requires Image(a, f)
    ensures TreeOrder(Views(a))
  {
    hide Rep, Ordered, Less, WellPlaced, GoodRange, HasParent, OwnsRange;
    ImageWellPlaced(a, f);
    RootFile(a, f);
    RootKind(a, f);
    var es := Views(a);
    forall c | 1 <= c < |a|
      ensures HasParent(es, c) && GoodRange(a, c)
    {
      assert WellPlaced(a, c);
      PlacedHasParent(a, c);
    }
    forall q | 0 <= q < |a|
      ensures OwnsRange(es, q) && !IsHardlink(es[q].inode)
    {
      assert GoodRange(a, q) && a[q].inode.ino == q + 1;
      GoodRangeOwns(a, q);
    }
  }

  lemma RootKind(a: seq<Node>, f: Trees.FileTree)
    requires Image(a, f)
    ensures a[0].IsDir()
  {
    hide Ordered;
    RootFile(a, f);
    assert FileOf(a[0]).kind == a[0].inode.kind;
  }

  lemma PlacedHasParent(a: seq<Node>, c: nat)
    requires WellPlaced(a, c)
    ensures HasParent(Views(a), c) && GoodRange(a, c)
  {
    hide GoodRange;
  }

  lemma GoodRangeOwns(a: seq<Node>, q: nat)
    requires GoodRange(a, q) && (a[q].IsDir() ==> a[q].inode.ino == q + 1)
    ensures OwnsRange(Views(a), q)
  {
    hide Less;
  }

  lemma {:induction false} FirstIsChildNamed(es: seq<Entry>, lo: nat, n: nat, name: Name)
    requires lo + n <= |es|
    ensures ChildNamed(es, Range(lo, n), name) == FirstNamed(es, lo, lo + n, name)
    decreases n
  {
    if n > 0 {
      assert Range(lo, n)[1..] == Range(lo + 1, n - 1);
      FirstIsChildNamed(es, lo + 1, n - 1, name);
    }
  }

  lemma WholeHeap(es: seq<Entry>, heap: seq<CachedInode>, sInodes: map<nat, nat>)
    requires TreeOrder(es) && Loading(es, |es|, |es|, 0, heap, sInodes)
    ensures HeapOf(heap, es)
  {
    hide TreeOrder, Loading, Loaded;
    HeapLength(es, heap, sInodes);
    forall x | 0 <= x < |heap|
      ensures heap[x].entry == es[x]
    {
      FinalChildren(es, heap, sInodes, x);
    }
  }

  lemma HeapLength(es: seq<Entry>, heap: seq<CachedInode>, sInodes: map<nat, nat>)
    requires Loading(es, |es|, |es|, 0, heap, sInodes)
    ensures |heap| == |es|
  {
  }

  /** Both searches among the children of `q`. */
  lemma SearchesAgree(es: seq<Entry>, q: nat, child: seq<nat>, name: Name)
    requires q < |es| && OwnsRange(es, q)
    requires es[q].inode.kind.Dir? ==> es[q].inode.childIndex >= 1
    requires child == if es[q].inode.kind.Dir? then Range(es[q].inode.childIndex - 1, es[q].inode.childCount) else []
    ensures NameOrder(es, child) && Inside(child, |es|)
    ensures var direct := Mapping(es).ChildSpec(q, name);
            if es[q].inode.kind.Dir? then ChildNamed(es, child, name) == direct
            else ChildNamed(es, child, name) == Err(Enoent) && direct == Err(Einval)
  {
    hide Less, FirstNamed, ChildNamed;
    if es[q].inode.kind.Dir? {
      FirstIsChildNamed(es, es[q].inode.childIndex - 1, es[q].inode.childCount, name);
      if es[q].inode.childCount == 0 { NoneNamed(es, es[q].inode.childIndex - 1, name); }
    } else {
      NobodyNamed(es, name);
    }
  }

  /** Looking up a name gives the same child through either driver; on a file both fail, the cached driver as if there
      were no such name. */
  lemma SameByName(es: seq<Entry>, heap: seq<CachedInode>, sInodes: map<nat, nat>, q: nat, name: Name)
    requires TreeOrder(es) && Loading(es, |es|, |es|, 0, heap, sInodes) && q < |es|
    ensures var direct := Mapping(es).ChildSpec(q, name); var cached := ChildNamed(es, heap[q].child, name);
            && (es[q].inode.kind.Dir? ==> cached == direct)
            && (!es[q].inode.kind.Dir? ==> cached == Err(Enoent) && direct == Err(Einval))
    ensures HeapOf(heap, es) && NameOrder(es, heap[q].child) && Inside(heap[q].child, |heap|)
  {
    hide TreeOrder, Loading, OwnsRange, ChildNamed, NameOrder, Inside, Mapping.ChildSpec;
    HeapLength(es, heap, sInodes);
    WholeHeap(es, heap, sInodes);
    FinalChildren(es, heap, sInodes, q);
    TreeFacts(es, q);
    SearchesAgree(es, q, heap[q].child, name);
  }

  lemma NoneNamed(es: seq<Entry>, lo: nat, name: Name)
    requires lo <= |es|
    ensures FirstNamed(es, lo, lo, name) == Err(Enoent)
  {
  }

  lemma NobodyNamed(es: seq<Entry>, name: Name)
    ensures ChildNamed(es, [], name) == Err(Enoent)
  {
  }

  /** Looking up a position gives the same child exactly when it is a directory's and in its range: past the range the
      mapped driver reports an error where the cached one panics. */
  lemma SameByIndexIff(es: seq<Entry>, heap: seq<CachedInode>, sInodes: map<nat, nat>, q: nat, idx: nat)
    requires TreeOrder(es) && forall x :: 0 <= x < |es| ==> ValidInode(es[x].inode, |es|)
    requires Loading(es, |es|, |es|, 0, heap, sInodes) && q < |es|
    ensures var direct := Mapping(es).GetChildByIndex(q, idx);
            var cached := if idx < |heap[q].child| then Ok(heap[q].child[idx]) else Err(Other);
            && (cached == direct <==> es[q].inode.kind.Dir? && idx < es[q].inode.childCount)
            && (cached.Ok? <==> direct.Ok?)
  {
    hide TreeOrder, Loaded, Less, ValidInode;
    FinalChildren(es, heap, sInodes, q);
    TreeFacts(es, q);
  }

  lemma LoadingSize(es: seq<Entry>, k: nat, i: nat, j: nat, heap: seq<CachedInode>, sInodes: map<nat, nat>)
    requires Loading(es, k, i, j, heap, sInodes)
    ensures |heap| == k <= |es|
  {
  }
}