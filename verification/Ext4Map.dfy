/** ext4 extent trees: the two binary searches and the descent, against the flat list of extents. */
module Ext4Map {
  /** `len` blocks from logical block `block` on, at physical block `start`. */
  datatype Extent = Extent(block: nat, len: nat, start: nat)

  /** The subtree from logical block `block` on. */
  datatype Index = Index(block: nat, leaf: nat)

  /** A node: index entries at a depth above zero, extents at depth zero. */
  datatype Node = Node(magic: bool, depth: nat, index: seq<Index>, extents: seq<Extent>)

  type Store = nat -> Node

  /** All extents below a node, in order. */
  function Flat(store: Store, n: Node, d: nat): seq<Extent>
    decreases d, 0, 0
  {
    if d == 0 then n.extents else FlatAll(store, n.index, d - 1)
  }

  function FlatAll(store: Store, index: seq<Index>, d: nat): seq<Extent>
    decreases d, 1, |index|
  {
    if index == [] then [] else Flat(store, store(index[0].leaf), d) + FlatAll(store, index[1..], d)
  }

  /** Every extent begins at or behind `lo` and ends at or before `hi`. */
  predicate Within(list: seq<Extent>, lo: nat, hi: nat) {
    forall e :: e in list ==> lo <= e.block && e.block + e.len <= hi
  }

  /** The range of logical blocks that belongs to an index entry. */
  function Low(n: Node, lo: nat, i: nat): nat
    requires i < |n.index|
  {
    if i == 0 then lo else n.index[i].block
  }

  function High(n: Node, hi: nat, i: nat): nat
    requires i < |n.index|
  {
    if i + 1 < |n.index| then n.index[i + 1].block else hi
  }

  /** A well-formed tree of depth `d` for the logical blocks from `lo` to `hi`: entries in order, each
      subtree within the range of its entry. */
  ghost predicate Tree(store: Store, n: Node, d: nat, lo: nat, hi: nat)
    decreases d
  {
    && n.magic && n.depth == d
    && if d == 0 then
         && n.extents != []
         && (forall i :: 0 <= i < |n.extents| ==> n.extents[i].len > 0)
         && (forall i :: 0 < i < |n.extents| ==> n.extents[i - 1].block + n.extents[i - 1].len <= n.extents[i].block)
         && Within(n.extents, lo, hi)
       else
         && n.index != []
         && (forall i :: 0 < i < |n.index| ==> n.index[i - 1].block < n.index[i].block)
         && (forall i :: 0 <= i < |n.index| ==>
               Tree(store, store(n.index[i].leaf), d - 1, Low(n, lo, i), High(n, hi, i)))
  }

  lemma {:induction false} IndexOrder(index: seq<Index>, i: nat, j: nat)
    requires forall k :: 0 < k < |index| ==> index[k - 1].block < index[k].block
    requires i < j < |index|
    ensures index[i].block < index[j].block
    decreases j
  {
    if i + 1 < j {
      IndexOrder(index, i, j - 1);
    }
  }

  lemma {:induction false} ExtentOrder(list: seq<Extent>, i: nat, j: nat)
    requires forall k :: 0 < k < |list| ==> list[k - 1].block + list[k - 1].len <= list[k].block
    requires i < j < |list|
    ensures list[i].block + list[i].len <= list[j].block
    decreases j
  {
    if i + 1 < j {
      ExtentOrder(list, i, j - 1);
    }
  }

  /** The last index entry that does not begin behind `l`; the first entry if all do. */
  function LastIndex(index: seq<Index>, l: nat): (r: nat)
    requires index != []
    ensures r < |index| && (r == 0 || index[r].block <= l)
  {
    var last := |index| - 1;
    if last == 0 || index[last].block <= l then last else LastIndex(index[..last], l)
  }

  lemma {:induction false} LastIndexIs(index: seq<Index>, l: nat, r: nat)
    requires r < |index| && (r == 0 || index[r].block <= l)
    requires forall k :: r < k < |index| ==> l < index[k].block
    ensures r == LastIndex(index, l)
    decreases |index|
  {
    if r < |index| - 1 {
      LastIndexIs(index[..|index| - 1], l, r);
    }
  }

  /** The same for the extents of a leaf. */
  function LastExtent(list: seq<Extent>, l: nat): (r: nat)
    requires list != []
    ensures r < |list| && (r == 0 || list[r].block <= l)
  {
    var last := |list| - 1;
    if last == 0 || list[last].block <= l then last else LastExtent(list[..last], l)
  }

  lemma {:induction false} LastExtentIs(list: seq<Extent>, l: nat, r: nat)
    requires r < |list| && (r == 0 || list[r].block <= l)
    requires forall k :: r < k < |list| ==> l < list[k].block
    ensures r == LastExtent(list, l)
    decreases |list|
  {
    if r < |list| - 1 {
      LastExtentIs(list[..|list| - 1], l, r);
    }
  }

  /** The extent that the search for block `l` ends at, whether or not it covers the block. (An empty node,
      which no tree has, gives an empty extent.) */
  function Ending(store: Store, n: Node, d: nat, l: nat): Extent
    decreases d
  {
    if d == 0 then
      if n.extents == [] then Extent(0, 0, 0) else n.extents[LastExtent(n.extents, l)]
    else
      if n.index == [] then Extent(0, 0, 0) else Ending(store, store(n.index[LastIndex(n.index, l)].leaf), d - 1, l)
  }

  /** The last index entry that does not begin behind `target`; the first entry if all do. */
  method SearchIndex(index: seq<Index>, target: nat) returns (r: nat)
    requires index != [] && forall k :: 0 < k < |index| ==> index[k - 1].block < index[k].block
    ensures r < |index| && (r == 0 || index[r].block <= target)
    ensures forall k :: r < k < |index| ==> target < index[k].block
  {
    var lo, hi := 1, |index| - 1;
    while lo <= hi
      invariant 1 <= lo <= hi + 1 <= |index|
      invariant lo == 1 || index[lo - 1].block <= target
      invariant forall k :: hi < k < |index| ==> target < index[k].block
      decreases hi - lo
    {
      var m := lo + (hi - lo) / 2;
      if target < index[m].block {
        forall k | m <= k < |index|
          ensures target < index[k].block
        {
          if m < k {
            IndexOrder(index, m, k);
          }
        }
        hi := m - 1;
      } else {
        lo := m + 1;
      }
    }
    r := lo - 1;
  }

  /** The last extent that does not begin behind `target`; the first extent if all do. */
  method SearchExtent(list: seq<Extent>, target: nat) returns (r: nat)
    requires list != [] && forall k :: 0 <= k < |list| ==> list[k].len > 0
    requires forall k :: 0 < k < |list| ==> list[k - 1].block + list[k - 1].len <= list[k].block
    ensures r < |list| && (r == 0 || list[r].block <= target)
    ensures forall k :: r < k < |list| ==> target < list[k].block
  {
    var lo, hi := 1, |list| - 1;
    while lo <= hi
      invariant 1 <= lo <= hi + 1 <= |list|
      invariant lo == 1 || list[lo - 1].block <= target
      invariant forall k :: hi < k < |list| ==> target < list[k].block
      decreases hi - lo
    {
      var m := lo + (hi - lo) / 2;
      if target < list[m].block {
        forall k | m <= k < |list|
          ensures target < list[k].block
        {
          if m < k {
            ExtentOrder(list, m, k);
          }
        }
        hi := m - 1;
      } else {
        lo := m + 1;
      }
    }
    r := lo - 1;
  }

  predicate Covers(e: Extent, l: nat) {
    e.block <= l < e.block + e.len
  }

  lemma {:induction false} InSomeSubtree(store: Store, index: seq<Index>, d: nat, e: Extent) returns (i: nat)
    requires e in FlatAll(store, index, d)
    ensures i < |index| && e in Flat(store, store(index[i].leaf), d)
    decreases |index|
  {
    hide Flat;
    if e in Flat(store, store(index[0].leaf), d) {
      i := 0;
    } else {
      var j := InSomeSubtree(store, index[1..], d, e);
      assert index[1..][j] == index[j + 1];
      i := j + 1;
    }
  }

  lemma Subtree(store: Store, n: Node, d: nat, lo: nat, hi: nat, i: nat)
    requires Tree(store, n, d, lo, hi) && d > 0 && i < |n.index|
    ensures Tree(store, store(n.index[i].leaf), d - 1, Low(n, lo, i), High(n, hi, i))
  {
  }

  /** All extents of a tree lie in its range, which is not empty. */
  lemma {:induction false} FlatWithin(store: Store, n: Node, d: nat, lo: nat, hi: nat)
    requires Tree(store, n, d, lo, hi)
    ensures Within(Flat(store, n, d), lo, hi) && lo <= hi
    decreases d
  {
    hide Flat, Tree, Within;
    TreeParts(store, n, d, lo, hi);
    if d > 0 {
      RangeOrder(store, n, d, lo, hi, 0, |n.index| - 1);
      forall e | e in Flat(store, n, d)
        ensures lo <= e.block && e.block + e.len <= hi
      {
        ExtentWithin(store, n, d, lo, hi, e);
      }
      AllWithin(Flat(store, n, d), lo, hi);
    }
  }

  lemma AllWithin(list: seq<Extent>, lo: nat, hi: nat)
    requires forall e :: e in list ==> lo <= e.block && e.block + e.len <= hi
    ensures Within(list, lo, hi)
  {
  }

  lemma {:induction false} ExtentWithin(store: Store, n: Node, d: nat, lo: nat, hi: nat, e: Extent)
    requires Tree(store, n, d, lo, hi) && d > 0 && e in Flat(store, n, d)
    ensures lo <= e.block && e.block + e.len <= hi
    decreases d, |n.index|
  {
    hide Tree;
    var i := InSomeSubtree(store, n.index, d - 1, e);
    Subtree(store, n, d, lo, hi, i);
    FlatWithin(store, store(n.index[i].leaf), d - 1, Low(n, lo, i), High(n, hi, i));
    RangeOrder(store, n, d, lo, hi, 0, i);
    RangeOrder(store, n, d, lo, hi, i, |n.index| - 1);
  }

  /** The ranges of the subtrees follow each other. */
  lemma {:induction false} RangeOrder(store: Store, n: Node, d: nat, lo: nat, hi: nat, i: nat, j: nat)
    requires Tree(store, n, d, lo, hi) && d > 0 && i <= j < |n.index|
    ensures Low(n, lo, i) <= Low(n, lo, j) && High(n, hi, i) <= High(n, hi, j) && Low(n, lo, i) <= High(n, hi, j)
    decreases d, j - i
  {
    hide Flat, Tree, Within;
    Subtree(store, n, d, lo, hi, j);
    FlatWithin(store, store(n.index[j].leaf), d - 1, Low(n, lo, j), High(n, hi, j));
    if i < j {
      RangeOrder(store, n, d, lo, hi, i, j - 1);
      Subtree(store, n, d, lo, hi, j - 1);
      FlatWithin(store, store(n.index[j - 1].leaf), d - 1, Low(n, lo, j - 1), High(n, hi, j - 1));
    }
  }

  /** The extent that covers a block lies below the entry that the search finds. */
  lemma DownTo(store: Store, n: Node, d: nat, lo: nat, hi: nat, l: nat, r: nat, e: Extent)
    requires Tree(store, n, d, lo, hi) && d > 0 && r < |n.index|
    requires r == 0 || n.index[r].block <= l
    requires forall k :: r < k < |n.index| ==> l < n.index[k].block
    requires e in Flat(store, n, d) && Covers(e, l)
    ensures e in Flat(store, store(n.index[r].leaf), d - 1)
  {
    hide Tree;
    var i := InSomeSubtree(store, n.index, d - 1, e);
    Subtree(store, n, d, lo, hi, i);
    FlatWithin(store, store(n.index[i].leaf), d - 1, Low(n, lo, i), High(n, hi, i));
    if i < r {
      RangeOrder(store, n, d, lo, hi, i + 1, r);
    }
  }

  /** Only one extent of a leaf covers a block: the one that the search finds. */
  lemma LeafUnique(list: seq<Extent>, l: nat, r: nat, e: Extent)
    requires forall k :: 0 < k < |list| ==> list[k - 1].block + list[k - 1].len <= list[k].block
    requires r < |list| && (r == 0 || list[r].block <= l)
    requires forall k :: r < k < |list| ==> l < list[k].block
    requires e in list && Covers(e, l)
    ensures e == list[r]
  {
    var i :| 0 <= i < |list| && list[i] == e;
    if i < r {
      ExtentOrder(list, i, r);
    }
  }

  /** The search ends at an extent of the tree: at the one that covers the block, if one does. */
  lemma {:induction false} EndingCovers(store: Store, n: Node, d: nat, lo: nat, hi: nat, l: nat)
    requires Tree(store, n, d, lo, hi)
    ensures var w := Ending(store, n, d, l);
            w in Flat(store, n, d) && forall e :: e in Flat(store, n, d) && Covers(e, l) ==> e == w
    decreases d
  {
    hide Flat, Tree, LastIndex, LastExtent;
    TreeParts(store, n, d, lo, hi);
    var w := Ending(store, n, d, l);
    if d == 0 {
      EndingLeaf(store, n, l);
      var r := LastExtent(n.extents, l);
      ExtentsBehind(n.extents, l);
      forall e | e in Flat(store, n, d) && Covers(e, l)
        ensures e == w
      {
        LeafUnique(n.extents, l, r, e);
      }
    } else {
      var r := LastIndex(n.index, l);
      var m := store(n.index[r].leaf);
      EndingDown(store, n, d, l);
      IndexBehind(n.index, l);
      TreeDepth(store, n, d, lo, hi);
      Subtree(store, n, d, lo, hi, r);
      TreeDepth(store, m, d - 1, Low(n, lo, r), High(n, hi, r));
      EndingCovers(store, m, d - 1, Low(n, lo, r), High(n, hi, r), l);
      SubtreeIn(store, n, r, w);
      forall e | e in Flat(store, n, d) && Covers(e, l)
        ensures e == w
      {
        DownTo(store, n, d, lo, hi, l, r, e);
      }
    }
  }

  lemma EndingLeaf(store: Store, n: Node, l: nat)
    requires n.extents != []
    ensures Ending(store, n, 0, l) == n.extents[LastExtent(n.extents, l)]
  {
  }

  lemma EndingDown(store: Store, n: Node, d: nat, l: nat)
    requires d > 0 && n.index != []
    ensures Ending(store, n, d, l) == Ending(store, store(n.index[LastIndex(n.index, l)].leaf), d - 1, l)
  {
    hide LastIndex;
  }

  lemma {:induction false} IndexBehind(index: seq<Index>, l: nat)
    requires index != [] && forall k :: 0 < k < |index| ==> index[k - 1].block < index[k].block
    ensures forall k :: LastIndex(index, l) < k < |index| ==> l < index[k].block
    decreases |index|
  {
    var last := |index| - 1;
    if last > 0 && index[last].block > l {
      IndexBehind(index[..last], l);
    }
  }

  lemma {:induction false} ExtentsBehind(list: seq<Extent>, l: nat)
    requires list != [] && forall k :: 0 < k < |list| ==> list[k - 1].block + list[k - 1].len <= list[k].block
    ensures forall k :: LastExtent(list, l) < k < |list| ==> l < list[k].block
    decreases |list|
  {
    var last := |list| - 1;
    if last > 0 && list[last].block > l {
      ExtentsBehind(list[..last], l);
    }
  }

  /** The program's only test of the extent found, one too weak on either side. */
  predicate Passes(e: Extent, l: nat) {
    l <= e.block + e.len
  }

  /** A block that no extent covers is accepted exactly if it lies before the extent found, or directly
      behind it. */
  lemma HoleAccepted(store: Store, n: Node, d: nat, lo: nat, hi: nat, l: nat)
    requires Tree(store, n, d, lo, hi)
    requires forall e :: e in Flat(store, n, d) ==> !Covers(e, l)
    ensures var w := Ending(store, n, d, l);
            Passes(w, l) <==> l < w.block || l == w.block + w.len
  {
    hide Flat, Tree, Ending;
    EndingCovers(store, n, d, lo, hi, l);
    assert !Covers(Ending(store, n, d, l), l);
  }

  lemma HoleStartLeaf(list: seq<Extent>, l: nat, e: Extent)
    requires list != [] && forall k :: 0 < k < |list| ==> list[k - 1].block + list[k - 1].len <= list[k].block
    requires e in list && l == e.block + e.len
    ensures Passes(list[LastExtent(list, l)], l)
  {
    hide LastExtent;
    ExtentsBehind(list, l);
    var i :| 0 <= i < |list| && list[i] == e;
    if i < LastExtent(list, l) {
      ExtentOrder(list, i, LastExtent(list, l));
    }
  }

  /** In particular the first block of every hole that follows an extent is accepted, wherever in the tree
      that extent stands. */
  lemma {:induction false} HoleStartAccepted(store: Store, n: Node, d: nat, lo: nat, hi: nat, l: nat, e: Extent)
    requires Tree(store, n, d, lo, hi) && e in Flat(store, n, d) && l == e.block + e.len
    ensures Passes(Ending(store, n, d, l), l)
    decreases d
  {
    hide Tree, Ending, LastIndex, LastExtent;
    TreeParts(store, n, d, lo, hi);
    if d == 0 {
      EndingLeaf(store, n, l);
      HoleStartLeaf(n.extents, l, e);
    } else {
      var r := LastIndex(n.index, l);
      var m := store(n.index[r].leaf);
      EndingDown(store, n, d, l);
      IndexBehind(n.index, l);
      Subtree(store, n, d, lo, hi, r);
      var i := InSomeSubtree(store, n.index, d - 1, e);
      Subtree(store, n, d, lo, hi, i);
      FlatWithin(store, store(n.index[i].leaf), d - 1, Low(n, lo, i), High(n, hi, i));
      if i == r {
        HoleStartAccepted(store, m, d - 1, Low(n, lo, r), High(n, hi, r), l, e);
      } else if i < r {
        RangeOrder(store, n, d, lo, hi, i + 1, r);
        EndingCovers(store, m, d - 1, Low(n, lo, r), High(n, hi, r), l);
        FlatWithin(store, m, d - 1, Low(n, lo, r), High(n, hi, r));
      }
    }
  }

  /** No extent of the tree begins between the block and the extent that its search ends at: that one is
      either the last to begin at or before the block, or the first behind it. */
  lemma {:induction false} EndingIsNext(store: Store, n: Node, d: nat, lo: nat, hi: nat, l: nat, e: Extent)
    requires Tree(store, n, d, lo, hi) && e in Flat(store, n, d)
    ensures var w := Ending(store, n, d, l);
            !(w.block < e.block <= l) && !(l < e.block < w.block)
    decreases d
  {
    hide Tree, Ending, LastIndex, LastExtent;
    TreeParts(store, n, d, lo, hi);
    if d == 0 {
      EndingLeaf(store, n, l);
      LeafNext(n.extents, l, e);
    } else {
      var r := LastIndex(n.index, l);
      var m := store(n.index[r].leaf);
      EndingDown(store, n, d, l);
      IndexBehind(n.index, l);
      Subtree(store, n, d, lo, hi, r);
      var i := InSomeSubtree(store, n.index, d - 1, e);
      if i == r {
        EndingIsNext(store, m, d - 1, Low(n, lo, r), High(n, hi, r), l, e);
      } else {
        Subtree(store, n, d, lo, hi, i);
        FlatWithin(store, store(n.index[i].leaf), d - 1, Low(n, lo, i), High(n, hi, i));
        EndingCovers(store, m, d - 1, Low(n, lo, r), High(n, hi, r), l);
        FlatWithin(store, m, d - 1, Low(n, lo, r), High(n, hi, r));
        if i < r {
          RangeOrder(store, n, d, lo, hi, i + 1, r);
        } else {
          RangeOrder(store, n, d, lo, hi, r + 1, i);
        }
      }
    }
  }

  lemma LeafNext(list: seq<Extent>, l: nat, e: Extent)
    requires list != [] && e in list
    requires forall k :: 0 < k < |list| ==> list[k - 1].block + list[k - 1].len <= list[k].block
    ensures var w := list[LastExtent(list, l)];
            !(w.block < e.block <= l) && !(l < e.block < w.block)
  {
    hide LastExtent;
    ExtentsBehind(list, l);
    var r := LastExtent(list, l);
    var i :| 0 <= i < |list| && list[i] == e;
    if i < r {
      ExtentOrder(list, i, r);
    } else if r < i {
      ExtentOrder(list, r, i);
    }
  }

  /** A leaf with two extents of one block, at 0 and at 5: of the hole between them block 1 is accepted and
      block 3 refused. With the second extent alone, block 2 before it is accepted. */
  lemma HoleExamples(store: Store)
    ensures var two := Node(true, 0, [], [Extent(0, 1, 100), Extent(5, 1, 200)]);
            && Tree(store, two, 0, 0, 6)
            && Ending(store, two, 0, 1) == Ending(store, two, 0, 3) == Extent(0, 1, 100)
            && Passes(Extent(0, 1, 100), 1) && !Passes(Extent(0, 1, 100), 3)
            && forall e :: e in Flat(store, two, 0) ==> !Covers(e, 1) && !Covers(e, 3)
    ensures var one := Node(true, 0, [], [Extent(5, 1, 200)]);
            && Tree(store, one, 0, 0, 6) && Ending(store, one, 0, 2) == Extent(5, 1, 200)
            && Passes(Extent(5, 1, 200), 2) && forall e :: e in Flat(store, one, 0) ==> !Covers(e, 2)
  {
    var list := [Extent(0, 1, 100), Extent(5, 1, 200)];
    LastExtentIs(list, 1, 0);
    LastExtentIs(list, 3, 0);
  }

  /** The physical block for a logical one: accepted exactly if the extent that the search ends at passes
      the test, and counted from that extent. For a covered block that is the extent that covers it. */
  method Map(store: Store, root: Node, l: nat, ghost hi: nat) returns (ok: bool, b: int)
    requires !root.magic || Tree(store, root, root.depth, 0, hi)
    ensures !root.magic ==> !ok
    ensures root.magic ==>
              var w := Ending(store, root, root.depth, l);
              (ok <==> Passes(w, l)) && (ok ==> b == w.start + (l - w.block))
    ensures root.magic ==>
              forall e :: e in Flat(store, root, root.depth) && Covers(e, l) ==> ok && b == e.start + (l - e.block)
  {
    hide Flat, Tree, Ending, LastIndex, LastExtent;
    if !root.magic {
      return false, 0;
    }
    EndingCovers(store, root, root.depth, 0, hi, l);
    var eh := root;
    ghost var lo, up := 0, hi;
    TreeDepth(store, eh, root.depth, lo, up);
    while eh.depth != 0
      invariant Tree(store, eh, eh.depth, lo, up)
      invariant Ending(store, eh, eh.depth, l) == Ending(store, root, root.depth, l)
      decreases eh.depth
    {
      TreeParts(store, eh, eh.depth, lo, up);
      if !eh.magic {
        return false, 0;
      }
      var r := SearchIndex(eh.index, l);
      LastIndexIs(eh.index, l, r);
      EndingDown(store, eh, eh.depth, l);
      Subtree(store, eh, eh.depth, lo, up, r);
      TreeDepth(store, store(eh.index[r].leaf), eh.depth - 1, Low(eh, lo, r), High(eh, up, r));
      lo, up := Low(eh, lo, r), High(eh, up, r);
      eh := store(eh.index[r].leaf);
    }
    TreeParts(store, eh, 0, lo, up);
    var r := SearchExtent(eh.extents, l);
    LastExtentIs(eh.extents, l, r);
    EndingLeaf(store, eh, l);
    var ex := eh.extents[r];
    if ex.block + ex.len < l {
      return false, 0;
    }
    return true, ex.start + l - ex.block;
  }

  lemma SubtreeIn(store: Store, n: Node, i: nat, e: Extent)
    requires n.depth > 0 && i < |n.index| && e in Flat(store, store(n.index[i].leaf), n.depth - 1)
    ensures e in Flat(store, n, n.depth)
  {
    SubtreeInAll(store, n.index, n.depth - 1, i, e);
  }

  lemma {:induction false} SubtreeInAll(store: Store, index: seq<Index>, d: nat, i: nat, e: Extent)
    requires i < |index| && e in Flat(store, store(index[i].leaf), d)
    ensures e in FlatAll(store, index, d)
    decreases i
  {
    hide Flat;
    if i > 0 {
      SubtreeInAll(store, index[1..], d, i - 1, e);
    }
  }

  lemma TreeDepth(store: Store, n: Node, d: nat, lo: nat, hi: nat)
    requires Tree(store, n, d, lo, hi)
    ensures n.depth == d
  {
  }

  lemma TreeParts(store: Store, n: Node, d: nat, lo: nat, hi: nat)
    requires Tree(store, n, d, lo, hi)
    ensures n.magic
    ensures d > 0 ==> n.index != [] && forall i :: 0 < i < |n.index| ==> n.index[i - 1].block < n.index[i].block
    ensures d == 0 ==> lo <= hi && Within(Flat(store, n, d), lo, hi)
    ensures d == 0 ==> n.extents != [] && Flat(store, n, 0) == n.extents
                       && (forall i :: 0 <= i < |n.extents| ==> n.extents[i].len > 0)
                       && (forall i :: 0 < i < |n.extents| ==>
                         n.extents[i - 1].block + n.extents[i - 1].len <= n.extents[i].block)
  {
    if d == 0 {
      assert n.extents[0] in n.extents;
    }
  }
}
