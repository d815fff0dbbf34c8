/** ext2 block maps: direct, single, double and triple indirect blocks, with two cached blocks. */
module Ext2Map {
  import opened Arith

  const NDIR: nat := 12
  const IND: nat := 12
  const DIND: nat := 13
  const TIND: nat := 14

  /** What each block number holds, as block pointers. */
  type Store = nat -> seq<nat>

  /** An inode's block pointers, the device, and the number of pointers in a block. */
  datatype Inode = Inode(block: seq<nat>, store: Store, a: nat) {
    ghost predicate Valid() {
      |block| == 15 && a > 0 && forall b: nat :: |store(b)| == a
    }

    /** How many blocks the four levels reach. */
    function Reach(): nat {
      NDIR + a + a * a + a * a * a
    }
  }

  /** Where the pointer to a logical block stands. */
  datatype Slot = Direct(i: nat) | Single(i: nat) | Double(i: nat, j: nat) | Triple(i: nat, j: nat, k: nat)

  function SlotOf(n: Inode, l: nat): Slot
    requires n.a > 0
  {
    if l < NDIR then Direct(l)
    else if l - NDIR < n.a then Single(l - NDIR)
    else
      var m := l - NDIR - n.a;
      if m < n.a * n.a then
        DivNat(m, n.a);
        Double(m / n.a, m % n.a)
      else
        var t := m - n.a * n.a;
        DivNat(t, n.a);
        DivNat(t / n.a, n.a);
        Triple(t / n.a / n.a, t / n.a % n.a, t % n.a)
  }

  /** The logical block whose pointer stands in a slot. */
  function BlockOf(n: Inode, s: Slot): nat {
    match s
    case Direct(i) => i
    case Single(i) => NDIR + i
    case Double(i, j) => NDIR + n.a + n.a * i + j
    case Triple(i, j, k) => NDIR + n.a + n.a * n.a + n.a * (n.a * i + j) + k
  }

  /** Each logical block has a slot of its own. */
  lemma SlotsDistinct(n: Inode, l: nat)
    requires n.a > 0
    ensures BlockOf(n, SlotOf(n, l)) == l
  {
    if l >= NDIR + n.a {
      var m := l - NDIR - n.a;
      Rebuild(m, n.a);
      if m >= n.a * n.a {
        var t := m - n.a * n.a;
        Rebuild(t, n.a);
        Rebuild(t / n.a, n.a);
      }
    }
  }

  lemma Rebuild(m: nat, a: nat)
    requires a > 0
    ensures m / a >= 0 && a * (m / a) + m % a == m
  {
    DivNat(m, a);
  }

  /** The slots of reachable blocks lie inside their pointer blocks. */
  lemma SlotInside(n: Inode, l: nat)
    requires n.a > 0 && l < n.Reach()
    ensures match SlotOf(n, l)
            case Direct(i) => i < NDIR
            case Single(i) => i < n.a
            case Double(i, j) => i < n.a && j < n.a
            case Triple(i, j, k) => i < n.a && j < n.a && k < n.a
  {
    if l >= NDIR + n.a {
      var m := l - NDIR - n.a;
      if m < n.a * n.a {
        DivBelow(m, n.a, n.a);
      } else {
        var t := m - n.a * n.a;
        DivNat(t, n.a);
        assert t < (n.a * n.a) * n.a;
        DivBelow(t, n.a * n.a, n.a);
        DivBelow(t / n.a, n.a, n.a);
      }
    }
  }

  /** The physical block of a logical one, read without any cache. */
  function Walk(n: Inode, l: nat): nat
    requires n.Valid() && l < n.Reach()
  {
    SlotInside(n, l);
    match SlotOf(n, l)
    case Direct(i) => n.block[i]
    case Single(i) => n.store(n.block[IND])[i]
    case Double(i, j) => n.store(n.store(n.block[DIND])[i])[j]
    case Triple(i, j, k) => n.store(n.store(n.store(n.block[TIND])[i])[j])[k]
  }

  /** The data blocks below a pointer of `depth` levels, in order. */
  function Leaves(store: Store, depth: nat, b: nat): seq<nat>
    decreases depth, 1, 0
  {
    if depth == 0 then [b] else LeavesOf(store, depth - 1, store(b))
  }

  function LeavesOf(store: Store, depth: nat, list: seq<nat>): seq<nat>
    decreases depth, 2, |list|
  {
    if list == [] then [] else Leaves(store, depth, list[0]) + LeavesOf(store, depth, list[1..])
  }

  /** The file's data blocks: twelve named in the inode, then those below its three indirect blocks. */
  function Blocks(n: Inode): seq<nat>
    requires n.Valid()
  {
    n.block[..12] + Leaves(n.store, 1, n.block[12]) + Leaves(n.store, 2, n.block[13]) + Leaves(n.store, 3, n.block[14])
  }

  function Span(a: nat, depth: nat): nat {
    if depth == 0 then 1 else a * Span(a, depth - 1)
  }

  lemma {:induction false} LeavesLength(n: Inode, depth: nat, b: nat)
    requires n.Valid()
    ensures |Leaves(n.store, depth, b)| == Span(n.a, depth)
    decreases depth, 1, 0
  {
    if depth > 0 {
      LeavesOfLength(n, depth - 1, n.store(b));
    }
  }

  lemma {:induction false} LeavesOfLength(n: Inode, depth: nat, list: seq<nat>)
    requires n.Valid()
    ensures |LeavesOf(n.store, depth, list)| == |list| * Span(n.a, depth)
    decreases depth, 2, |list|
  {
    hide Span;
    if list != [] {
      LeavesLength(n, depth, list[0]);
      LeavesOfLength(n, depth, list[1..]);
      assert |list| * Span(n.a, depth) == Span(n.a, depth) + |list[1..]| * Span(n.a, depth);
    }
  }

  /** The `j`-th leaf of the `i`-th pointer in a list. */
  lemma {:induction false} LeafAt(n: Inode, depth: nat, list: seq<nat>, i: nat, j: nat)
    requires n.Valid() && i < |list| && j < Span(n.a, depth)
    ensures |Leaves(n.store, depth, list[i])| == Span(n.a, depth)
    ensures i * Span(n.a, depth) + j < |LeavesOf(n.store, depth, list)|
    ensures LeavesOf(n.store, depth, list)[i * Span(n.a, depth) + j] == Leaves(n.store, depth, list[i])[j]
    decreases i
  {
    hide Span, Leaves;
    var s := Span(n.a, depth);
    LeavesLength(n, depth, list[0]);
    LeavesLength(n, depth, list[i]);
    if i > 0 {
      LeafAt(n, depth, list[1..], i - 1, j);
      assert i * s == s + (i - 1) * s;
      assert list[1..][i - 1] == list[i];
    }
  }

  /** The leaf in place `at` is `v`. */
  predicate HasLeaf(n: Inode, depth: nat, b: nat, at: nat, v: nat) {
    at < |Leaves(n.store, depth, b)| && Leaves(n.store, depth, b)[at] == v
  }

  lemma OneLevel(n: Inode, b: nat, i: nat)
    requires n.Valid() && i < n.a
    ensures |Leaves(n.store, 1, b)| == n.a && HasLeaf(n, 1, b, i, n.store(b)[i])
  {
    hide Leaves, Span;
    LeavesLength(n, 1, b);
    Spans(n.a);
    LeafAt(n, 0, n.store(b), i, 0);
    LeavesAre(n.store, 0, b);
    LeafIs(n.store, n.store(b)[i]);
  }

  lemma TwoLevels(n: Inode, b: nat, i: nat, j: nat)
    requires n.Valid() && i < n.a && j < n.a
    ensures |Leaves(n.store, 2, b)| == n.a * n.a && HasLeaf(n, 2, b, i * n.a + j, n.store(n.store(b)[i])[j])
  {
    hide Leaves, Span;
    LeavesLength(n, 2, b);
    Spans(n.a);
    LeafAt(n, 1, n.store(b), i, j);
    LeavesAre(n.store, 1, b);
    OneLevel(n, n.store(b)[i], j);
  }

  lemma ThreeLevels(n: Inode, b: nat, i: nat, j: nat, k: nat)
    requires n.Valid() && i < n.a && j < n.a && k < n.a
    ensures |Leaves(n.store, 3, b)| == n.a * (n.a * n.a)
    ensures HasLeaf(n, 3, b, i * (n.a * n.a) + (j * n.a + k), n.store(n.store(n.store(b)[i])[j])[k])
  {
    hide Leaves, Span;
    LeavesLength(n, 3, b);
    Spans(n.a);
    TwoLevels(n, n.store(b)[i], j, k);
    LeafAt(n, 2, n.store(b), i, j * n.a + k);
    LeavesAre(n.store, 2, b);
  }

  lemma Spans(a: nat)
    ensures Span(a, 0) == 1 && Span(a, 1) == a && Span(a, 2) == a * a && Span(a, 3) == a * (a * a)
  {
    assert Span(a, 1) == a * Span(a, 0) && Span(a, 2) == a * Span(a, 1) && Span(a, 3) == a * Span(a, 2);
  }

  lemma LeavesAre(store: Store, depth: nat, b: nat)
    ensures Leaves(store, depth + 1, b) == LeavesOf(store, depth, store(b))
  {
  }

  lemma LeafIs(store: Store, b: nat)
    ensures Leaves(store, 0, b) == [b]
  {
  }

  /** The walk to a block leads to its place in the list. */
  lemma WalkIsFlat(n: Inode, l: nat)
    requires n.Valid() && l < n.Reach()
    ensures |Blocks(n)| == n.Reach() && Walk(n, l) == Blocks(n)[l]
  {
    hide Leaves;
    SlotInside(n, l);
    SlotsDistinct(n, l);
    assert Triples(n.a) by {
      TriplesAre(n.a);
    }
    OneLevel(n, n.block[12], 0);
    TwoLevels(n, n.block[13], 0, 0);
    ThreeLevels(n, n.block[14], 0, 0, 0);
    match SlotOf(n, l)
    case Direct(i) =>
    case Single(i) =>
      OneLevel(n, n.block[12], i);
    case Double(i, j) =>
      TwoLevels(n, n.block[13], i, j);
      Commute(n.a, i);
    case Triple(i, j, k) =>
      ThreeLevels(n, n.block[14], i, j, k);
      TripleSum(n.a, i, j, k);
  }

  predicate Triples(a: nat) {
    a * (a * a) == a * a * a
  }

  lemma TriplesAre(a: nat)
    ensures Triples(a)
  {
  }

  lemma Commute(a: nat, i: nat)
    ensures a * i == i * a
  {
  }

  lemma TripleSum(a: nat, i: nat, j: nat, k: nat)
    ensures a * (a * i + j) + k == i * (a * a) + (j * a + k)
  {
    assert a * (a * i + j) == a * (a * i) + a * j;
    assert a * (a * i) == (a * a) * i;
  }

  class BlockMap {
    const n: Inode
    /** DATABLOCK1 and DATABLOCK2 */
    var data1: seq<nat>
    var data2: seq<nat>
    /** Which indirect block is in `data1`: 1 single, 2 double, 3 triple, none otherwise. */
    var mapblock1: int
    /** The number of the block that is in `data2`, or -1. */
    var mapblock2: int

    ghost predicate Valid()
      reads this
    {
      && n.Valid()
      && (mapblock1 == 1 ==> data1 == n.store(n.block[IND]))
      && (mapblock1 == 2 ==> data1 == n.store(n.block[DIND]))
      && (mapblock1 == 3 ==> data1 == n.store(n.block[TIND]))
      && (mapblock2 >= 0 ==> data2 == n.store(mapblock2))
    }

    constructor (inode: Inode)
      requires inode.Valid()
      ensures Valid() && n == inode
    {
      n, data1, data2, mapblock1, mapblock2 := inode, [], [], -1, -1;
    }

    /** The physical block of a logical one; the two cached blocks do not show. */
    method Map(l0: nat) returns (b: nat)
      requires Valid() && l0 < n.Reach()
      modifies this
      ensures Valid() && |Blocks(n)| == n.Reach() && b == Blocks(n)[l0]
    {
      b := Find(l0);
      WalkIsFlat(n, l0);
    }

    /** The walk proper. */
    method Find(l0: nat) returns (b: nat)
      requires Valid() && l0 < n.Reach()
      modifies this
      ensures Valid() && b == Walk(n, l0)
    {
      SlotInside(n, l0);
      var l := l0;
      if l < NDIR {
        return n.block[l];
      }
      l := l - NDIR;
      if l < n.a {
        if mapblock1 != 1 {
          data1 := n.store(n.block[IND]);
        }
        mapblock1 := 1;
        return data1[l];
      }
      l := l - n.a;
      if l < n.a * n.a {
        if mapblock1 != 2 {
          data1 := n.store(n.block[DIND]);
        }
        mapblock1 := 2;
        var bnum := data1[l / n.a];
        if bnum != mapblock2 {
          data2 := n.store(bnum);
        }
        mapblock2 := bnum;
        return data2[l % n.a];
      }
      mapblock2 := -1;
      l := l - n.a * n.a;
      if mapblock1 != 3 {
        data1 := n.store(n.block[TIND]);
      }
      mapblock1 := 3;
      DivNat(l, n.a);
      DivTwice(l, n.a);
      data2 := n.store(data1[l / (n.a * n.a)]);
      data2 := n.store(data2[l / n.a % n.a]);
      return data2[l % n.a];
    }
  }

  /** A number with two low digits in base `a`. */
  lemma TwoDigits(a: nat, h: nat, d1: nat, d0: nat)
    requires d1 < a && d0 < a
    ensures a * (a * h + d1) + d0 == (a * a) * h + (a * d1 + d0)
    ensures a * d1 + d0 < a * a
  {
    assert a * (a * h + d1) == (a * a) * h + a * d1;
    MulSign(a, a - d1);
    assert a * (a - d1) == a * a - a * d1;
  }

  lemma DivTwice(l: nat, a: nat)
    requires a > 0
    ensures a * a > 0 && l / (a * a) == l / a / a
  {
    MulSign(a, a);
    Digit(l, a);
    var q: nat := l / a;
    Digit(q, a);
    DivTwiceAt(l, a, q, q / a, q % a, l % a);
  }

  lemma Digit(l: nat, a: nat)
    requires a > 0
    ensures l / a >= 0 && l == a * (l / a) + l % a
  {
    DivNat(l, a);
  }

  lemma DivTwiceAt(l: nat, a: nat, q: nat, h: nat, d1: nat, d0: nat)
    requires a > 0 && d1 < a && d0 < a && l == a * q + d0 && q == a * h + d1
    ensures a * a > 0 && l / (a * a) == h
  {
    MulSign(a, a);
    TwoDigits(a, h, d1, d0);
    DivUnique(l, a * a, h, a * d1 + d0);
  }
}
