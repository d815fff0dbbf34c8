/** The heap as a row of adjoining blocks: what allocating and freeing do to it. */
module HeapLayout {
  import opened Words

  /** A block begins at `base` and reaches to the next block, the last one to the end of the arena. */
  datatype Cell = Cell(base: nat, used: bool)

  /** A block in use, with its length written out. */
  datatype Block = Block(base: nat, len: int)

  function BaseAfter(cells: seq<Cell>, end: nat, i: nat): nat
    requires i < |cells|
  {
    if i + 1 < |cells| then cells[i + 1].base else end
  }

  /** The address word behind a block, in which a block in use has its lowest bit set. */
  function WordAfter(cells: seq<Cell>, end: nat, i: nat): nat
    requires i < |cells|
  {
    if i + 1 < |cells| then cells[i + 1].base + (if cells[i + 1].used then 1 else 0) else end
  }

  /** The blocks tile the arena from `start` to `end`, in order, at multiples of 16. */
  ghost predicate Tiled(cells: seq<Cell>, start: nat, end: nat) {
    && cells != [] && cells[0].base == start && end % 16 == 0
    && (forall i :: 0 <= i < |cells| ==> cells[i].base % 16 == 0 && cells[i].base < end)
    && (forall i :: 0 < i < |cells| ==> cells[i - 1].base <= cells[i].base)
  }

  /** No two neighbours are both free. */
  ghost predicate Merged(cells: seq<Cell>) {
    forall i :: 0 < i < |cells| ==> cells[i - 1].used || cells[i].used
  }

  function Len(cells: seq<Cell>, end: nat, i: nat): int
    requires i < |cells|
  {
    BaseAfter(cells, end, i) - cells[i].base
  }

  /** The rounded request: 16 to 31 bytes more, a multiple of 16, in 32-bit arithmetic. */
  function Rounded(size: nat): nat {
    (size + 0x1f) % WORD / 16 * 16
  }

  /** The request is met, with 16 bytes to spare, exactly when the sum does not wrap around. */
  lemma RoundedIsEnough(size: nat)
    requires size < WORD
    ensures Rounded(size) % 16 == 0
    ensures Rounded(size) >= size + 16 <==> size + 0x1f < WORD
    ensures size + 0x1f < WORD ==> Rounded(size) < size + 32
  {
  }

  /** A free block that, by the address words, is large enough. */
  predicate Fitting(cells: seq<Cell>, end: nat, size: nat, i: nat)
    requires i < |cells|
  {
    !cells[i].used && WordAfter(cells, end, i) - cells[i].base >= size
  }

  /** The first block from `i` on that is free and, by its words, large enough. */
  function FirstFit(cells: seq<Cell>, end: nat, size: nat, i: nat): (r: Option<nat>)
    ensures r.Some? ==> i <= r.value < |cells| && Fitting(cells, end, size, r.value)
    ensures forall j :: i <= j < (if r.Some? then r.value else |cells|) ==> !Fitting(cells, end, size, j)
    decreases |cells| - i
  {
    if i >= |cells| then None
    else if Fitting(cells, end, size, i) then Some(i)
    else FirstFit(cells, end, size, i + 1)
  }

  /** Taking `size` bytes of block `i`. */
  function Taken(cells: seq<Cell>, end: nat, size: nat, i: nat): seq<Cell>
    requires i < |cells|
  {
    if WordAfter(cells, end, i) - cells[i].base == size then cells[i := Cell(cells[i].base, true)]
    else cells[..i] + [Cell(cells[i].base, true), Cell(cells[i].base + size, false)] + cells[i + 1..]
  }

  /** The first block that begins at `ptr`. */
  function Find(cells: seq<Cell>, ptr: nat, i: nat): (r: Option<nat>)
    ensures r.Some? ==> i <= r.value < |cells| && cells[r.value].base == ptr
                        && forall j :: i <= j < r.value ==> cells[j].base != ptr
    ensures r.None? ==> forall j :: i <= j < |cells| ==> cells[j].base != ptr
    decreases |cells| - i
  {
    if i >= |cells| then None else if cells[i].base == ptr then Some(i) else Find(cells, ptr, i + 1)
  }

  /** The first of the blocks that block `i` is joined with when it is set free, and the block behind the last. */
  function JoinFrom(cells: seq<Cell>, i: nat): (p: nat)
    requires i < |cells|
    ensures p <= i <= p + 1
  {
    if i > 0 && !cells[i - 1].used then i - 1 else i
  }

  function JoinTo(cells: seq<Cell>, i: nat): (q: nat)
    requires i < |cells|
    ensures i < q <= |cells| && q <= i + 2
  {
    if i + 1 < |cells| && !cells[i + 1].used then i + 2 else i + 1
  }

  /** Block `i` set free and joined to its free neighbours. */
  function Freed(cells: seq<Cell>, i: nat): seq<Cell>
    requires i < |cells|
  {
    cells[..JoinFrom(cells, i)] + [Cell(cells[JoinFrom(cells, i)].base, false)] + cells[JoinTo(cells, i)..]
  }

  /** Where the first of the cells begins. */
  function NextBase(cells: seq<Cell>, end: nat): nat {
    if cells == [] then end else cells[0].base
  }

  function Own(c: Cell, to: nat): multiset<Block> {
    if c.used then multiset{Block(c.base, to - c.base)} else multiset{}
  }

  /** The blocks in use, each with its base and its length; two empty ones may begin at the same place. */
  function LiveBlocks(cells: seq<Cell>, end: nat): multiset<Block> {
    if cells == [] then multiset{} else Own(cells[0], NextBase(cells[1..], end)) + LiveBlocks(cells[1..], end)
  }

  /** No block in use is empty. */
  ghost predicate Solid(cells: seq<Cell>, end: nat) {
    forall b :: b in LiveBlocks(cells, end) ==> b.len > 0
  }

  /** A free block of no length stands before the block in use at `ptr`. */
  predicate Shadowed(cells: seq<Cell>, ptr: nat) {
    Find(cells, ptr, 0).Some? && !cells[Find(cells, ptr, 0).value].used
  }

  /** At most one block, free or in use, begins at `ptr`. */
  predicate Alone(cells: seq<Cell>, ptr: nat) {
    forall i, j :: 0 <= i < j < |cells| ==> cells[i].base != ptr || cells[j].base != ptr
  }

  /** The first block that begins at `b`'s base is in use and as long as `b`. */
  predicate FoundFirst(cells: seq<Cell>, end: nat, b: Block) {
    var f := Find(cells, b.base, 0);
    f.Some? && cells[f.value].used && Len(cells, end, f.value) == b.len
  }

  // ---- the blocks in use

  lemma {:induction false} LiveSplit(a: seq<Cell>, b: seq<Cell>, end: nat)
    ensures LiveBlocks(a + b, end) == LiveBlocks(a, NextBase(b, end)) + LiveBlocks(b, end)
    decreases |a|
  {
    if a == [] {
      assert a + b == b;
    } else {
      assert (a + b)[1..] == a[1..] + b;
      LiveSplit(a[1..], b, end);
    }
  }

  lemma LiveOne(c: Cell, end: nat)
    ensures LiveBlocks([c], end) == Own(c, end)
  {
    assert [c][1..] == [];
  }

  lemma LiveTwo(c: Cell, d: Cell, end: nat)
    ensures LiveBlocks([c, d], end) == Own(c, d.base) + Own(d, end)
  {
    assert [c, d] == [c] + [d];
    LiveSplit([c], [d], end);
    LiveOne(c, d.base);
    LiveOne(d, end);
  }

  /** The blocks in use before, among and behind some cells. */
  lemma LiveParts(cells: seq<Cell>, end: nat, p: nat, q: nat)
    requires p <= q <= |cells|
    ensures LiveBlocks(cells, end)
         == LiveBlocks(cells[..p], NextBase(cells[p..], end))
            + (LiveBlocks(cells[p..q], NextBase(cells[q..], end)) + LiveBlocks(cells[q..], end))
  {
    assert cells == cells[..p] + cells[p..] && cells[p..] == cells[p..q] + cells[q..];
    LiveSplit(cells[..p], cells[p..], end);
    LiveSplit(cells[p..q], cells[q..], end);
  }

  /** The same around new cells that begin where the old ones did. */
  lemma LiveReplaced(cells: seq<Cell>, end: nat, p: nat, q: nat, mid: seq<Cell>)
    requires p < q <= |cells| && mid != [] && mid[0].base == cells[p].base
    ensures LiveBlocks(cells[..p] + mid + cells[q..], end)
         == LiveBlocks(cells[..p], NextBase(cells[p..], end))
            + (LiveBlocks(mid, NextBase(cells[q..], end)) + LiveBlocks(cells[q..], end))
  {
    assert cells[..p] + mid + cells[q..] == cells[..p] + (mid + cells[q..]);
    LiveSplit(cells[..p], mid + cells[q..], end);
    LiveSplit(mid, cells[q..], end);
  }

  lemma {:induction false} LiveIndex(cells: seq<Cell>, end: nat, b: Block) returns (k: nat)
    requires b in LiveBlocks(cells, end)
    ensures k < |cells| && cells[k].used && cells[k].base == b.base && Len(cells, end, k) == b.len
    decreases |cells|
  {
    if b in Own(cells[0], NextBase(cells[1..], end)) {
      k := 0;
    } else {
      var j := LiveIndex(cells[1..], end, b);
      k := j + 1;
    }
  }

  lemma {:induction false} IndexLive(cells: seq<Cell>, end: nat, k: nat)
    requires k < |cells| && cells[k].used
    ensures Block(cells[k].base, Len(cells, end, k)) in LiveBlocks(cells, end)
    decreases |cells|
  {
    var b, rest := Block(cells[k].base, Len(cells, end, k)), cells[1..];
    if k > 0 {
      IndexLive(rest, end, k - 1);
      assert rest[k - 1] == cells[k] && Len(rest, end, k - 1) == Len(cells, end, k);
      assert b in LiveBlocks(rest, end);
    } else {
      assert b in Own(cells[0], NextBase(rest, end));
    }
  }

  /** Blocks in use lie in the arena, at multiples of 16. */
  lemma LiveWithin(cells: seq<Cell>, start: nat, end: nat, b: Block)
    requires Tiled(cells, start, end) && b in LiveBlocks(cells, end)
    ensures start <= b.base && b.len >= 0 && b.base + b.len <= end
    ensures b.base % 16 == 0 && b.len % 16 == 0
  {
    hide LiveBlocks;
    var k := LiveIndex(cells, end, b);
    OrderedBases(cells, start, end, 0, k);
    if k + 1 < |cells| {
      OrderedBases(cells, start, end, k, k + 1);
    }
  }

  /** Blocks in use never overlap. */
  lemma {:induction false} LiveDisjoint(cells: seq<Cell>, start: nat, end: nat, a: Block, b: Block)
    requires Tiled(cells, start, end) && a in LiveBlocks(cells, end) && b in LiveBlocks(cells, end) - multiset{a}
    ensures a.base + a.len <= b.base || b.base + b.len <= a.base
    decreases |cells|
  {
    var rest, own := cells[1..], Own(cells[0], NextBase(cells[1..], end));
    if rest != [] {
      assert Tiled(rest, rest[0].base, end);
      if a in LiveBlocks(rest, end) && b in LiveBlocks(rest, end) - multiset{a} {
        LiveDisjoint(rest, rest[0].base, end, a, b);
      } else if a in own && b in LiveBlocks(rest, end) {
        LiveWithin(rest, rest[0].base, end, b);
      } else {
        assert b in own && a in LiveBlocks(rest, end);
        LiveWithin(rest, rest[0].base, end, a);
      }
    }
  }

  // ---- allocating

  /** At multiples of 16 the flag in the next word does not matter. */
  lemma RoomFits(a: nat, b: nat, size: nat, flag: nat)
    requires a % 16 == 0 && b % 16 == 0 && size % 16 == 0 && flag <= 1 && b + flag - a >= size
    ensures a + size <= b && (a + size) % 16 == 0
  {
    var x, y, z := a / 16, b / 16, size / 16;
    assert a == 16 * x && b == 16 * y && size == 16 * z;
    assert x + z <= y;
    WholeSum(x, z);
  }

  lemma WholeSum(x: nat, z: nat)
    ensures (16 * x + 16 * z) % 16 == 0
  {
    assert 16 * x + 16 * z == 16 * (x + z);
  }

  lemma Multiples(cells: seq<Cell>, start: nat, end: nat, i: nat)
    requires Tiled(cells, start, end) && i < |cells|
    ensures cells[i].base % 16 == 0 && cells[i].base < end && BaseAfter(cells, end, i) % 16 == 0
    ensures cells[i].base <= BaseAfter(cells, end, i) <= end
    ensures BaseAfter(cells, end, i) <= WordAfter(cells, end, i) <= BaseAfter(cells, end, i) + 1
    ensures WordAfter(cells, end, i) == BaseAfter(cells, end, i) + 1 ==> BaseAfter(cells, end, i) < end
    ensures i + 1 == |cells| ==> WordAfter(cells, end, i) == BaseAfter(cells, end, i) == end
    ensures i + 1 < |cells| ==> BaseAfter(cells, end, i) == cells[i + 1].base < end
  {
  }

  /** The block taken is the first free one that is long enough, and there is none exactly if no free block
      is: the bit in the next address word makes no difference. */
  lemma FirstFitIs(cells: seq<Cell>, start: nat, end: nat, size: nat)
    requires Tiled(cells, start, end) && size % 16 == 0
    ensures var r := FirstFit(cells, end, size, 0);
            && (r.Some? ==> !cells[r.value].used && BaseAfter(cells, end, r.value) >= cells[r.value].base + size)
            && forall i :: 0 <= i < |cells| && !cells[i].used && (r.Some? ==> i < r.value) ==>
                 BaseAfter(cells, end, i) < cells[i].base + size
  {
    hide Tiled, WordAfter, BaseAfter;
    forall i | 0 <= i < |cells|
      ensures Fitting(cells, end, size, i) <==> !cells[i].used && BaseAfter(cells, end, i) >= cells[i].base + size
    {
      Multiples(cells, start, end, i);
      if Fitting(cells, end, size, i) {
        var to := BaseAfter(cells, end, i);
        RoomFits(cells[i].base, to, size, WordAfter(cells, end, i) - to);
      }
    }
  }

  lemma TakenTiles(cells: seq<Cell>, start: nat, end: nat, size: nat, i: nat)
    requires Tiled(cells, start, end) && size % 16 == 0 && i < |cells|
    requires WordAfter(cells, end, i) - cells[i].base >= size
    ensures Tiled(Taken(cells, end, size, i), start, end)
    ensures cells[i].base + size <= BaseAfter(cells, end, i)
  {
    hide WordAfter;
    Multiples(cells, start, end, i);
    var to := BaseAfter(cells, end, i);
    RoomFits(cells[i].base, to, size, WordAfter(cells, end, i) - to);
    if WordAfter(cells, end, i) - cells[i].base != size {
      SplitTiles(cells, start, end, size, i);
    }
  }

  lemma SplitTiles(cells: seq<Cell>, start: nat, end: nat, size: nat, i: nat)
    requires Tiled(cells, start, end) && i < |cells| && (cells[i].base + size) % 16 == 0
    requires cells[i].base + size <= BaseAfter(cells, end, i) && cells[i].base + size < end
    ensures var c := cells[i];
            Tiled(cells[..i] + [Cell(c.base, true), Cell(c.base + size, false)] + cells[i + 1..], start, end)
  {
    var next := cells[..i] + [Cell(cells[i].base, true), Cell(cells[i].base + size, false)] + cells[i + 1..];
    forall j | 0 <= j < |next|
      ensures next[j].base % 16 == 0 && next[j].base < end
    {
      if j > i + 1 {
        assert next[j] == cells[j - 1];
      }
    }
    forall j | 0 < j < |next|
      ensures next[j - 1].base <= next[j].base
    {
      if j > i + 1 {
        assert next[j] == cells[j - 1];
      }
    }
  }

  lemma TakenMerged(cells: seq<Cell>, end: nat, size: nat, i: nat)
    requires Merged(cells) && i < |cells| && !cells[i].used
    ensures Merged(Taken(cells, end, size, i))
  {
    var next := Taken(cells, end, size, i);
    forall j | 0 < j < |next|
      ensures next[j - 1].used || next[j].used
    {
      if |next| > |cells| && j > i + 1 {
        assert cells[j - 2].used || cells[j - 1].used;
      }
    }
  }

  /** Allocating adds one block in use, of exactly the rounded size, and keeps all others. */
  lemma TakenLive(cells: seq<Cell>, start: nat, end: nat, size: nat, i: nat)
    requires Tiled(cells, start, end) && size % 16 == 0 && i < |cells| && !cells[i].used
    requires WordAfter(cells, end, i) - cells[i].base >= size
    ensures LiveBlocks(Taken(cells, end, size, i), end) == LiveBlocks(cells, end) + multiset{Block(cells[i].base, size)}
  {
    hide LiveBlocks, Tiled;
    var c := cells[i];
    LiveParts(cells, end, i, i + 1);
    assert cells[i..i + 1] == [c];
    LiveOne(c, NextBase(cells[i + 1..], end));
    if WordAfter(cells, end, i) - c.base == size {
      ExactLength(cells, start, end, size, i);
      var d := Cell(c.base, true);
      assert Taken(cells, end, size, i) == cells[..i] + [d] + cells[i + 1..];
      LiveReplaced(cells, end, i, i + 1, [d]);
      LiveOne(d, NextBase(cells[i + 1..], end));
    } else {
      var d, r := Cell(c.base, true), Cell(c.base + size, false);
      LiveReplaced(cells, end, i, i + 1, [d, r]);
      LiveTwo(d, r, NextBase(cells[i + 1..], end));
    }
  }

  lemma ExactLength(cells: seq<Cell>, start: nat, end: nat, size: nat, i: nat)
    requires Tiled(cells, start, end) && size % 16 == 0 && i < |cells|
    requires WordAfter(cells, end, i) - cells[i].base == size
    ensures NextBase(cells[i + 1..], end) - cells[i].base == size
  {
  }

  /** A heap without empty blocks in use stays one exactly if the rounded size is not zero. */
  lemma TakenSolid(cells: seq<Cell>, start: nat, end: nat, size: nat, i: nat)
    requires Tiled(cells, start, end) && Solid(cells, end) && size % 16 == 0 && i < |cells| && !cells[i].used
    requires WordAfter(cells, end, i) - cells[i].base >= size
    ensures Solid(Taken(cells, end, size, i), end) <==> size > 0
  {
    hide LiveBlocks, Tiled, Taken;
    TakenLive(cells, start, end, size, i);
    assert Block(cells[i].base, size) in LiveBlocks(Taken(cells, end, size, i), end);
  }

  // ---- freeing

  lemma OrderedBases(cells: seq<Cell>, start: nat, end: nat, i: nat, j: nat)
    requires Tiled(cells, start, end) && i <= j < |cells|
    ensures cells[i].base <= cells[j].base
    decreases j
  {
    if i < j {
      OrderedBases(cells, start, end, i, j - 1);
    }
  }

  /** Freeing what is shadowed by an empty free block changes nothing at all. */
  lemma FreedShadowed(cells: seq<Cell>, ptr: nat)
    requires Merged(cells) && Shadowed(cells, ptr)
    ensures Freed(cells, Find(cells, ptr, 0).value) == cells
  {
    var i := Find(cells, ptr, 0).value;
    assert cells[i := Cell(cells[i].base, false)] == cells;
  }

  lemma FreedTiles(cells: seq<Cell>, start: nat, end: nat, i: nat)
    requires Tiled(cells, start, end) && Merged(cells) && i < |cells|
    ensures Tiled(Freed(cells, i), start, end) && Merged(Freed(cells, i))
  {
    var p, q, next := JoinFrom(cells, i), JoinTo(cells, i), Freed(cells, i);
    if q < |cells| {
      OrderedBases(cells, start, end, p, q);
    }
    forall j | 0 < j < |next|
      ensures next[j - 1].base <= next[j].base && (next[j - 1].used || next[j].used)
    {
      if j > p + 1 {
        assert next[j] == cells[q + (j - p - 1)] && next[j - 1] == cells[q + (j - p - 1) - 1];
      }
    }
    forall j | 0 <= j < |next|
      ensures next[j].base % 16 == 0 && next[j].base < end
    {
      if j > p {
        assert next[j] == cells[q + (j - p - 1)];
      }
    }
  }

  /** Freeing block `i` releases that block and keeps every other block in use. */
  lemma FreedLive(cells: seq<Cell>, end: nat, i: nat)
    requires i < |cells| && cells[i].used
    ensures LiveBlocks(cells, end)
            == LiveBlocks(Freed(cells, i), end) + multiset{Block(cells[i].base, Len(cells, end, i))}
  {
    hide LiveBlocks;
    var p, q := JoinFrom(cells, i), JoinTo(cells, i);
    LiveParts(cells, end, p, q);
    LiveReplaced(cells, end, p, q, [Cell(cells[p].base, false)]);
    LiveOne(Cell(cells[p].base, false), NextBase(cells[q..], end));
    OnlyOne(cells, end, i);
  }

  /** Of the blocks that are joined, only block `i` is in use. */
  lemma OnlyOne(cells: seq<Cell>, end: nat, i: nat)
    requires i < |cells| && cells[i].used
    ensures var p, q := JoinFrom(cells, i), JoinTo(cells, i);
            LiveBlocks(cells[p..q], NextBase(cells[q..], end)) == multiset{Block(cells[i].base, Len(cells, end, i))}
  {
    hide LiveBlocks;
    var p, q := JoinFrom(cells, i), JoinTo(cells, i);
    var to, mid := NextBase(cells[q..], end), BaseAfter(cells, end, i);
    LiveSplit(cells[p..i + 1], cells[i + 1..q], to);
    assert cells[p..q] == cells[p..i + 1] + cells[i + 1..q];
    assert LiveBlocks(cells[i + 1..q], to) == multiset{} && NextBase(cells[i + 1..q], to) == mid by {
      FreeBehind(cells, end, i);
    }
    LiveSplit(cells[p..i], [cells[i]], mid);
    assert cells[p..i + 1] == cells[p..i] + [cells[i]];
    LiveOne(cells[i], mid);
    FreeBefore(cells, i);
  }

  lemma FreeBefore(cells: seq<Cell>, i: nat)
    requires i < |cells|
    ensures LiveBlocks(cells[JoinFrom(cells, i)..i], cells[i].base) == multiset{}
  {
    hide LiveBlocks;
    if i > 0 && !cells[i - 1].used {
      assert cells[JoinFrom(cells, i)..i] == [cells[i - 1]];
      LiveOne(cells[i - 1], cells[i].base);
    } else {
      LiveNone(cells[i].base);
    }
  }

  lemma FreeBehind(cells: seq<Cell>, end: nat, i: nat)
    requires i < |cells|
    ensures var q := JoinTo(cells, i);
            var to := NextBase(cells[q..], end);
            LiveBlocks(cells[i + 1..q], to) == multiset{} && NextBase(cells[i + 1..q], to) == BaseAfter(cells, end, i)
  {
    hide LiveBlocks;
    var to := NextBase(cells[JoinTo(cells, i)..], end);
    if i + 1 < |cells| && !cells[i + 1].used {
      assert cells[i + 1..JoinTo(cells, i)] == [cells[i + 1]];
      LiveOne(cells[i + 1], to);
    } else {
      assert cells[i + 1..JoinTo(cells, i)] == [];
      LiveNone(to);
    }
  }

  lemma LiveNone(end: nat)
    ensures LiveBlocks([], end) == multiset{}
  {
  }

  lemma FreedSolid(cells: seq<Cell>, end: nat, i: nat)
    requires Solid(cells, end) && i < |cells| && cells[i].used
    ensures Solid(Freed(cells, i), end)
  {
    hide LiveBlocks, Freed;
    FreedLive(cells, end, i);
  }

  // ---- both together

  /** Freeing a block in use releases exactly it if and only if the first block that begins at its base is
      one like it; if that one is free nothing changes. */
  lemma FreeExact(cells: seq<Cell>, start: nat, end: nat, b: Block)
    requires Tiled(cells, start, end) && Merged(cells) && b in LiveBlocks(cells, end)
    ensures Find(cells, b.base, 0).Some?
    ensures var next := Freed(cells, Find(cells, b.base, 0).value);
            && (LiveBlocks(cells, end) == LiveBlocks(next, end) + multiset{b} <==> FoundFirst(cells, end, b))
            && (Shadowed(cells, b.base) ==> next == cells)
  {
    hide LiveBlocks, Freed, Tiled, Merged;
    var k := LiveIndex(cells, end, b);
    var i := Find(cells, b.base, 0).value;
    var next := Freed(cells, i);
    if cells[i].used {
      FreedLive(cells, end, i);
      SameRest(LiveBlocks(cells, end), LiveBlocks(next, end), Block(b.base, Len(cells, end, i)), b);
    } else {
      FreedShadowed(cells, b.base);
      MoreThanItself(LiveBlocks(cells, end), b);
    }
  }

  lemma SameRest(all: multiset<Block>, rest: multiset<Block>, a: Block, b: Block)
    requires all == rest + multiset{a}
    ensures all == rest + multiset{b} <==> a == b
  {
    if a != b {
      assert all[b] == rest[b] && (rest + multiset{b})[b] == rest[b] + 1;
    }
  }

  lemma MoreThanItself(all: multiset<Block>, b: Block)
    ensures all != all + multiset{b}
  {
    assert (all + multiset{b})[b] == all[b] + 1;
  }

  /** A block that is not empty is found first exactly if no other block, free or in use, begins where it
      does. */
  lemma FoundAlone(cells: seq<Cell>, start: nat, end: nat, b: Block)
    requires Tiled(cells, start, end) && b in LiveBlocks(cells, end) && b.len > 0
    ensures FoundFirst(cells, end, b) <==> Alone(cells, b.base)
  {
    hide LiveBlocks, Tiled;
    var k := LiveIndex(cells, end, b);
    var i := Find(cells, b.base, 0).value;
    if i < k {
      OrderedBases(cells, start, end, i, i + 1);
      OrderedBases(cells, start, end, i + 1, k);
    }
    forall m, n | 0 <= m < n < |cells| && cells[m].base == b.base && cells[n].base == b.base
      ensures Len(cells, end, m) <= 0
    {
      OrderedBases(cells, start, end, m + 1, n);
    }
  }

  /** Where no request has wrapped around, only an empty free block can be in the way. */
  lemma FoundUnlessShadowed(cells: seq<Cell>, start: nat, end: nat, b: Block)
    requires Tiled(cells, start, end) && Solid(cells, end) && b in LiveBlocks(cells, end)
    ensures FoundFirst(cells, end, b) <==> !Shadowed(cells, b.base)
  {
    hide LiveBlocks, Tiled;
    var k := LiveIndex(cells, end, b);
    var i := Find(cells, b.base, 0).value;
    if cells[i].used {
      IndexLive(cells, end, i);
      if i < k {
        OrderedBases(cells, start, end, i, i + 1);
        OrderedBases(cells, start, end, i + 1, k);
      }
    }
  }

  /** Freeing what was just allocated: the blocks in use are those of before exactly if the block is the
      first to begin at its place, or is empty like the one found there; in the first case all is as it
      was. */
  lemma MallocThenFree(cells: seq<Cell>, start: nat, end: nat, size: nat, i: nat)
    requires Tiled(cells, start, end) && Merged(cells) && size % 16 == 0
    requires FirstFit(cells, end, size, 0) == Some(i)
    ensures var next := Taken(cells, end, size, i);
            var ptr := cells[i].base;
            var f := Find(cells, ptr, 0);
            && f.Some? && f.value <= i && Find(next, ptr, 0) == f
            && (f.value == i ==> Freed(next, i) == cells)
            && (LiveBlocks(Freed(next, f.value), end) == LiveBlocks(cells, end)
                <==> f.value == i || (size == 0 && cells[f.value].used))
  {
    hide FirstFit, Find, LiveBlocks, Tiled, Merged, Freed, Taken;
    var next, b := Taken(cells, end, size, i), Block(cells[i].base, size);
    TakenLive(cells, start, end, size, i);
    TakenTiles(cells, start, end, size, i);
    TakenMerged(cells, end, size, i);
    FreeExact(next, start, end, b);
    SameFound(cells, start, end, size, i);
    var f := Find(cells, b.base, 0).value;
    if f == i {
      TakenThenFreed(cells, end, size, i);
    } else {
      FirstIsEmpty(cells, start, end, f, i);
    }
    Cancelled(LiveBlocks(cells, end), LiveBlocks(Freed(next, f), end), b);
  }

  lemma Cancelled(was: multiset<Block>, now: multiset<Block>, b: Block)
    ensures now == was <==> was + multiset{b} == now + multiset{b}
  {
    if was + multiset{b} == now + multiset{b} {
      forall x: Block
        ensures was[x] == now[x]
      {
        assert (was + multiset{b})[x] == (now + multiset{b})[x];
      }
    }
  }

  lemma {:induction false} FindIs(cells: seq<Cell>, ptr: nat, from: nat, i: nat)
    requires from <= i < |cells| && cells[i].base == ptr && forall j :: from <= j < i ==> cells[j].base != ptr
    ensures Find(cells, ptr, from) == Some(i)
    decreases i - from
  {
    if from < i {
      FindIs(cells, ptr, from + 1, i);
    }
  }

  /** Taking a block moves nothing that begins at or before it. */
  lemma SameFound(cells: seq<Cell>, start: nat, end: nat, size: nat, i: nat)
    requires Tiled(cells, start, end) && size % 16 == 0 && i < |cells|
    requires WordAfter(cells, end, i) - cells[i].base >= size
    ensures var next := Taken(cells, end, size, i);
            var f := Find(cells, cells[i].base, 0);
            && f.Some? && f.value <= i && Find(next, cells[i].base, 0) == f
            && (f.value < i ==> next[f.value] == cells[f.value] && Len(next, end, f.value) == Len(cells, end, f.value))
            && next[i] == Cell(cells[i].base, true) && Len(next, end, i) == size
  {
    hide Find, Tiled, Taken, Len;
    var next := Taken(cells, end, size, i);
    var f := Find(cells, cells[i].base, 0);
    TakenAt(cells, start, end, size, i);
    if f.value < i {
      TakenBefore(cells, start, end, size, i, f.value);
    }
    forall j | 0 <= j < f.value
      ensures next[j].base != cells[i].base
    {
      TakenBefore(cells, start, end, size, i, j);
    }
    FindIs(next, cells[i].base, 0, f.value);
  }

  lemma TakenAt(cells: seq<Cell>, start: nat, end: nat, size: nat, i: nat)
    requires Tiled(cells, start, end) && size % 16 == 0 && i < |cells|
    requires WordAfter(cells, end, i) - cells[i].base >= size
    ensures var next := Taken(cells, end, size, i);
            i < |next| && next[i] == Cell(cells[i].base, true) && Len(next, end, i) == size
  {
  }

  lemma TakenBefore(cells: seq<Cell>, start: nat, end: nat, size: nat, i: nat, j: nat)
    requires Tiled(cells, start, end) && j < i < |cells|
    ensures var next := Taken(cells, end, size, i);
            j < |next| && next[j] == cells[j] && Len(next, end, j) == Len(cells, end, j)
  {
  }

  lemma TakenThenFreed(cells: seq<Cell>, end: nat, size: nat, i: nat)
    requires Merged(cells) && i < |cells| && !cells[i].used
    ensures Freed(Taken(cells, end, size, i), i) == cells
  {
    var next := Taken(cells, end, size, i);
    assert JoinFrom(next, i) == i;
    if WordAfter(cells, end, i) - cells[i].base != size {
      assert JoinTo(next, i) == i + 2 && next[i + 2..] == cells[i + 1..];
    } else {
      assert JoinTo(next, i) == i + 1;
    }
    assert Freed(next, i) == cells[..i] + [cells[i]] + cells[i + 1..];
  }

  lemma FirstIsEmpty(cells: seq<Cell>, start: nat, end: nat, f: nat, i: nat)
    requires Tiled(cells, start, end) && f < i < |cells| && cells[f].base == cells[i].base
    ensures Len(cells, end, f) == 0
  {
    OrderedBases(cells, start, end, f, f + 1);
    OrderedBases(cells, start, end, f + 1, i);
  }
}
