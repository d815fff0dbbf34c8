/** grub_malloc and grub_free over an array of linked descriptors. */
module Heap {
  import opened Words
  import opened Arith
  import opened HeapLayout

  /** The address in a descriptor, without its flag bits. */
  function Base(word: nat): nat {
    word - word % 16
  }

  predicate InUse(word: nat) {
    word % 2 == 1
  }

  function CellOf(word: nat): Cell {
    Cell(Base(word), InUse(word))
  }

  /** The descriptors with an address are exactly those on the list, each linked to the following one;
      the last is linked to index `|a|`, which stands for the end of the arena. */
  ghost predicate Linked(a: seq<nat>, nx: seq<nat>, list: seq<nat>) {
    && |a| == |nx| && list != [] && list[0] == 0
    && (forall i :: 0 <= i < |list| ==> list[i] < |a| && a[list[i]] != 0 && a[list[i]] % 16 <= 1)
    && (forall i, j :: 0 <= i < j < |list| ==> list[i] != list[j])
    && (forall i :: 0 <= i < |list| ==> nx[list[i]] == NextOf(list, |a|, i))
    && (forall s :: 0 <= s < |a| && a[s] != 0 ==> s in list)
  }

  function NextOf(list: seq<nat>, n: nat, i: nat): nat
    requires i < |list|
  {
    if i + 1 < |list| then list[i + 1] else n
  }

  function CellsOf(a: seq<nat>, list: seq<nat>): (c: seq<Cell>)
    requires forall i :: 0 <= i < |list| ==> list[i] < |a|
    ensures |c| == |list|
  {
    seq(|list|, i requires 0 <= i < |list| => CellOf(a[list[i]]))
  }

  /** The address word at an index of the list. */
  function WordAt(a: seq<nat>, end: nat, s: nat): nat
    requires s <= |a|
  {
    if s == |a| then end else a[s]
  }

  lemma WordIs(word: nat)
    requires word % 16 <= 1
    ensures Base(word) % 16 == 0 && word == Base(word) + (if InUse(word) then 1 else 0)
  {
    var q, r := word / 16, word % 16;
    DivNat(word, 16);
    DivUnique(16 * q, 16, q, 0);
    DivUnique(word, 2, 8 * q, r);
  }

  /** Setting the flag of a free block's word, and the word of a block further up. */
  lemma WordMade(word: nat, need: nat)
    requires word % 16 == 0 && need % 16 == 0
    ensures !InUse(word) && Base(word) == word && CellOf(word) == Cell(word, false)
    ensures CellOf(word + 1) == Cell(word, true) && (word + 1) % 16 == 1
    ensures CellOf(word + need) == Cell(word + need, false) && (word + need) % 16 == 0
  {
    hide Base, InUse;
    DivNat(word, 16);
    DivNat(need, 16);
    WordOf(word / 16);
    WordOf(word / 16 + need / 16);
  }

  lemma WordOf(q: nat)
    ensures !InUse(16 * q) && Base(16 * q) == 16 * q && (16 * q) % 16 == 0
    ensures InUse(16 * q + 1) && Base(16 * q + 1) == 16 * q && (16 * q + 1) % 16 == 1
  {
    DivUnique(16 * q, 16, q, 0);
    DivUnique(16 * q + 1, 16, q, 1);
    DivUnique(16 * q, 2, 8 * q, 0);
    DivUnique(16 * q + 1, 2, 8 * q, 1);
  }

  lemma FreeWord(word: nat)
    requires word % 16 <= 1 && !InUse(word)
    ensures word % 16 == 0 && Base(word) == word
  {
    WordIs(word);
  }

  lemma WordsOf(a: seq<nat>, nx: seq<nat>, list: seq<nat>, start: nat, end: nat, k: nat)
    requires Linked(a, nx, list) && Tiled(CellsOf(a, list), start, end) && k < |list|
    ensures list[k] < |a| && WordAt(a, end, list[k]) != end
    ensures nx[list[k]] == NextOf(list, |a|, k) <= |a|
    ensures CellsOf(a, list)[k] == CellOf(a[list[k]])
    ensures WordAfter(CellsOf(a, list), end, k) == WordAt(a, end, nx[list[k]])
    ensures !InUse(a[list[k]]) ==> Base(a[list[k]]) == a[list[k]]
  {
    hide Base, InUse;
    WordIs(a[list[k]]);
    if k + 1 < |list| {
      WordIs(a[list[k + 1]]);
      assert CellsOf(a, list)[k + 1] == CellOf(a[list[k + 1]]);
    }
    assert CellsOf(a, list)[k].base < end && CellsOf(a, list)[k].base % 16 == 0;
    NotTheEnd(a[list[k]], Base(a[list[k]]), end);
  }

  lemma NotTheEnd(word: nat, base: nat, end: nat)
    requires base % 16 == 0 && end % 16 == 0 && base < end && base <= word <= base + 1
    ensures word != end
  {
  }

  /** The list with descriptor `s` put behind the `k`-th. */
  function Inserted(list: seq<nat>, k: nat, s: nat): seq<nat>
    requires k < |list|
  {
    list[..k + 1] + [s] + list[k + 1..]
  }

  lemma InsertedAt(list: seq<nat>, k: nat, s: nat, i: nat)
    requires k < |list| && i <= |list|
    ensures Inserted(list, k, s)[i] == if i <= k then list[i] else if i == k + 1 then s else list[i - 1]
  {
  }

  lemma InsertDistinct(a: seq<nat>, nx: seq<nat>, list: seq<nat>, k: nat, s: nat)
    requires Linked(a, nx, list) && k < |list| && s < |a| && a[s] == 0
    ensures forall i, j :: 0 <= i < j < |Inserted(list, k, s)| ==> Inserted(list, k, s)[i] != Inserted(list, k, s)[j]
  {
    hide Inserted;
    InsertedLength(list, k, s);
    forall i, j | 0 <= i < j < |Inserted(list, k, s)|
      ensures Inserted(list, k, s)[i] != Inserted(list, k, s)[j]
    {
      InsertedAt(list, k, s, i);
      InsertedAt(list, k, s, j);
    }
  }

  lemma InsertCovers(a: seq<nat>, nx: seq<nat>, list: seq<nat>, k: nat, s: nat, word: nat)
    requires Linked(a, nx, list) && k < |list| && s < |a|
    ensures forall t :: 0 <= t < |a| && a[s := word][t] != 0 ==> t in Inserted(list, k, s)
  {
    hide Inserted;
    InsertedLength(list, k, s);
    forall t | 0 <= t < |a| && a[s := word][t] != 0
      ensures t in Inserted(list, k, s)
    {
      if t == s {
        InsertedAt(list, k, s, k + 1);
      } else {
        var i :| 0 <= i < |list| && list[i] == t;
        InsertedAt(list, k, s, if i <= k then i else i + 1);
      }
    }
  }

  /** Linking a new descriptor with a word of its own behind the `k`-th. */
  lemma InsertLinks(a: seq<nat>, nx: seq<nat>, list: seq<nat>, k: nat, s: nat, word: nat)
    requires Linked(a, nx, list) && k < |list| && s < |a| && a[s] == 0 && word != 0 && word % 16 <= 1
    ensures Linked(a[s := word], nx[s := nx[list[k]]][list[k] := s], Inserted(list, k, s))
  {
    hide Inserted, Linked;
    var p := list[k];
    LinkedAt(a, nx, list, k, k);
    LinkedAt(a, nx, list, 0, 0);
    var a', nx', list' := a[s := word], nx[s := nx[p]][p := s], Inserted(list, k, s);
    InsertedLength(list, k, s);
    InsertedAt(list, k, s, 0);
    InsertDistinct(a, nx, list, k, s);
    InsertCovers(a, nx, list, k, s, word);
    forall i | 0 <= i < |list'|
      ensures list'[i] < |a'| && a'[list'[i]] != 0 && a'[list'[i]] % 16 <= 1 && nx'[list'[i]] == NextOf(list', |a'|, i)
    {
      InsertLinkAt(a, nx, list, k, s, word, i);
    }
    LinkedFrom(a', nx', list');
  }

  lemma LinkedFrom(a: seq<nat>, nx: seq<nat>, list: seq<nat>)
    requires |a| == |nx| && list != [] && list[0] == 0
    requires forall i :: 0 <= i < |list| ==>
               list[i] < |a| && a[list[i]] != 0 && a[list[i]] % 16 <= 1 && nx[list[i]] == NextOf(list, |a|, i)
    requires forall i, j :: 0 <= i < j < |list| ==> list[i] != list[j]
    requires forall s :: 0 <= s < |a| && a[s] != 0 ==> s in list
    ensures Linked(a, nx, list)
  {
  }

  lemma LinkedAt(a: seq<nat>, nx: seq<nat>, list: seq<nat>, i: nat, k: nat)
    requires Linked(a, nx, list) && i < |list| && k < |list|
    ensures |a| == |nx| && list[i] < |a| && a[list[i]] != 0 && a[list[i]] % 16 <= 1 && list[0] == 0
    ensures nx[list[i]] == NextOf(list, |a|, i)
    ensures i != k ==> list[i] != list[k]
  {
  }

  lemma InsertLinkAt(a: seq<nat>, nx: seq<nat>, list: seq<nat>, k: nat, s: nat, word: nat, i: nat)
    requires Linked(a, nx, list) && k < |list| && s < |a| && a[s] == 0 && word != 0 && word % 16 <= 1 && i <= |list|
    ensures |Inserted(list, k, s)| == |list| + 1 && list[k] < |a| == |nx|
    ensures var a', nx', list' := a[s := word], nx[s := nx[list[k]]][list[k] := s], Inserted(list, k, s);
            list'[i] < |a'| && a'[list'[i]] != 0 && a'[list'[i]] % 16 <= 1 && nx'[list'[i]] == NextOf(list', |a'|, i)
  {
    hide Linked, Inserted;
    InsertedLength(list, k, s);
    InsertedAt(list, k, s, i);
    LinkedAt(a, nx, list, k, k);
    if i != k + 1 {
      LinkedAt(a, nx, list, if i <= k then i else i - 1, k);
    }
    if i < |list| {
      InsertedAt(list, k, s, i + 1);
    }
  }

  lemma CellAt(a: seq<nat>, nx: seq<nat>, list: seq<nat>, i: nat)
    requires Linked(a, nx, list) && i < |list|
    ensures forall t :: 0 <= t < |list| ==> list[t] < |a|
    ensures CellsOf(a, list)[i] == CellOf(a[list[i]])
  {
  }

  /** Changing the word of a listed descriptor. */
  lemma WordLinks(a: seq<nat>, nx: seq<nat>, list: seq<nat>, k: nat, word: nat)
    requires Linked(a, nx, list) && k < |list| && word != 0 && word % 16 <= 1
    ensures Linked(a[list[k] := word], nx, list)
    ensures CellsOf(a[list[k] := word], list) == CellsOf(a, list)[k := CellOf(word)]
  {
    hide Base, InUse, CellOf, CellsOf;
    assert Linked(a[list[k] := word], nx, list);
    CellAt(a, nx, list, k);
    var c, d := CellsOf(a[list[k] := word], list), CellsOf(a, list)[k := CellOf(word)];
    forall i | 0 <= i < |list|
      ensures c[i] == d[i]
    {
      CellAt(a, nx, list, i);
      CellAt(a[list[k] := word], nx, list, i);
      LinkedAt(a, nx, list, i, k);
    }
  }

  lemma InsertCells(a: seq<nat>, nx: seq<nat>, list: seq<nat>, k: nat, s: nat, word: nat)
    requires Linked(a, nx, list) && k < |list| && s < |a| && a[s] == 0 && word != 0 && word % 16 <= 1
    ensures |Inserted(list, k, s)| == |list| + 1 && forall i :: 0 <= i < |list| ==> list[i] < |a|
    ensures forall i :: 0 <= i < |list| + 1 ==> Inserted(list, k, s)[i] < |a|
    ensures CellsOf(a[s := word], Inserted(list, k, s))
         == CellsOf(a, list)[..k + 1] + [CellOf(word)] + CellsOf(a, list)[k + 1..]
  {
    hide Base, InUse, CellOf, CellsOf, Inserted, Linked;
    LinkedAt(a, nx, list, k, k);
    var list' := Inserted(list, k, s);
    var nx' := nx[s := nx[list[k]]][list[k] := s];
    InsertLinks(a, nx, list, k, s, word);
    InsertedLength(list, k, s);
    CellAt(a, nx, list, 0);
    CellAt(a[s := word], nx', list', 0);
    var c, d := CellsOf(a[s := word], list'), CellsOf(a, list)[..k + 1] + [CellOf(word)] + CellsOf(a, list)[k + 1..];
    forall i | 0 <= i <= |list|
      ensures c[i] == d[i]
    {
      InsertedAt(list, k, s, i);
      CellAt(a[s := word], nx', list', i);
      if i != k + 1 {
        CellAt(a, nx, list, if i <= k then i else i - 1);
        LinkedAt(a, nx, list, if i <= k then i else i - 1, k);
      }
    }
  }

  lemma InsertedLength(list: seq<nat>, k: nat, s: nat)
    requires k < |list|
    ensures |Inserted(list, k, s)| == |list| + 1
  {
  }

  /** The descriptor `s` taken for the rest of the `k`-th block, which is then in use. */
  lemma SplitLinks(a: seq<nat>, nx: seq<nat>, list: seq<nat>, end: nat, k: nat, s: nat, need: nat)
    requires Linked(a, nx, list) && k < |list| && s < |a| && a[s] == 0
    requires !InUse(a[list[k]]) && need % 16 == 0
    requires WordAfter(CellsOf(a, list), end, k) - a[list[k]] > need
    ensures var p := list[k];
            var a', nx' := a[s := a[p] + need][p := a[p] + 1], nx[s := nx[p]][p := s];
            Linked(a', nx', Inserted(list, k, s))
              && CellsOf(a', Inserted(list, k, s)) == Taken(CellsOf(a, list), end, need, k)
  {
    hide Base, InUse, CellOf, Linked, Inserted, CellsOf;
    LinkedWord(a, nx, list, k);
    var p := list[k];
    FreeWord(a[p]);
    WordMade(a[p], need);
    var list' := Inserted(list, k, s);
    InsertedAt(list, k, s, k);
    InsertedLength(list, k, s);
    InsertLinks(a, nx, list, k, s, a[p] + need);
    InsertCells(a, nx, list, k, s, a[p] + need);
    WordLinks(a[s := a[p] + need], nx[s := nx[p]][p := s], list', k, a[p] + 1);
    var cells := CellsOf(a, list);
    assert (cells[..k + 1] + [Cell(a[p] + need, false)] + cells[k + 1..])[k := Cell(a[p], true)]
        == cells[..k] + [Cell(a[p], true), Cell(a[p] + need, false)] + cells[k + 1..];
  }

  lemma LinkedWord(a: seq<nat>, nx: seq<nat>, list: seq<nat>, k: nat)
    requires Linked(a, nx, list) && k < |list|
    ensures list[k] < |a| == |nx| && a[list[k]] % 16 <= 1 && a[list[k]] != 0
    ensures forall i :: 0 <= i < |list| ==> list[i] < |a|
    ensures CellsOf(a, list)[k] == CellOf(a[list[k]])
  {
  }

  lemma WholeLinks(a: seq<nat>, nx: seq<nat>, list: seq<nat>, end: nat, k: nat, need: nat)
    requires Linked(a, nx, list) && k < |list| && !InUse(a[list[k]])
    requires WordAfter(CellsOf(a, list), end, k) - a[list[k]] == need
    ensures var a' := a[list[k] := a[list[k]] + 1];
            Linked(a', nx, list) && CellsOf(a', list) == Taken(CellsOf(a, list), end, need, k)
  {
    hide Base, InUse, CellOf, Linked, CellsOf;
    LinkedWord(a, nx, list, k);
    FreeWord(a[list[k]]);
    WordMade(a[list[k]], 0);
    WordLinks(a, nx, list, k, a[list[k]] + 1);
  }

  // ---- taking a descriptor out of the list

  function Removed(list: seq<nat>, k: nat): seq<nat>
    requires k + 1 < |list|
  {
    list[..k + 1] + list[k + 2..]
  }

  lemma RemovedAt(list: seq<nat>, k: nat, i: nat)
    requires k + 1 < |list| && i + 1 < |list|
    ensures |Removed(list, k)| == |list| - 1
    ensures Removed(list, k)[i] == if i <= k then list[i] else list[i + 1]
  {
  }

  lemma RemoveLinkAt(a: seq<nat>, nx: seq<nat>, list: seq<nat>, k: nat, i: nat)
    requires Linked(a, nx, list) && k + 1 < |list| && i + 1 < |list|
    ensures list[k] < |a| == |nx| && list[k + 1] < |a| && |Removed(list, k)| == |list| - 1
    ensures var a', nx', list' := a[list[k + 1] := 0], nx[list[k] := nx[list[k + 1]]], Removed(list, k);
            list'[i] < |a'| && a'[list'[i]] != 0 && a'[list'[i]] % 16 <= 1 && nx'[list'[i]] == NextOf(list', |a'|, i)
  {
    hide Linked, Removed;
    RemovedAt(list, k, i);
    LinkedAt(a, nx, list, k, k);
    LinkedAt(a, nx, list, k + 1, k);
    var j := if i <= k then i else i + 1;
    LinkedAt(a, nx, list, j, k);
    LinkedAt(a, nx, list, j, k + 1);
    if i + 2 < |list| {
      RemovedAt(list, k, i + 1);
    }
  }

  lemma RemoveDistinct(a: seq<nat>, nx: seq<nat>, list: seq<nat>, k: nat)
    requires Linked(a, nx, list) && k + 1 < |list|
    ensures forall i, j :: 0 <= i < j < |Removed(list, k)| ==> Removed(list, k)[i] != Removed(list, k)[j]
  {
    hide Removed, Linked;
    RemovedAt(list, k, 0);
    forall i, j | 0 <= i < j < |Removed(list, k)|
      ensures Removed(list, k)[i] != Removed(list, k)[j]
    {
      RemovedAt(list, k, i);
      RemovedAt(list, k, j);
      LinkedAt(a, nx, list, if i <= k then i else i + 1, if j <= k then j else j + 1);
    }
  }

  lemma Covered(a: seq<nat>, nx: seq<nat>, list: seq<nat>, s: nat) returns (i: nat)
    requires Linked(a, nx, list) && s < |a| && a[s] != 0
    ensures i < |list| && list[i] == s
  {
    i :| 0 <= i < |list| && list[i] == s;
  }

  lemma RemoveCovers(a: seq<nat>, nx: seq<nat>, list: seq<nat>, k: nat)
    requires Linked(a, nx, list) && k + 1 < |list| && list[k + 1] < |a|
    ensures forall s :: 0 <= s < |a| && a[list[k + 1] := 0][s] != 0 ==> s in Removed(list, k)
  {
    hide Removed, Linked;
    RemovedAt(list, k, 0);
    forall s | 0 <= s < |a| && a[list[k + 1] := 0][s] != 0
      ensures s in Removed(list, k)
    {
      var i := Covered(a, nx, list, s);
      RemovedAt(list, k, if i <= k then i else i - 1);
    }
  }

  /** Unlinking the descriptor behind the `k`-th. */
  lemma RemoveLinks(a: seq<nat>, nx: seq<nat>, list: seq<nat>, k: nat)
    requires Linked(a, nx, list) && k + 1 < |list|
    ensures list[k] < |a| == |nx| && list[k + 1] < |a|
    ensures Linked(a[list[k + 1] := 0], nx[list[k] := nx[list[k + 1]]], Removed(list, k))
  {
    hide Linked, Removed;
    LinkedAt(a, nx, list, k, 0);
    LinkedAt(a, nx, list, k + 1, 0);
    RemovedAt(list, k, 0);
    var a', nx', list' := a[list[k + 1] := 0], nx[list[k] := nx[list[k + 1]]], Removed(list, k);
    RemoveDistinct(a, nx, list, k);
    RemoveCovers(a, nx, list, k);
    forall i | 0 <= i < |list'|
      ensures list'[i] < |a'| && a'[list'[i]] != 0 && a'[list'[i]] % 16 <= 1 && nx'[list'[i]] == NextOf(list', |a'|, i)
    {
      RemoveLinkAt(a, nx, list, k, i);
    }
    LinkedFrom(a', nx', list');
  }

  /** Unlinking the descriptor behind the `k`-th joins its block to that of the `k`-th. */
  lemma RemoveCells(a: seq<nat>, nx: seq<nat>, list: seq<nat>, k: nat)
    requires Linked(a, nx, list) && k + 1 < |list|
    ensures (forall t :: 0 <= t < |list| ==> list[t] < |a|) && |Removed(list, k)| == |list| - 1
    ensures forall t :: 0 <= t < |Removed(list, k)| ==> Removed(list, k)[t] < |a|
    ensures CellsOf(a[list[k + 1] := 0], Removed(list, k)) == CellsOf(a, list)[..k + 1] + CellsOf(a, list)[k + 2..]
  {
    hide Linked, Removed, CellsOf, CellOf;
    CellAt(a, nx, list, 0);
    LinkedAt(a, nx, list, k, 0);
    RemovedAt(list, k, 0);
    var a', nx', list' := a[list[k + 1] := 0], nx[list[k] := nx[list[k + 1]]], Removed(list, k);
    RemoveLinks(a, nx, list, k);
    CellAt(a', nx', list', 0);
    var c, d := CellsOf(a', list'), CellsOf(a, list)[..k + 1] + CellsOf(a, list)[k + 2..];
    forall i | 0 <= i < |list'|
      ensures c[i] == d[i]
    {
      RemovedAt(list, k, i);
      CellAt(a', nx', list', i);
      var j := if i <= k then i else i + 1;
      CellAt(a, nx, list, j);
      LinkedAt(a, nx, list, j, k + 1);
    }
  }

  ghost predicate Bounded(cells: seq<Cell>, end: nat) {
    end % 16 == 0 && forall i :: 0 <= i < |cells| ==> cells[i].base % 16 == 0 && cells[i].base < end
  }

  lemma TiledBounded(cells: seq<Cell>, start: nat, end: nat)
    requires Tiled(cells, start, end)
    ensures Bounded(cells, end)
  {
  }

  lemma BasePositive(cells: seq<Cell>, start: nat, end: nat, k: nat)
    requires Tiled(cells, start, end) && k < |cells| && start > 0
    ensures cells[k].base > 0 && cells[k].base % 16 == 0
  {
    OrderedBases(cells, start, end, 0, k);
  }

  /** The two joins, one after the other, are what freeing means. */
  lemma FreedSteps(cells: seq<Cell>, k: nat)
    requires k < |cells|
    ensures var c1 := cells[k := Cell(cells[k].base, false)];
            var back := k > 0 && !cells[k - 1].used;
            var c2 := if back then c1[..k] + c1[k + 1..] else c1;
            var m := if back then k - 1 else k;
            Freed(cells, k) == if m + 1 < |c2| && !c2[m + 1].used then c2[..m + 1] + c2[m + 2..] else c2
  {
  }

  lemma FitStep(cells: seq<Cell>, end: nat, size: nat, k: nat)
    requires k < |cells|
    ensures FirstFit(cells, end, size, k) ==
            if !cells[k].used && WordAfter(cells, end, k) - cells[k].base >= size then Some(k)
            else FirstFit(cells, end, size, k + 1)
    ensures FirstFit(cells, end, size, |cells|) == None
  {
  }

  /** The blocks after each of the three steps of freeing the `k`-th. */
  lemma FreedInSteps(cells: seq<Cell>, k: nat, c1: seq<Cell>, c2: seq<Cell>, m: nat, c3: seq<Cell>)
    requires k < |cells| && c1 == cells[k := Cell(cells[k].base, false)]
    requires if k > 0 && !cells[k - 1].used then c2 == c1[..k] + c1[k + 1..] && m == k - 1 else c2 == c1 && m == k
    requires c3 == if m + 1 < |c2| && !c2[m + 1].used then c2[..m + 1] + c2[m + 2..] else c2
    ensures c3 == Freed(cells, k)
  {
    hide Freed;
    FreedSteps(cells, k);
  }

  lemma BoundedKept(cells: seq<Cell>, end: nat, k: nat)
    requires Bounded(cells, end) && k < |cells|
    ensures Bounded(cells[k := Cell(cells[k].base, false)], end)
    ensures Bounded(cells[..k] + cells[k + 1..], end)
  {
  }

  class Heap {
    const start: nat
    const end: nat
    /** The two fields of the descriptors: address word (zero: unused) and index of the next one. */
    const addr: array<nat>
    const next: array<nat>
    ghost var list: seq<nat>

    ghost predicate Shaped()
      reads {}
    {
      addr.Length == next.Length >= 1 && addr != next && 0 < start < end && start % 16 == 0 && end % 16 == 0
    }

    ghost function Cells(): seq<Cell>
      requires Linked(addr[..], next[..], list)
      reads this, addr, next
    {
      CellsOf(addr[..], list)
    }

    /** The blocks in use. */
    ghost function Allocated(): multiset<Block>
      requires Linked(addr[..], next[..], list)
      reads this, addr, next
    {
      LiveBlocks(Cells(), end)
    }

    ghost predicate Valid()
      reads this, addr, next
    {
      Shaped() && Linked(addr[..], next[..], list) && Tiled(Cells(), start, end) && Merged(Cells())
    }

    /** The word at a descriptor, or at the end of the list. */
    function Word(s: nat): nat
      requires s <= addr.Length
      reads addr
    {
      if s == addr.Length then end else addr[s]
    }

    constructor (arenaStart: nat, arenaEnd: nat, descriptors: nat)
      requires 0 < arenaStart < arenaEnd && arenaStart % 16 == 0 && arenaEnd % 16 == 0 && descriptors >= 1
      ensures Valid() && Cells() == [Cell(arenaStart, false)] && start == arenaStart && end == arenaEnd
      ensures Allocated() == multiset{} && addr.Length == descriptors && fresh(addr) && fresh(next)
    {
      start, end := arenaStart, arenaEnd;
      addr := new nat[descriptors](i => if i == 0 then arenaStart else 0);
      next := new nat[descriptors](i => descriptors);
      list := [0];
      new;
      LiveOne(Cell(arenaStart, false), arenaEnd);
    }

    /** Some descriptor is unused. */
    ghost predicate SlotFree()
      reads addr
    {
      exists s :: 0 <= s < addr.Length && addr[s] == 0
    }

    /** Descriptors run out exactly when there are as many blocks. */
    lemma SlotFreeIs()
      requires Shaped() && Linked(addr[..], next[..], list)
      ensures |Cells()| <= addr.Length && (SlotFree() <==> |Cells()| < addr.Length)
    {
      Crowded(list, addr.Length);
      if SlotFree() {
        var s :| 0 <= s < addr.Length && addr[s] == 0;
        assert s !in list;
      }
    }

    /** Two blocks in use never overlap. */
    lemma Apart(a: Block, b: Block)
      requires Valid() && a in Allocated() && b in Allocated() - multiset{a}
      ensures a.base + a.len <= b.base || b.base + b.len <= a.base
      ensures start <= a.base && a.len >= 0 && a.base + a.len <= end
    {
      hide LiveBlocks, Tiled, Merged, Linked, CellsOf;
      LiveDisjoint(Cells(), start, end, a, b);
      LiveWithin(Cells(), start, end, a);
    }

    /** Freeing `b` by its base would release exactly `b`. */
    ghost predicate Freeable(b: Block)
      requires Linked(addr[..], next[..], list)
      reads this, addr, next
    {
      FoundFirst(Cells(), end, b)
    }

    /** Takes the first free block that is large enough, splitting it if it is larger: one more block is
        in use, of the rounded size, and all others stay. */
    method Malloc(size: nat) returns (r: Option<nat>)
      requires Valid()
      modifies this`list, addr, next
      ensures Valid()
      ensures var cells := old(Cells());
              var fit := FirstFit(cells, end, Rounded(size), 0);
              && (r.None? <==> fit.None? || (WordAfter(cells, end, fit.value) - cells[fit.value].base > Rounded(size)
                                             && |cells| == addr.Length))
              && (r.Some? ==>
                    && r == Some(cells[fit.value].base)
                    && Cells() == Taken(cells, end, Rounded(size), fit.value))
      ensures r.None? ==> Cells() == old(Cells())
      ensures r.Some? ==> && Allocated() == old(Allocated()) + multiset{Block(r.value, Rounded(size))}
                          && start <= r.value && r.value + Rounded(size) <= end && r.value % 16 == 0
      ensures r.Some? && size < WORD ==> (Rounded(size) >= size + 16 <==> size + 0x1f < WORD)
      ensures r.Some? && Solid(old(Cells()), end) ==> (Solid(Cells(), end) <==> Rounded(size) > 0)
    {
      hide FirstFit, Tiled, Merged, Taken, Rounded, Linked, CellsOf, WordAfter, LiveBlocks, Solid;
      var need := Rounded(size);
      RoundedWhole(size);
      var p: nat := 0;
      ghost var k: nat := 0;
      ListStart();
      while Word(p) != end
        invariant Valid() && Cells() == old(Cells())
        invariant k <= |list| && p == (if k < |list| then list[k] else addr.Length) <= addr.Length
        invariant FirstFit(Cells(), end, need, k) == FirstFit(Cells(), end, need, 0)
        decreases |list| - k
      {
        WordsOf(addr[..], next[..], list, start, end, k);
        FitStep(Cells(), end, need, k);
        if !InUse(addr[p]) {
          var room := Word(next[p]) - addr[p];
          if room >= need {
            SlotFreeIs();
            r := Take(k, p, room, need);
            if r.Some? {
              NewBlock(old(Cells()), size, k);
            }
            return;
          }
        }
        p := next[p];
        k := k + 1;
      }
      if k < |list| {
        WordsOf(addr[..], next[..], list, start, end, k);
      }
      FitEnd(Cells(), end, need);
      return None;
    }

    /** What a block taken adds. */
    lemma NewBlock(cells: seq<Cell>, size: nat, k: nat)
      requires Tiled(cells, start, end) && k < |cells| && !cells[k].used
      requires WordAfter(cells, end, k) - cells[k].base >= Rounded(size)
      ensures var next := Taken(cells, end, Rounded(size), k);
              && LiveBlocks(next, end) == LiveBlocks(cells, end) + multiset{Block(cells[k].base, Rounded(size))}
              && start <= cells[k].base && cells[k].base + Rounded(size) <= end && cells[k].base % 16 == 0
              && (Solid(cells, end) ==> (Solid(next, end) <==> Rounded(size) > 0))
      ensures size < WORD ==> (Rounded(size) >= size + 16 <==> size + 0x1f < WORD)
    {
      hide LiveBlocks, Taken, Tiled, WordAfter, Solid, Rounded;
      RoundedWhole(size);
      if size < WORD {
        RoundedIsEnough(size);
      }
      TakenTiles(cells, start, end, Rounded(size), k);
      TakenLive(cells, start, end, Rounded(size), k);
      if Solid(cells, end) {
        TakenSolid(cells, start, end, Rounded(size), k);
      }
      var b := Block(cells[k].base, Rounded(size));
      assert b in LiveBlocks(Taken(cells, end, Rounded(size), k), end);
      LiveWithin(Taken(cells, end, Rounded(size), k), start, end, b);
    }

    /** Takes `need` bytes of the `k`-th block, if a descriptor can be found for the rest. */
    method Take(ghost k: nat, p: nat, room: int, need: nat) returns (r: Option<nat>)
      requires Valid() && k < |list| && p == list[k] && p < addr.Length && next[p] <= addr.Length
      requires !InUse(addr[p]) && Base(addr[p]) == addr[p] && Cells()[k] == CellOf(addr[p])
      requires room == Word(next[p]) - addr[p] == WordAfter(Cells(), end, k) - addr[p] && room >= need && need % 16 == 0
      modifies this`list, addr, next
      ensures Valid()
      ensures r.None? <==> room > need && !old(SlotFree())
      ensures r.None? ==> Cells() == old(Cells())
      ensures r.Some? ==> r == Some(old(addr[p])) && Cells() == Taken(old(Cells()), end, need, k)
    {
      hide Tiled, Merged, Taken, Linked, CellsOf, WordAfter;
      TakenTiles(Cells(), start, end, need, k);
      TakenMerged(Cells(), end, need, k);
      ghost var a: seq<nat>, nx: seq<nat> := addr[..], next[..];
      if room > need {
        var s: nat := 0;
        while addr[s] != 0
          invariant 0 <= s < addr.Length && forall t :: 0 <= t < s ==> addr[t] != 0
          invariant addr[..] == a && next[..] == nx
          decreases addr.Length - s
        {
          if s == addr.Length - 1 {
            return None;
          }
          s := s + 1;
        }
        SplitLinks(a, nx, list, end, k, s, need);
        InsertLinksDiffer(a, nx, list, k, s);
        addr[s] := addr[p] + need;
        next[s] := next[p];
        next[p] := s;
        list := Inserted(list, k, s);
        assert addr[..] == a[s := a[p] + need] && next[..] == nx[s := nx[p]][p := s];
      } else {
        WholeLinks(a, nx, list, end, k, need);
      }
      r := Some(addr[p]);
      ghost var now: seq<nat> := addr[..];
      addr[p] := addr[p] + 1;
      assert addr[..] == now[p := now[p] + 1];
    }

    /** Sets free the first block that begins at `ptr`, and joins it to its free neighbours: that block is
        no longer in use, and all others stay. */
    method Free(ptr: nat)
      requires Valid()
      modifies this`list, addr, next
      ensures Valid()
      ensures Cells() == if ptr != 0 && Find(old(Cells()), ptr, 0).Some?
                         then Freed(old(Cells()), Find(old(Cells()), ptr, 0).value)
                         else old(Cells())
      ensures var cells, f := old(Cells()), Find(old(Cells()), ptr, 0);
              if f.Some? && cells[f.value].used then
                old(Allocated()) == Allocated() + multiset{Block(ptr, Len(cells, end, f.value))}
              else Cells() == cells
      ensures forall b :: b in old(Allocated()) && b.base == ptr ==>
                (old(Allocated()) == Allocated() + multiset{b} <==> old(Freeable(b)))
      ensures Solid(old(Cells()), end) ==> Solid(Cells(), end)
    {
      hide Find, Freed, Tiled, Merged, Linked, CellsOf, WordAfter, LiveBlocks, Solid, FoundFirst;
      WhatFreeDoes(Cells(), ptr);
      if ptr == 0 {
        return;
      }
      ListStart();
      var p: nat, before: nat := 0, 0;
      ghost var k: nat := 0;
      while Word(p) != end
        invariant Valid() && Cells() == old(Cells())
        invariant k <= |list| && p == (if k < |list| then list[k] else addr.Length) <= addr.Length
        invariant before == if k == 0 then 0 else list[k - 1]
        invariant Find(Cells(), ptr, k) == Find(Cells(), ptr, 0)
        decreases |list| - k
      {
        WordsOf(addr[..], next[..], list, start, end, k);
        FindStep(Cells(), ptr, k);
        if Base(addr[p]) == ptr {
          Release(k, p, before);
          return;
        }
        before := p;
        p := next[p];
        k := k + 1;
      }
      if k < |list| {
        WordsOf(addr[..], next[..], list, start, end, k);
      }
      FindStep(Cells(), ptr, |list|);
    }

    /** What freeing the first block at `ptr` means for the blocks in use. */
    lemma WhatFreeDoes(cells: seq<Cell>, ptr: nat)
      requires Tiled(cells, start, end) && Merged(cells) && Shaped()
      ensures Find(cells, 0, 0).None?
      ensures var f := Find(cells, ptr, 0);
              f.Some? ==>
                var next := Freed(cells, f.value);
                && (if cells[f.value].used then
                      LiveBlocks(cells, end) == LiveBlocks(next, end) + multiset{Block(ptr, Len(cells, end, f.value))}
                    else next == cells)
                && (Solid(cells, end) ==> Solid(next, end))
                && (forall b :: b in LiveBlocks(cells, end) && b.base == ptr ==>
                      (LiveBlocks(cells, end) == LiveBlocks(next, end) + multiset{b} <==> FoundFirst(cells, end, b)))
      ensures Find(cells, ptr, 0).None? ==> forall b :: b in LiveBlocks(cells, end) ==> b.base != ptr
    {
      hide LiveBlocks, Tiled, Merged, Freed, Find, Solid, FoundFirst;
      if Find(cells, 0, 0).Some? {
        BasePositive(cells, start, end, Find(cells, 0, 0).value);
      }
      forall b | b in LiveBlocks(cells, end) && b.base == ptr
        ensures Find(cells, ptr, 0).Some?
        ensures LiveBlocks(cells, end) == LiveBlocks(Freed(cells, Find(cells, ptr, 0).value), end) + multiset{b}
           <==> FoundFirst(cells, end, b)
      {
        FreeExact(cells, start, end, b);
      }
      if Find(cells, ptr, 0).Some? {
        var i := Find(cells, ptr, 0).value;
        if cells[i].used {
          FreedLive(cells, end, i);
          if Solid(cells, end) {
            FreedSolid(cells, end, i);
          }
        } else {
          FreedShadowed(cells, ptr);
        }
      }
    }

    /** Frees the `k`-th block, `before` being the descriptor before it. */
    method Release(ghost k: nat, p0: nat, before: nat)
      requires Valid() && k < |list| && p0 == list[k] && p0 < addr.Length
      requires before == if k == 0 then 0 else list[k - 1]
      modifies this`list, addr, next
      ensures Valid() && Cells() == Freed(old(Cells()), k)
    {
      hide Freed, Tiled, Merged, Linked, CellsOf, WordAfter, Base, InUse, Removed, Bounded;
      ghost var cells := Cells();
      FreedTiles(cells, start, end, k);
      TiledBounded(cells, start, end);
      BoundedKept(cells, end, k);
      ClearUse(k, p0);
      ghost var c1 := Cells();
      var p := p0;
      ghost var m := k;
      Neighbour(k);
      if p0 != before && !InUse(addr[before]) {
        BoundedKept(c1, end, k);
        Unlink(k - 1, before, p0);
        RemovedAt(old(list), k - 1, k - 1);
        m := k - 1;
        p := before;
      }
      ghost var c2 := Cells();
      JoinAhead(m, p);
      FreedInSteps(cells, k, c1, c2, m, Cells());
    }

    /** Joins the block of `p` to the one behind it if that is free. */
    method JoinAhead(ghost m: nat, p: nat)
      requires Shaped() && Linked(addr[..], next[..], list) && m < |list| && p == list[m] && p < addr.Length
      requires Bounded(Cells(), end)
      modifies this`list, addr, next
      ensures Linked(addr[..], next[..], list)
      ensures var c := old(Cells());
              Cells() == if m + 1 < |c| && !c[m + 1].used then c[..m + 1] + c[m + 2..] else c
    {
      hide Linked, CellsOf, Base, InUse, Bounded;
      AtDescriptor(m);
      var q := next[p];
      if Word(q) != end && !InUse(Word(q)) {
        Unlink(m, p, q);
      }
    }

    /** P->addr &= ~0xf */
    method ClearUse(ghost k: nat, p: nat)
      requires Valid() && k < |list| && p == list[k] && p < addr.Length
      modifies addr
      ensures Linked(addr[..], next[..], list) && Cells() == old(Cells())[k := Cell(old(Cells())[k].base, false)]
    {
      hide Tiled, Merged, Linked, CellsOf, WordAfter, Base, InUse;
      ghost var a: seq<nat> := addr[..];
      LinkedWord(a, next[..], list, k);
      WordIs(a[p]);
      WordMade(Base(a[p]), 0);
      BasePositive(Cells(), start, end, k);
      WordLinks(a, next[..], list, k, Base(a[p]));
      addr[p] := Base(addr[p]);
      assert addr[..] == a[p := Base(a[p])];
    }

    /** The descriptor before the `k`-th, and whether its block is in use. */
    lemma Neighbour(k: nat)
      requires Shaped() && Linked(addr[..], next[..], list) && k < |list|
      ensures list[0] == 0 && list[k] < addr.Length
      ensures k > 0 ==> list[k - 1] != list[k] && list[k - 1] < addr.Length
                        && (Cells()[k - 1].used <==> InUse(addr[list[k - 1]]))
    {
      hide Linked, CellsOf, Base, InUse;
      LinkedAt(addr[..], next[..], list, k, 0);
      if k > 0 {
        LinkedAt(addr[..], next[..], list, k - 1, k);
        CellAt(addr[..], next[..], list, k - 1);
      }
    }

    /** What the `m`-th descriptor is linked to. */
    lemma AtDescriptor(m: nat)
      requires Shaped() && Linked(addr[..], next[..], list) && m < |list| && Bounded(Cells(), end)
      ensures list[m] < addr.Length && next[list[m]] <= addr.Length
      ensures Word(next[list[m]]) != end <==> m + 1 < |list|
      ensures m + 1 < |list| ==> next[list[m]] == list[m + 1] && next[list[m]] < addr.Length
                                 && (Cells()[m + 1].used <==> InUse(addr[list[m + 1]]))
    {
      hide Linked, CellsOf, Base, InUse;
      LinkedAt(addr[..], next[..], list, m, 0);
      if m + 1 < |list| {
        LinkedAt(addr[..], next[..], list, m + 1, 0);
        CellAt(addr[..], next[..], list, m + 1);
        WordIs(addr[list[m + 1]]);
        NotTheEnd(addr[list[m + 1]], Base(addr[list[m + 1]]), end);
      }
    }

    /** Takes the descriptor `q` behind `p` out of the list. */
    method Unlink(ghost k: nat, p: nat, q: nat)
      requires Shaped() && Linked(addr[..], next[..], list) && k + 1 < |list|
      requires p == list[k] && q == list[k + 1] && p < addr.Length && q < addr.Length
      modifies this`list, addr, next
      ensures Linked(addr[..], next[..], list) && list == Removed(old(list), k)
      ensures Cells() == old(Cells())[..k + 1] + old(Cells())[k + 2..]
    {
      hide Linked, Removed, CellsOf;
      ghost var a: seq<nat>, nx: seq<nat> := addr[..], next[..];
      RemoveLinks(a, nx, list, k);
      RemoveCells(a, nx, list, k);
      addr[q] := 0;
      next[p] := next[q];
      list := Removed(list, k);
      assert addr[..] == a[q := 0] && next[..] == nx[p := nx[q]];
    }

    lemma ListStart()
      requires Valid()
      ensures |list| >= 1 && list[0] == 0 && 0 < addr.Length
    {
    }
  }

  // ---- two runs after which a block in use cannot be freed

  /** The heap of 16 to 4096 while two blocks of 32 are taken, the first freed and taken again, and the
      second freed: the second time, the exact fit leaves an empty free block at 48. */
  lemma ExactFitSteps()
    ensures Rounded(16) == 32
    ensures var c0 := [Cell(16, false)];
            var c1 := [Cell(16, true), Cell(48, false)];
            var c2 := [Cell(16, true), Cell(48, true), Cell(80, false)];
            var c3 := [Cell(16, false), Cell(48, true), Cell(80, false)];
            var c4 := [Cell(16, true), Cell(48, false), Cell(48, true), Cell(80, false)];
            && FirstFit(c0, 4096, 32, 0) == Some(0) && Taken(c0, 4096, 32, 0) == c1
            && FirstFit(c1, 4096, 32, 0) == Some(1) && Taken(c1, 4096, 32, 1) == c2
            && Find(c2, 16, 0) == Some(0) && Freed(c2, 0) == c3
            && FirstFit(c3, 4096, 32, 0) == Some(0) && Taken(c3, 4096, 32, 0) == c4
            && Find(c4, 48, 0) == Some(1) && !c4[1].used
  {
    var c1 := [Cell(16, true), Cell(48, false)];
    FitStep(c1, 4096, 32, 0);
    FitStep(c1, 4096, 32, 1);
    var c4 := [Cell(16, true), Cell(48, false), Cell(48, true), Cell(80, false)];
    FindStep(c4, 48, 0);
    FindStep(c4, 48, 1);
  }

  /** A request that wraps around takes an empty block at 16; the block of the next request begins there,
      too, and freeing 16 frees the empty one. */
  lemma WrappedSteps()
    ensures Rounded(0xFFFF_FFE1) == 0 && Rounded(16) == 32
    ensures var c0 := [Cell(16, false)];
            var c1 := [Cell(16, true), Cell(16, false)];
            var c2 := [Cell(16, true), Cell(16, true), Cell(48, false)];
            && FirstFit(c0, 4096, 0, 0) == Some(0) && Taken(c0, 4096, 0, 0) == c1
            && FirstFit(c1, 4096, 32, 0) == Some(1) && Taken(c1, 4096, 32, 1) == c2
            && Find(c2, 16, 0) == Some(0) && Len(c2, 4096, 0) == 0
            && Freed(c2, 0) == [Cell(16, false), Cell(16, true), Cell(48, false)]
  {
    var c1 := [Cell(16, true), Cell(16, false)];
    FitStep(c1, 4096, 32, 0);
    FitStep(c1, 4096, 32, 1);
  }

  /** An exact fit before a block in use keeps that block from being freed: the last call of the run
      changes nothing, although the block is in use. */
  method ExactFitLeaks() returns (h: Heap, ghost before: seq<Cell>)
    ensures h.Valid() && h.Cells() == before == [Cell(16, true), Cell(48, false), Cell(48, true), Cell(80, false)]
    ensures Block(48, 32) in h.Allocated() && Solid(h.Cells(), h.end)
  {
    hide FirstFit, Taken, Find, Freed, Rounded, WordAfter, Linked, CellsOf, LiveBlocks, Tiled, Merged, Solid,
         FoundFirst;
    ExactFitSteps();
    h := new Heap(16, 4096, 4);
    assert Solid(h.Cells(), h.end) by {
      SolidNone(h.Cells(), h.end);
    }
    var first := h.Malloc(16);
    var second := h.Malloc(16);
    h.Free(16);
    var third := h.Malloc(16);
    before := h.Cells();
    h.Free(48);
    assert before[2] == Cell(48, true);
    IndexLive(before, h.end, 2);
  }

  lemma SolidNone(cells: seq<Cell>, end: nat)
    requires LiveBlocks(cells, end) == multiset{}
    ensures Solid(cells, end)
  {
  }

  /** After a wrapped request the block of a later one cannot be freed, though no empty free block is in
      its way: the last call frees another block that begins there. */
  method WrappedRequestLeaks() returns (h: Heap, ghost before: seq<Cell>)
    ensures h.Valid() && h.Cells() == [Cell(16, false), Cell(16, true), Cell(48, false)]
    ensures before == [Cell(16, true), Cell(16, true), Cell(48, false)] && !Shadowed(before, 16)
    ensures Block(16, 32) in h.Allocated()
  {
    hide FirstFit, Taken, Find, Freed, Rounded, WordAfter, Linked, CellsOf, LiveBlocks, Tiled, Merged, Solid,
         FoundFirst;
    WrappedSteps();
    h := new Heap(16, 4096, 4);
    var empty := h.Malloc(0xFFFF_FFE1);
    var block := h.Malloc(16);
    before := h.Cells();
    h.Free(16);
    assert h.Cells()[1] == Cell(16, true);
    IndexLive(h.Cells(), h.end, 1);
  }

  function Upto(n: nat): (r: set<nat>)
    ensures |r| == n && forall s: nat :: s in r <==> s < n
  {
    if n == 0 then {} else Upto(n - 1) + {n - 1}
  }

  function Elements(list: seq<nat>): (r: set<nat>)
    ensures forall s :: s in r <==> s in list
  {
    if list == [] then {} else {list[0]} + Elements(list[1..])
  }

  lemma {:induction false} ElementCount(list: seq<nat>)
    requires forall i, j :: 0 <= i < j < |list| ==> list[i] != list[j]
    ensures |Elements(list)| == |list|
  {
    if list != [] {
      ElementCount(list[1..]);
      assert list[0] !in list[1..];
    }
  }

  /** Distinct numbers below `n`: as many as `n` just if none is missing. */
  lemma Crowded(list: seq<nat>, n: nat)
    requires forall i :: 0 <= i < |list| ==> list[i] < n
    requires forall i, j :: 0 <= i < j < |list| ==> list[i] != list[j]
    ensures |list| <= n && (|list| == n <==> forall s :: 0 <= s < n ==> s in list)
  {
    var all, some := Upto(n), Elements(list);
    ElementCount(list);
    assert some <= all;
    assert all == some + (all - some);
    if |list| == n {
      assert all - some == {};
      assert all == some;
    }
    if forall s :: 0 <= s < n ==> s in list {
      assert all - some == {};
    }
  }

  lemma InsertLinksDiffer(a: seq<nat>, nx: seq<nat>, list: seq<nat>, k: nat, s: nat)
    requires Linked(a, nx, list) && k < |list| && s < |a| && a[s] == 0
    ensures s != list[k]
  {
  }

  lemma FindStep(cells: seq<Cell>, ptr: nat, k: nat)
    requires k <= |cells|
    ensures k < |cells| ==> Find(cells, ptr, k) == if cells[k].base == ptr then Some(k) else Find(cells, ptr, k + 1)
    ensures k == |cells| ==> Find(cells, ptr, k) == None
  {
  }

  lemma RoundedWhole(size: nat)
    ensures Rounded(size) % 16 == 0
  {
  }

  lemma FitEnd(cells: seq<Cell>, end: nat, size: nat)
    ensures FirstFit(cells, end, size, |cells|) == None
  {
  }
}
