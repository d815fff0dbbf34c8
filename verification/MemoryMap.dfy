/** How much memory is available from an address on, by an unsorted BIOS memory map. */
module MemoryMap {
  const MB_ARD_MEMORY: nat := 1
  const FOUR_GIG: nat := 0x1_0000_0000
  const TOP_64: nat := 0x1_0000_0000_0000_0000

  /** One range of the map; the fields are 64-bit words. */
  datatype Range = Range(base: nat, length: nat, kind: nat) {
    /** Its end, as 64-bit addition gives it. */
    function End(): nat {
      (base + length) % TOP_64
    }

    predicate Covers(a: nat) {
      kind == MB_ARD_MEMORY && base <= a < End()
    }
  }

  ghost predicate Covered(ranges: seq<Range>, a: nat) {
    exists i :: 0 <= i < |ranges| && ranges[i].Covers(a)
  }

  /** Ranges of a kind other than 1, and those that wrap around, cover nothing; any other covers what it
      names. */
  lemma CoversExactly(r: Range, a: nat)
    requires r.base < 0x1_0000_0000_0000_0000 && r.length < 0x1_0000_0000_0000_0000
    ensures r.Covers(a) <==>
              r.kind == 1 && r.base + r.length < 0x1_0000_0000_0000_0000 && r.base <= a < r.base + r.length
  {
    if r.base + r.length >= TOP_64 {
      assert r.End() == r.base + r.length - TOP_64 < r.base;
    }
  }

  /** `n` bytes from `bottom` on are available and the next one is not. */
  ghost predicate Extends(ranges: seq<Range>, bottom: nat, n: nat) {
    && (forall a :: bottom <= a < bottom + n ==> Covered(ranges, a))
    && !Covered(ranges, bottom + n)
  }

  /** There is one such size only, whatever the order of the ranges. */
  lemma ExtentUnique(ranges: seq<Range>, other: seq<Range>, bottom: nat, n: nat, m: nat)
    requires multiset(ranges) == multiset(other)
    requires Extends(ranges, bottom, n) && Extends(other, bottom, m)
    ensures n == m
  {
    SameCover(ranges, other, bottom + n);
    SameCover(ranges, other, bottom + m);
  }

  lemma SameCover(ranges: seq<Range>, other: seq<Range>, a: nat)
    requires multiset(ranges) == multiset(other)
    ensures Covered(ranges, a) <==> Covered(other, a)
  {
    if Covered(ranges, a) {
      var i :| 0 <= i < |ranges| && ranges[i].Covers(a);
      assert ranges[i] in multiset(other);
      assert ranges[i] in other;
    }
    if Covered(other, a) {
      var i :| 0 <= i < |other| && other[i].Covers(a);
      assert other[i] in multiset(ranges);
      assert other[i] in ranges;
    }
  }

  /** Passes over the list until one pass adds nothing; the ranges may come in any order and
      overlap. */
  method MmapAvailAt(ranges: seq<Range>, bottom: nat) returns (size: nat)
    requires bottom < TOP_64
    ensures bottom >= 0x1_0000_0000 ==> Extends(ranges, bottom, size)
    ensures bottom < 0x1_0000_0000 ==>
              if Covered(ranges, bottom + size) then bottom + size == 0x1_0000_0000
                && forall a :: bottom <= a < 0x1_0000_0000 ==> Covered(ranges, a)
              else bottom + size <= 0x1_0000_0000 && Extends(ranges, bottom, size)
  {
    var top: nat := bottom;
    while true
      invariant bottom <= top < TOP_64
      invariant forall a :: bottom <= a < top ==> Covered(ranges, a)
      decreases TOP_64 - top
    {
      ghost var top0 := top;
      var cont := 0;
      var i := 0;
      while i < |ranges|
        invariant 0 <= i <= |ranges| && top0 <= top < TOP_64 && cont >= 0
        invariant forall a :: bottom <= a < top ==> Covered(ranges, a)
        invariant if cont == 0 then top == top0 && forall j :: 0 <= j < i ==> !ranges[j].Covers(top) else top > top0
      {
        var desc := ranges[i];
        if desc.kind == MB_ARD_MEMORY && desc.base <= top && desc.End() > top {
          assert forall a :: top <= a < desc.End() ==> ranges[i].Covers(a);
          top := desc.End();
          cont := cont + 1;
        }
        i := i + 1;
      }
      if cont == 0 {
        break;
      }
    }
    if top > FOUR_GIG && bottom < FOUR_GIG {
      top := FOUR_GIG;
    }
    size := top - bottom;
  }
}
