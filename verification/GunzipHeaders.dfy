/** Fixed and dynamic block headers: from code lengths to decoding tables. */
module GunzipHeaders {
  import opened Words
  import opened Arith
  import opened Bits
  import opened BitInput
  import opened Huffman
  import opened HuftSpace
  import opened HuftCounts
  import opened HuftBuilder
  import opened HuftCanonical
  import opened Deflate
  import opened GunzipBlocks

  const LBITS: nat := 9
  const DBITS: nat := 6

  lemma ExtraListsOk()
    ensures ExtrasOk(CPLEXT) && ExtrasOk(CPDEXT)
  {
  }

  // ---- sets of lengths without any code

  lemma NoneCoded(b: seq<nat>)
    requires LengthsOk(b) && Kraft(b) == 0
    ensures forall i :: 0 <= i < |b| ==> b[i] == 0
  {
    hide Counts, Rank;
    SpaceAtLeast(Counts(b), BMAX);
    NoTotal(Counts(b), BMAX);
    forall i | 0 <= i < |b|
      ensures b[i] == 0
    {
      RankBelow(b, i);
    }
  }

  lemma EmptyDecodes(tabs: seq<seq<Huft>>, n: nat, b: seq<nat>, s: nat, d: seq<nat>, e: seq<nat>)
    requires LengthsOk(b) && Kraft(b) == 0
    ensures Decodes(tabs, n, b, s, d, e) && Flat(tabs, n, b, s, d, e)
  {
    hide Code, Walk, LE, Kraft;
    NoneCoded(b);
  }

  lemma EmptyRefuses(tabs: seq<seq<Huft>>, n: nat, b: seq<nat>)
    requires LengthsOk(b) && Kraft(b) == 0 && b != []
    ensures Refuses(tabs, n, b)
  {
    hide Walk, NoCode, Kraft;
    NoneCoded(b);
    assert b[0] == 0;
  }

  lemma SomeLength(b: seq<nat>)
    requires LengthsOk(b) && Kraft(b) > 0
    ensures Longest(Counts(b), BMAX) > 0
  {
    hide Counts;
    if Longest(Counts(b), BMAX) == 0 {
      ZeroTotal(Counts(b), BMAX);
    }
  }

  /** The table for code lengths: a single one. */
  method BuildLengthTable(cl: seq<nat>) returns (bad: bool, tabs: seq<seq<Huft>>, bl: nat)
    requires |cl| == 19 && forall i :: 0 <= i < 19 ==> cl[i] <= 7
    ensures bad <==> !Accepts(cl)
    ensures !bad ==> bl <= 7 && Flat(tabs, bl, cl, 19, [], []) && forall i :: 0 <= i < 19 ==> cl[i] <= bl
  {
    hide Flat, Decodes, Refuses, Counts, Kraft, Fits, Longest, Shortest;
    var ret;
    ret, tabs, bl := HuftBuild(cl, 19, [], [], 7);
    bad := ret != 0;
    LongestBound(cl, 7);
    if Kraft(cl) == 0 {
      NoneCoded(cl);
      EmptyDecodes(tabs, bl, cl, 19, [], []);
    } else {
      WithinLongest(cl);
    }
  }

  lemma WithinLongest(b: seq<nat>)
    requires LengthsOk(b)
    ensures forall i :: 0 <= i < |b| ==> b[i] <= Longest(Counts(b), BMAX)
  {
    hide Counts, Rank, Longest;
    forall i | 0 <= i < |b|
      ensures b[i] <= Longest(Counts(b), BMAX)
    {
      RankBelow(b, i);
    }
  }

  /** The tables of a dynamic block. */
  method BuildTrees(lit: seq<nat>, dist: seq<nat>) returns (bad: bool, T: Trees)
    requires 0 < |lit| <= N_MAX && 0 < |dist| <= 30
    requires (forall i :: 0 <= i < |lit| ==> lit[i] <= 15) && (forall i :: 0 <= i < |dist| ==> dist[i] <= 15)
    ensures bad <==> !Accepts(lit) || !Accepts(dist)
    ensures !bad ==> TreesOk(T, lit, dist)
  {
    hide Flat, Decodes, Refuses, Counts, Kraft, Longest, Shortest, Fits, LookupWidth, ExtrasOk;
    hide CPLENS, CPLEXT, CPDIST, CPDEXT;
    ExtraListsOk();
    T := Trees([], 0, [], 0);
    var ret, tl, bl := HuftBuild(lit, 257, CPLENS, CPLEXT, LBITS);
    if ret != 0 {
      return true, T;
    }
    var td, bd;
    ret, td, bd := HuftBuild(dist, 0, CPDIST, CPDEXT, DBITS);
    if ret != 0 {
      return true, T;
    }
    bad, T := false, Trees(tl, bl, td, bd);
    if Kraft(lit) == 0 {
      EmptyDecodes(tl, bl, lit, 257, CPLENS, CPLEXT);
    } else {
      SomeLength(lit);
      LongestBound(lit, 15);
      WideFits(lit, LBITS);
    }
    if Kraft(dist) == 0 {
      EmptyDecodes(td, bd, dist, 0, CPDIST, CPDEXT);
      EmptyRefuses(td, bd, dist);
    } else {
      SomeLength(dist);
      DistanceFits(dist);
    }
  }

  // ---- the fixed code

  lemma {:induction false} TallyAppend(a: seq<nat>, b: seq<nat>, k: nat)
    ensures Tally(a + b, k) == Tally(a, k) + Tally(b, k)
    decreases |b|
  {
    if b == [] {
      assert a + b == a;
    } else {
      assert (a + b)[..|a + b| - 1] == a + b[..|b| - 1];
      TallyAppend(a, b[..|b| - 1], k);
    }
  }

  lemma {:induction false} TallyRepeat(n: nat, x: nat, k: nat)
    ensures Tally(Repeat(n, x), k) == if x == k then n else 0
    decreases n
  {
    if n > 0 {
      assert Repeat(n, x)[..n - 1] == Repeat(n - 1, x);
      TallyRepeat(n - 1, x, k);
    }
  }

  lemma FixedLitTally(k: nat)
    ensures Tally(FixedLit(), k) == if k == 7 then 24 else if k == 8 then 152 else if k == 9 then 112 else 0
  {
    hide Tally, Repeat;
    TallyAppend(Repeat(144, 8) + Repeat(112, 9) + Repeat(24, 7), Repeat(8, 8), k);
    TallyAppend(Repeat(144, 8) + Repeat(112, 9), Repeat(24, 7), k);
    TallyAppend(Repeat(144, 8), Repeat(112, 9), k);
    TallyRepeat(144, 8, k);
    TallyRepeat(112, 9, k);
    TallyRepeat(24, 7, k);
    TallyRepeat(8, 8, k);
  }

  /** The fixed literal code is complete. */
  lemma FixedLitKraft()
    ensures LengthsOk(FixedLit()) && Kraft(FixedLit()) == FULL
    ensures Longest(Counts(FixedLit()), BMAX) == 9
  {
    hide FixedLit, Tally, Longest, Unit, Times, Space;
    FixedLitTally(7);
    FixedLitTally(8);
    FixedLitTally(9);
    var c := Counts(FixedLit());
    forall j | (0 < j < 7 || 9 < j <= BMAX)
      ensures c[j] == 0
    {
      FixedLitTally(j);
    }
    ZeroTotal(c, 6);
    SpaceLast(c, 7);
    SpaceLast(c, 8);
    SpaceLast(c, 9);
    SpaceTail(c, 9, BMAX);
    FixedUnits();
    TimesIs(24, 512);
    TimesIs(152, 256);
    TimesIs(112, 128);
    FixedLengthsOk();
  }

  lemma FixedUnits()
    ensures Unit(7) == 512 && Unit(8) == 256 && Unit(9) == 128 && Unit(5) == 2048
  {
    hide Pow2;
    SmallPowers();
  }

  lemma FixedLengthsOk()
    ensures LengthsOk(FixedLit()) && LengthsOk(FixedDist())
    ensures forall i :: 0 <= i < 288 ==>
      FixedLit()[i] == if i < 144 then 8 else if i < 256 then 9 else if i < 280 then 7 else 8
  {
  }

  lemma FixedDistKraft()
    ensures LengthsOk(FixedDist()) && 0 < Kraft(FixedDist()) < FULL
    ensures Longest(Counts(FixedDist()), BMAX) == 5
  {
    hide Tally, Longest, Unit, Times, Space, Repeat;
    var c := Counts(FixedDist());
    TallyRepeat(30, 5, 5);
    forall j | (0 < j < 5 || 5 < j <= BMAX)
      ensures c[j] == 0
    {
      TallyRepeat(30, 5, j);
    }
    ZeroTotal(c, 4);
    SpaceLast(c, 5);
    SpaceTail(c, 5, BMAX);
    FixedUnits();
    TimesIs(30, 2048);
    FixedLengthsOk();
  }

  lemma FixedDistCode(sym: nat)
    requires sym < 30
    ensures LengthsOk(FixedDist()) && FixedDist()[sym] == 5 && Code(FixedDist(), sym) == BEBits(sym, 5)
  {
    hide Tally, BEBits, Unit, Times;
    var b := FixedDist();
    var c := Counts(b);
    FixedLengthsOk();
    assert b[..sym] == Repeat(sym, 5);
    TallyRepeat(sym, 5, 5);
    forall j | 0 < j < 5
      ensures c[j] == 0
    {
      TallyRepeat(30, 5, j);
    }
    ZeroTotal(c, 4);
    FirstStarts(c, 5);
    TimesIs(FirstCode(c, 5), Unit(5));
    FirstIsZero(FirstCode(c, 5), Unit(5));
  }

  lemma FirstIsZero(n: nat, u: nat)
    requires u > 0 && n * u == 0
    ensures n == 0
  {
  }

  /** In a fixed block the distance codes 30 and 31 are refused, and no others. */
  lemma FixedDistanceRefused(length: nat, rest: BitString)
    requires |rest| >= BMAX
    ensures DistanceOf(FixedDist(), length, rest).Bad? <==> BE(rest[..5]) >= 30
  {
    hide Code, BE, BEBits, FixedDist, Symbol, LE;
    var v := BE(rest[..5]);
    FixedLengthsOk();
    FixedDistAll();
    SymbolKinds(FixedDist(), rest);
    FixedPowers();
    if v < 30 {
      FixedDistCode(v);
      BEOfBits(v, 5);
      BEInjective(rest[..5], BEBits(v, 5));
    } else {
      forall sym | 0 <= sym < 30
        ensures !(Code(FixedDist(), sym) <= rest)
      {
        FixedDistCode(sym);
        BEOfBits(sym, 5);
        PrefixTaken(BEBits(sym, 5), rest);
      }
      NoSymbol(FixedDist(), rest);
    }
  }

  lemma PrefixTaken(c: BitString, s: BitString)
    ensures c <= s ==> s[..|c|] == c
  {
  }

  lemma FixedPowers()
    ensures Pow2(5) == 32
  {
  }

  lemma FixedDistAll()
    ensures |FixedDist()| == 30 && AllCoded(FixedDist())
  {
  }

  lemma {:induction false} NoneFound(b: seq<nat>, rest: BitString, i: nat)
    requires LengthsOk(b) && NoCode(b, rest)
    ensures FindSymbol(b, rest, i).None?
    decreases |b| - i
  {
    hide Code;
    if i < |b| {
      NoneFound(b, rest, i + 1);
    }
  }

  lemma NoSymbol(b: seq<nat>, rest: BitString)
    requires LengthsOk(b) && NoCode(b, rest)
    ensures Symbol(b, rest).Unclear?
  {
    hide FindSymbol, NoCode;
    NoneFound(b, rest, 0);
  }

  /** Writes `x` from index `from` up to `to`. */
  method FillLengths(lh0: seq<nat>, from: nat, upto: nat, x: nat) returns (lh: seq<nat>)
    requires from <= upto <= |lh0|
    ensures lh == lh0[..from] + Repeat(upto - from, x) + lh0[upto..]
  {
    lh := lh0;
    var i := from;
    while i < upto
      invariant from <= i <= upto && |lh| == |lh0|
      invariant lh[..from] == lh0[..from] && lh[upto..] == lh0[upto..]
      invariant forall k :: from <= k < i ==> lh[k] == x
    {
      lh := lh[i := x];
      i := i + 1;
    }
    assert lh == lh[..from] + lh[from..upto] + lh[upto..];
    assert lh[from..upto] == Repeat(upto - from, x);
  }

  method FixedLitLengths() returns (lh: seq<nat>)
    ensures lh == FixedLit()
  {
    hide Repeat;
    lh := seq(288, i => 0);
    lh := FillLengths(lh, 0, 144, 8);
    lh := FillLengths(lh, 144, 256, 9);
    lh := FillLengths(lh, 256, 280, 7);
    lh := FillLengths(lh, 280, 288, 8);
  }

  /** The tables of a fixed block; the two calls never fail. */
  method InitFixedBlock() returns (bad: bool, T: Trees)
    ensures !bad && TreesOk(T, FixedLit(), FixedDist())
  {
    hide Flat, Decodes, Refuses, Counts, Kraft, Longest, Shortest, Fits, LookupWidth, FixedLit, FixedDist, ExtrasOk,
         Repeat;
    hide CPLENS, CPLEXT, CPDIST, CPDEXT;
    ExtraListsOk();
    var lh := FixedLitLengths();
    FixedLengthsOk();
    T := Trees([], 0, [], 0);
    FixedLitKraft();
    WideFits(lh, 7);
    var ret, tl, bl := HuftBuild(lh, 257, CPLENS, CPLEXT, 7);
    if ret != 0 {
      assert false;
    }
    lh := FillLengths(lh, 0, 30, 5);
    assert lh[..30] == FixedDist() by { FixedDistIs(); }
    FixedDistKraft();
    WideFits(lh[..30], 5);
    var td, bd;
    ret, td, bd := HuftBuild(lh[..30], 0, CPDIST, CPDEXT, 5);
    bad := ret > 1;
    T := Trees(tl, bl, td, bd);
  }

  lemma FixedDistIs()
    ensures FixedDist() == Repeat(30, 5)
  {
  }

  // ---- the dynamic code

  const LL_SIZE: nat := 316

  /** Where each length stands in the special order. */
  const PLACE: seq<nat> := [3, 17, 15, 13, 11, 9, 7, 5, 4, 6, 8, 10, 12, 14, 16, 18, 0, 1, 2]

  lemma OrderIsPermutation()
    ensures |PLACE| == 19 == |BITORDER|
    ensures forall i :: 0 <= i < 19 ==> PLACE[i] < 19 && BITORDER[PLACE[i]] == i
    ensures forall j :: 0 <= j < 19 ==> BITORDER[j] < 19 && PLACE[BITORDER[j]] == j
  {
  }

  /** The lengths read so far stand at their places. */
  ghost predicate Placed(ll: seq<nat>, acc: seq<nat>, j: nat, done: nat) {
    && |ll| == LL_SIZE && |acc| == 19 && |PLACE| == 19
    && (forall i :: 0 <= i < 19 ==> acc[i] <= 7)
    && (forall i :: 0 <= i < 19 && PLACE[i] < done ==> ll[i] == acc[i])
    && (forall i :: 0 <= i < 19 && PLACE[i] >= j ==> acc[i] == 0)
  }

  lemma PlaceOne(ll: seq<nat>, acc: seq<nat>, j: nat, v: nat)
    requires Placed(ll, acc, j, j) && j < 19 && v <= 7
    ensures |BITORDER| == 19 && BITORDER[j] < 19
    ensures Placed(ll[BITORDER[j] := v], acc[BITORDER[j] := v], j + 1, j + 1)
  {
    hide PLACE, BITORDER;
    OrderIsPermutation();
  }

  lemma PlaceZero(ll: seq<nat>, acc: seq<nat>, n: nat, j: nat)
    requires Placed(ll, acc, n, j) && n <= j < 19
    ensures |BITORDER| == 19 && BITORDER[j] < 19
    ensures Placed(ll[BITORDER[j] := 0], acc, n, j + 1)
  {
    hide PLACE, BITORDER;
    OrderIsPermutation();
  }

  lemma PlacedAll(ll: seq<nat>, acc: seq<nat>, n: nat)
    requires Placed(ll, acc, n, 19)
    ensures |ll| == LL_SIZE && ll[..19] == acc && forall i :: 0 <= i < 19 ==> ll[i] <= 7
  {
    hide PLACE, BITORDER;
    OrderIsPermutation();
  }

  lemma CodeLengthsStep(rest: BitString, j: nat, n: nat, acc: seq<nat>)
    requires |acc| == 19 && j < n <= 19
    ensures |rest| >= 3 ==>
          CodeLengths(rest, j, n, acc) == CodeLengths(rest[3..], j + 1, n, acc[BITORDER[j] := LE(rest[..3])])
                            && LE(rest[..3]) <= 7
    ensures |rest| < 3 ==> CodeLengths(rest, j, n, acc).Unclear?
  {
    if |rest| >= 3 {
      LEBelow(rest[..3]);
      SmallPowers();
    }
  }

  lemma PlacedNone(ll: seq<nat>)
    requires |ll| == LL_SIZE
    ensures Placed(ll, Repeat(19, 0), 0, 0)
  {
  }

  lemma CodeLengthsDone(rest: BitString, n: nat, acc: seq<nat>)
    requires |acc| == 19 && n <= 19
    ensures CodeLengths(rest, n, n, acc) == Got(acc, rest)
  {
  }

  /** Reads the code length code's own lengths. */
  method ReadCodeLengths(input: BitReader, nb: nat, stale: seq<nat>) returns (ll: seq<nat>)
    requires input.Valid() && nb <= 19 && |stale| == LL_SIZE
    requires !CodeLengths(input.Rest(), 0, nb, Repeat(19, 0)).Unclear?
    modifies input, input.inbuf
    ensures input.Valid() && |ll| == LL_SIZE && forall i :: 0 <= i < 19 ==> ll[i] <= 7
    ensures CodeLengths(old(input.Rest()), 0, nb, Repeat(19, 0)) == Got(ll[..19], input.Rest())
  {
    hide LE, input.Valid, input.Rest, CodeLengths, Placed, Repeat, BITORDER;
    ll := stale;
    ghost var acc: seq<nat> := Repeat(19, 0);
    ghost var goal := CodeLengths(input.Rest(), 0, nb, acc);
    PlacedNone(ll);
    var j: nat := 0;
    while j < nb
      invariant j <= nb && |ll| == LL_SIZE && |acc| == 19 && input.Valid() && Placed(ll, acc, j, j)
      invariant CodeLengths(input.Rest(), j, nb, acc) == goal
    {
      CodeLengthsStep(input.Rest(), j, nb, acc);
      var v := input.Fetch(3);
      PlaceOne(ll, acc, j, v);
      ll := ll[BITORDER[j] := v];
      acc := acc[BITORDER[j] := v];
      j := j + 1;
    }
    CodeLengthsDone(input.Rest(), nb, acc);
    while j < 19
      invariant nb <= j <= 19 && |ll| == LL_SIZE && Placed(ll, acc, nb, j)
      invariant input.Valid() && goal == Got(acc, input.Rest())
    {
      PlaceZero(ll, acc, nb, j);
      ll := ll[BITORDER[j] := 0];
      j := j + 1;
    }
    PlacedAll(ll, acc, nb);
  }

  /** What one code length symbol does. */
  lemma ReadStep(cl: seq<nat>, n: nat, acc: seq<nat>, rest: BitString)
    requires |acc| < n && |cl| == 19 && !ReadLengths(cl, n, acc, rest).Unclear?
    ensures Symbol(cl, rest).Got?
    ensures var sym, r := Symbol(cl, rest).value, Symbol(cl, rest).rest;
            && sym < 19
            && (sym < 16 ==> ReadLengths(cl, n, acc, rest) == ReadLengths(cl, n, acc + [sym], r))
            && (sym == 16 ==> Repeats(cl, n, acc, rest, r, 2, 3, LastOf(acc)))
            && (sym == 17 ==> Repeats(cl, n, acc, rest, r, 3, 3, 0))
            && (sym == 18 ==> Repeats(cl, n, acc, rest, r, 7, 11, 0))
  {
    hide LE, Symbol, Repeat, LastOf, RunOf, Repeats, ReadLengths;
    SymbolKinds(cl, rest);
    ReadRun(cl, n, acc, rest);
    var sym, r := Symbol(cl, rest).value, Symbol(cl, rest).rest;
    if sym < 16 {
      RunOne(sym, acc, r);
    } else if sym == 16 {
      RunRepeats(cl, n, acc, rest, sym, r, 2, 3, LastOf(acc));
    } else if sym == 17 {
      RunRepeats(cl, n, acc, rest, sym, r, 3, 3, 0);
    } else {
      RunRepeats(cl, n, acc, rest, sym, r, 7, 11, 0);
    }
  }

  /** A code length symbol and the run it stands for. */
  lemma ReadRun(cl: seq<nat>, n: nat, acc: seq<nat>, rest: BitString)
    requires |acc| < n && !ReadLengths(cl, n, acc, rest).Unclear? && !Symbol(cl, rest).Bad?
    ensures Symbol(cl, rest).Got?
    ensures var run := RunOf(Symbol(cl, rest).value, acc, Symbol(cl, rest).rest);
            && !run.Unclear?
            && (run.Bad? ==> ReadLengths(cl, n, acc, rest).Bad?)
            && (run.Got? && |acc| + |run.value| > n ==> ReadLengths(cl, n, acc, rest).Bad?)
            && (run.Got? && |acc| + |run.value| <= n ==>
                  ReadLengths(cl, n, acc, rest) == ReadLengths(cl, n, acc + run.value, run.rest))
  {
    hide Symbol, RunOf;
  }

  lemma RunOne(sym: nat, acc: seq<nat>, r: BitString)
    requires sym < 16
    ensures RunOf(sym, acc, r) == Got([sym], r)
  {
    hide LE, Repeat, LastOf;
  }

  lemma RunRepeats(cl: seq<nat>, n: nat, acc: seq<nat>, rest: BitString, sym: nat, r: BitString, bits: nat,
                   base: nat, x: nat)
    requires |acc| < n && !RunOf(sym, acc, r).Unclear?
    requires sym == 16 ==> bits == 2 && base == 3 && x == LastOf(acc)
    requires sym == 17 ==> bits == 3 && base == 3 && x == 0
    requires sym == 18 ==> bits == 7 && base == 11 && x == 0
    requires 16 <= sym <= 18
    requires var run := RunOf(sym, acc, r);
             && (run.Bad? ==> ReadLengths(cl, n, acc, rest).Bad?)
             && (run.Got? && |acc| + |run.value| > n ==> ReadLengths(cl, n, acc, rest).Bad?)
             && (run.Got? && |acc| + |run.value| <= n ==>
                   ReadLengths(cl, n, acc, rest) == ReadLengths(cl, n, acc + run.value, run.rest))
    ensures Repeats(cl, n, acc, rest, r, bits, base, x)
  {
    hide LE, LastOf, ReadLengths;
  }

  /** The symbol before `r` stands for `base` plus a field of `bits` times the length `x`. */
  ghost predicate Repeats(cl: seq<nat>, n: nat, acc: seq<nat>, rest: BitString, r: BitString, bits: nat, base: nat,
                          x: nat)
    requires |acc| <= n
  {
    && |r| >= bits
    && var count := base + LE(r[..bits]);
    && (|acc| + count > n ==> ReadLengths(cl, n, acc, rest).Bad?)
    && (|acc| + count <= n ==>
          ReadLengths(cl, n, acc, rest) == ReadLengths(cl, n, acc + Repeat(count, x), r[bits..]))
  }

  lemma ReadDone(cl: seq<nat>, n: nat, acc: seq<nat>, rest: BitString)
    requires |acc| == n
    ensures ReadLengths(cl, n, acc, rest) == Got(acc, rest)
  {
  }

  /** Appends one length `count` times; false if that is too many. */
  method RepeatLength(input: BitReader, ll0: seq<nat>, i0: nat, n: nat, bits: nat, base: nat, x: nat,
                      ghost cl: seq<nat>, ghost rest: BitString)
    returns (bad: bool, ll: seq<nat>, i: nat)
    requires input.Valid() && |ll0| == LL_SIZE && i0 <= n <= LL_SIZE && x <= 15 && 0 < base && bits <= 16
    requires Repeats(cl, n, ll0[..i0], rest, input.Rest(), bits, base, x)
    requires forall k :: 0 <= k < i0 ==> ll0[k] <= 15
    modifies input, input.inbuf
    ensures input.Valid()
    ensures bad ==> ReadLengths(cl, n, ll0[..i0], rest).Bad?
    ensures !bad ==> i0 < i <= n && |ll| == LL_SIZE && LastOf(ll[..i]) == x
                     && ReadLengths(cl, n, ll0[..i0], rest) == ReadLengths(cl, n, ll[..i], input.Rest())
                     && forall k :: 0 <= k < i ==> ll[k] <= 15
  {
    hide LE, ReadLengths, input.Valid, input.Rest;
    var j := input.Fetch(bits);
    j := base + j;
    if i0 + j > n {
      return true, ll0, i0;
    }
    bad, i := false, i0 + j;
    ll := FillLengths(ll0, i0, i, x);
    assert ll[..i] == ll0[..i0] + Repeat(j, x);
  }

  /** Reads the code lengths of both codes of a dynamic block. */
  method ReadLengthList(input: BitReader, tabs: seq<seq<Huft>>, bl: nat, ll0: seq<nat>, n: nat, ghost cl: seq<nat>)
    returns (bad: bool, ll: seq<nat>)
    requires input.Valid() && |ll0| == LL_SIZE && n <= LL_SIZE && |cl| == 19 && LengthsOk(cl)
    requires Flat(tabs, bl, cl, 19, [], []) && bl <= 7 && forall i :: 0 <= i < 19 ==> cl[i] <= bl
    requires !ReadLengths(cl, n, [], input.Rest()).Unclear?
    modifies input, input.inbuf
    ensures input.Valid()
    ensures bad ==> ReadLengths(cl, n, [], old(input.Rest())).Bad?
    ensures !bad ==> |ll| == LL_SIZE && ReadLengths(cl, n, [], old(input.Rest())) == Got(ll[..n], input.Rest())
                     && forall k :: 0 <= k < n ==> ll[k] <= 15
  {
    hide LE, ReadLengths, Symbol, Flat, Repeats, Repeat, LastOf, input.Valid, input.Rest, input.Peek;
    ghost var goal := ReadLengths(cl, n, [], input.Rest());
    ll := ll0;
    bad := false;
    var i, l := 0, 0;
    assert ll[..0] == [];
    LastOfNone();
    while i < n
      invariant i <= n && |ll| == LL_SIZE && input.Valid() && l == LastOf(ll[..i]) && l <= 15
      invariant forall k :: 0 <= k < i ==> ll[k] <= 15
      invariant ReadLengths(cl, n, ll[..i], input.Rest()) == goal
      decreases n - i
    {
      ghost var rest := input.Rest();
      ReadStep(cl, n, ll[..i], rest);
      ghost var sym := Symbol(cl, rest).value;
      SymbolHasCode(cl, rest);
      FlatLookup(tabs, bl, cl, rest);
      input.NeedBits(bl);
      input.PeekIs(bl);
      var r := tabs[0][input.Peek(bl)];
      input.DumpBits(r.b);
      var j := r.v.n;
      if j < 16 {
        ghost var acc := ll[..i];
        ll := ll[i := j];
        assert ll[..i + 1] == acc + [j];
        i := i + 1;
        l := j;
        LastOfMore(ll[..i]);
      } else if j == 16 {
        bad, ll, i := RepeatLength(input, ll, i, n, 2, 3, l, cl, rest);
      } else if j == 17 {
        bad, ll, i := RepeatLength(input, ll, i, n, 3, 3, 0, cl, rest);
        l := 0;
      } else {
        bad, ll, i := RepeatLength(input, ll, i, n, 7, 11, 0, cl, rest);
        l := 0;
      }
      if bad {
        return;
      }
    }
    ReadDone(cl, n, ll[..i], input.Rest());
  }

  lemma LastOfNone()
    ensures LastOf([]) == 0
  {
  }

  lemma LastOfMore(acc: seq<nat>)
    requires acc != []
    ensures LastOf(acc) == acc[|acc| - 1]
  {
  }

  lemma FlatLookup(tabs: seq<seq<Huft>>, bl: nat, cl: seq<nat>, rest: BitString)
    requires LengthsOk(cl) && |cl| == 19 && Symbol(cl, rest).Got? && Flat(tabs, bl, cl, 19, [], [])
    ensures bl <= BMAX <= |rest| && |tabs| == 1 && LE(rest[..bl]) < |tabs[0]|
    ensures tabs[0][LE(rest[..bl])] == Huft(16, cl[Symbol(cl, rest).value], Num(Symbol(cl, rest).value))
    ensures Symbol(cl, rest).rest == rest[cl[Symbol(cl, rest).value]..]
  {
    hide LE, Code, FindSymbol;
  }

  /** Header and tables of a dynamic block. */
  method InitDynamicBlock(input: BitReader) returns (bad: bool, T: Trees, ghost lit: seq<nat>, ghost dist: seq<nat>)
    requires input.Valid() && !DynamicHeader(input.Rest()).Unclear?
    modifies input, input.inbuf
    ensures input.Valid()
    ensures bad <==> DynamicHeader(old(input.Rest())).Bad?
    ensures !bad ==> DynamicHeader(old(input.Rest())) == Got(Coded(lit, dist), input.Rest()) && TreesOk(T, lit, dist)
  {
    hide LE, CodeLengths, DynamicLengths, TreesOk, Repeat, input.Valid, input.Rest;
    T, lit, dist := Trees([], 0, [], 0), [], [];
    var na := input.Fetch(5);
    na := 257 + na;
    var nd := input.Fetch(5);
    nd := 1 + nd;
    var nb := input.Fetch(4);
    nb := 4 + nb;
    if na > 286 || nd > 30 {
      return true, T, lit, dist;
    }
    var space := new nat[LL_SIZE];
    var ll := ReadCodeLengths(input, nb, space[..]);
    bad, T, lit, dist := InitDynamicTrees(input, na, nd, ll);
  }

  method InitDynamicTrees(input: BitReader, na: nat, nd: nat, ll0: seq<nat>)
    returns (bad: bool, T: Trees, ghost lit: seq<nat>, ghost dist: seq<nat>)
    requires input.Valid() && 257 <= na <= 286 && 1 <= nd <= 30
    requires |ll0| == LL_SIZE && forall i :: 0 <= i < 19 ==> ll0[i] <= 7
    requires !DynamicLengths(na, nd, ll0[..19], input.Rest()).Unclear?
    modifies input, input.inbuf
    ensures input.Valid()
    ensures bad <==> DynamicLengths(na, nd, ll0[..19], old(input.Rest())).Bad?
    ensures !bad ==> DynamicLengths(na, nd, ll0[..19], old(input.Rest())) == Got(Coded(lit, dist), input.Rest())
                     && TreesOk(T, lit, dist)
  {
    hide LE, ReadLengths, TreesOk, Flat, Accepts, input.Valid, input.Rest;
    T, lit, dist := Trees([], 0, [], 0), [], [];
    ghost var cl := ll0[..19];
    var tabs, bl;
    bad, tabs, bl := BuildLengthTable(ll0[..19]);
    if bad {
      return;
    }
    var ll;
    bad, ll := ReadLengthList(input, tabs, bl, ll0, na + nd, cl);
    if bad {
      return;
    }
    ghost var lens := ll[..na + nd];
    lit, dist := lens[..na], lens[na..];
    assert lit == ll[..na] && dist == ll[na..na + nd];
    bad, T := BuildTrees(ll[..na], ll[na..na + nd]);
  }
}
