/** The counting half of table building: how many codes of each length, whether they fit, and the
    symbols in order of their codes. */
module HuftCounts {
  import opened Words
  import opened Arith
  import opened Huffman
  import opened HuftSpace

  /** How many codes have between one and `k` bits. */
  function Total(c: seq<nat>, k: nat): nat
    requires |c| == BMAX + 1 && k <= BMAX
  {
    if k == 0 then 0 else Total(c, k - 1) + c[k]
  }

  /** The longest code length in use up to `k`. */
  function Longest(c: seq<nat>, k: nat): (g: nat)
    requires |c| == BMAX + 1 && k <= BMAX
    ensures g <= k && (g > 0 ==> c[g] > 0) && forall j :: g < j <= k ==> c[j] == 0
  {
    if k == 0 then 0 else if c[k] > 0 then k else Longest(c, k - 1)
  }

  /** The shortest code length in use from `k` on. */
  function Shortest(c: seq<nat>, k: nat): (j: nat)
    requires |c| == BMAX + 1 && k <= BMAX
    ensures k <= j <= BMAX && (j < BMAX ==> c[j] > 0) && forall i :: k <= i < j ==> c[i] == 0
    decreases BMAX - k
  {
    if k == BMAX || c[k] > 0 then k else Shortest(c, k + 1)
  }

  lemma {:induction false} TotalUpdate(c: seq<nat>, j: nat, n: nat, k: nat)
    requires |c| == BMAX + 1 && k <= BMAX && 1 <= j <= BMAX
    ensures Total(c[j := c[j] + n], k) == Total(c, k) + if j <= k then n else 0
    decreases k
  {
    if k > 0 {
      TotalUpdate(c, j, n, k - 1);
    }
  }

  lemma {:induction false} TotalMono(c: seq<nat>, j: nat, k: nat)
    requires |c| == BMAX + 1 && j <= k <= BMAX
    ensures Total(c, j) <= Total(c, k)
    decreases k
  {
    if j < k {
      TotalMono(c, j, k - 1);
    }
  }

  /** One more length counted. */
  lemma CountsStep(b: seq<nat>, i: nat)
    requires LengthsOk(b) && i < |b|
    ensures Counts(b[..i + 1]) == Counts(b[..i])[b[i] := Counts(b[..i])[b[i]] + 1]
  {
    assert b[..i + 1][..i] == b[..i];
  }

  lemma {:induction false} ZeroTotal(c: seq<nat>, k: nat)
    requires |c| == BMAX + 1 && k <= BMAX && forall j :: 0 < j <= k ==> c[j] == 0
    ensures Total(c, k) == 0 && Space(c, k) == 0
  {
    if k > 0 {
      ZeroTotal(c, k - 1);
      ZeroTimes(Unit(k));
    }
  }

  /** Every symbol is counted once. */
  lemma {:induction false} TotalOfCounts(b: seq<nat>, i: nat)
    requires LengthsOk(b) && i <= |b|
    ensures Counts(b[..i])[0] + Total(Counts(b[..i]), BMAX) == i
    decreases i
  {
    if i == 0 {
      ZeroTotal(Counts(b[..0]), BMAX);
    } else {
      TotalOfCounts(b, i - 1);
      CountsStep(b, i - 1);
      hide Counts, Tally, Total;
      var c := Counts(b[..i - 1]);
      if b[i - 1] > 0 {
        TotalUpdate(c, b[i - 1], 1, BMAX);
      } else {
        TotalIgnoresZero(c, BMAX);
      }
    }
  }

  lemma {:induction false} TotalIgnoresZero(c: seq<nat>, k: nat)
    requires |c| == BMAX + 1 && k <= BMAX
    ensures Total(c[0 := c[0] + 1], k) == Total(c, k)
  {
    if k > 0 {
      TotalIgnoresZero(c, k - 1);
    }
  }

  method CountLengths(b: seq<nat>) returns (c: seq<nat>)
    requires LengthsOk(b) && |b| > 0
    ensures c == Counts(b)
  {
    hide Counts;
    c := seq(BMAX + 1, i => 0);
    var p := 0;
    assert c == Counts(b[..0]) by { NoCounts(c, b); }
    while p < |b|
      invariant 0 <= p <= |b| && c == Counts(b[..p])
    {
      CountsStep(b, p);
      c := c[b[p] := c[b[p]] + 1];
      p := p + 1;
    }
    assert b[..p] == b;
  }

  lemma NoCounts(c: seq<nat>, b: seq<nat>)
    requires c == seq(BMAX + 1, i => 0)
    ensures c == Counts(b[..0])
  {
  }

  /** The two searches for the shortest and the longest code. */
  method Extent(c: seq<nat>) returns (j: nat, g: nat)
    requires |c| == BMAX + 1 && Total(c, BMAX) > 0
    ensures j == Shortest(c, 1) && g == Longest(c, BMAX)
    ensures 1 <= j <= g <= BMAX && c[j] > 0 && c[g] > 0
  {
    hide Shortest, Longest, Total, Space;
    j := 1;
    while j <= BMAX && c[j] == 0
      invariant 1 <= j <= BMAX + 1 && forall i :: 1 <= i < j ==> c[i] == 0
    {
      j := j + 1;
    }
    if j > BMAX {
      ZeroTotal(c, BMAX);
    }
    g := BMAX;
    while g > 0 && c[g] == 0
      invariant 0 <= g <= BMAX && forall i :: g < i <= BMAX ==> c[i] == 0
    {
      g := g - 1;
    }
    ExtentUnique(c, j, g);
  }

  lemma ExtentUnique(c: seq<nat>, j: nat, g: nat)
    requires |c| == BMAX + 1 && 1 <= j <= BMAX && c[j] > 0 && forall i :: 1 <= i < j ==> c[i] == 0
    requires g <= BMAX && (g > 0 ==> c[g] > 0) && forall i :: g < i <= BMAX ==> c[i] == 0
    ensures j == Shortest(c, 1) && g == Longest(c, BMAX) && j <= g
  {
    hide Shortest, Longest;
  }

  lemma {:induction false} SpaceTail(c: seq<nat>, g: nat, k: nat)
    requires |c| == BMAX + 1 && g <= k <= BMAX && forall j :: g < j <= k ==> c[j] == 0
    ensures Space(c, k) == Space(c, g)
    decreases k
  {
    if g < k {
      SpaceTail(c, g, k - 1);
      ZeroTimes(Unit(k));
    }
  }

  lemma {:induction false} SpaceAgrees(c: seq<nat>, d: seq<nat>, k: nat)
    requires |c| == BMAX + 1 == |d| && k <= BMAX && forall j :: 0 < j <= k ==> c[j] == d[j]
    ensures Space(c, k) == Space(d, k)
  {
    if k > 0 {
      SpaceAgrees(c, d, k - 1);
    }
  }

  lemma {:induction false} FirstAgrees(c: seq<nat>, d: seq<nat>, k: nat)
    requires |c| == BMAX + 1 == |d| && k <= BMAX && forall j :: 0 < j < k ==> c[j] == d[j]
    ensures FirstCode(c, k) == FirstCode(d, k)
  {
    if k > 1 {
      FirstAgrees(c, d, k - 1);
    }
  }

  lemma TimesAdd(x: nat, y: nat, p: nat)
    ensures Times(x + y, p) == Times(x, p) + Times(y, p)
  {
  }

  /** Patterns left over at one length are twice as many at the next. */
  lemma UnitDouble(y: nat, j: nat)
    requires j < BMAX
    ensures Times(y, Unit(j)) == Times(2 * y, Unit(j + 1))
  {
    hide Pow2;
    PowOne();
    UnitSplit(j, j + 1);
    TimesDouble(y, 0, Unit(j + 1));
    assert Times(0, 2 * Unit(j + 1)) == 0;
  }

  /** Counts the unused patterns, and gives them to the longest codes. */
  method FillCodes(c: seq<nat>, j0: nat, g: nat) returns (over: bool, y: int, d: seq<nat>)
    requires |c| == BMAX + 1 && 1 <= j0 <= g <= BMAX
    requires forall j :: 1 <= j < j0 || g < j <= BMAX ==> c[j] == 0
    ensures over <==> Space(c, BMAX) > FULL
    ensures !over ==> y >= 0 && d == c[g := c[g] + y] && Space(c, BMAX) + Times(y, Unit(g)) == FULL
    ensures !over ==> Space(d, g) == FULL
  {
    hide Times, Unit, Pow2, Space;
    d := c;
    var j := j0;
    y := Pow2(j);
    over := false;
    AllPatterns(c, j0);
    while j < g
      invariant j0 <= j <= g && y >= 0
      invariant Space(c, j - 1) + Times(y, Unit(j)) == FULL
    {
      SpaceStep(c, j, y);
      y := y - c[j];
      if y < 0 {
        SpaceMono(c, j, BMAX);
        return true, y, d;
      }
      UnitDouble(y, j);
      j := j + 1;
      y := 2 * y;
    }
    SpaceStep(c, g, y);
    y := y - c[g];
    if y < 0 {
      SpaceMono(c, g, BMAX);
      return true, y, d;
    }
    SpaceTail(c, g, BMAX);
    d := c[g := c[g] + y];
    SpaceAgrees(c, d, g - 1);
    SpaceLast(c, g);
    SpaceLast(d, g);
    TimesAdd(c[g], y, Unit(g));
  }

  lemma SpaceLast(c: seq<nat>, k: nat)
    requires |c| == BMAX + 1 && 1 <= k <= BMAX
    ensures Space(c, k) == Space(c, k - 1) + Times(c[k], Unit(k))
  {
  }

  lemma AllPatterns(c: seq<nat>, j: nat)
    requires |c| == BMAX + 1 && 1 <= j <= BMAX && forall i :: 1 <= i < j ==> c[i] == 0
    ensures Space(c, j - 1) + Times(Pow2(j), Unit(j)) == FULL
  {
    hide Times, Unit, Pow2, Space;
    ZeroTotal(c, j - 1);
    PatternsFill(j);
  }

  lemma PatternsFill(j: nat)
    requires j <= BMAX
    ensures Times(Pow2(j), Unit(j)) == FULL
  {
    hide Pow2;
    Pow2Add(j, BMAX - j);
    Pow2Word();
  }

  lemma SpaceStep(c: seq<nat>, j: nat, y: nat)
    requires |c| == BMAX + 1 && 1 <= j <= BMAX
    requires Space(c, j - 1) + Times(y, Unit(j)) == FULL
    ensures y >= c[j] ==> Space(c, j) + Times(y - c[j], Unit(j)) == FULL
    ensures y < c[j] ==> Space(c, j) > FULL
  {
    hide Pow2, Times, Unit;
    if y >= c[j] {
      TimesAdd(c[j], y - c[j], Unit(j));
    } else {
      TimesMono(y + 1, c[j], Unit(j));
      TimesStep(y, Unit(j));
    }
  }

  /** x[k]: where the symbols with `k`-bit codes begin. */
  method Offsets(c: seq<nat>, g: nat) returns (x: seq<nat>)
    requires |c| == BMAX + 1 && 1 <= g <= BMAX
    ensures |x| == BMAX + 1 && forall k :: 1 <= k <= g ==> x[k] == Total(c, k - 1)
  {
    x := seq(BMAX + 1, i => 0);
    var i, j, k: nat := g, 0, 1;
    i := i - 1;
    while i > 0
      invariant 0 <= i && 1 <= k <= g && i + k == g && |x| == BMAX + 1
      invariant j == Total(c, k - 1)
      invariant forall t :: 1 <= t <= k ==> x[t] == Total(c, t - 1)
    {
      j := j + c[k];
      x := x[k + 1 := j];
      k := k + 1;
      i := i - 1;
    }
  }

  /** The place of a symbol among all symbols in order of code length, then value. */
  function Slot(b: seq<nat>, sym: nat): nat
    requires LengthsOk(b) && sym < |b| && b[sym] > 0
  {
    Total(Counts(b), b[sym] - 1) + Rank(b, sym)
  }

  lemma {:induction false} TallyPrefix(b: seq<nat>, i: nat, j: nat, k: nat)
    requires i <= j <= |b|
    ensures Tally(b[..i], k) <= Tally(b[..j], k)
    ensures i < j && b[i] == k ==> Tally(b[..i], k) < Tally(b[..j], k)
    decreases j
  {
    if i < j {
      assert b[..j][..j - 1] == b[..j - 1];
      TallyPrefix(b, i, j - 1, k);
    }
  }

  lemma {:induction false} NoneCounted(b: seq<nat>, k: nat)
    requires forall i :: 0 <= i < |b| ==> b[i] != k
    ensures Tally(b, k) == 0
  {
    if b != [] {
      NoneCounted(b[..|b| - 1], k);
    }
  }

  /** Every place among the codes of one length is some symbol's. */
  lemma {:induction false} SymbolAt(b: seq<nat>, k: nat, q: nat, i: nat) returns (sym: nat)
    requires i <= |b| && q < Tally(b[..i], k)
    ensures sym < i && b[sym] == k && Rank(b, sym) == q
    decreases i
  {
    assert b[..i][..i - 1] == b[..i - 1];
    if q < Tally(b[..i - 1], k) {
      sym := SymbolAt(b, k, q, i - 1);
    } else {
      sym := i - 1;
    }
  }

  lemma RankBelow(b: seq<nat>, sym: nat)
    requires LengthsOk(b) && sym < |b|
    ensures Rank(b, sym) < Counts(b)[b[sym]]
  {
    TallyPrefix(b, sym, |b|, b[sym]);
    assert b[..|b|] == b;
  }

  lemma SlotBelow(b: seq<nat>, sym: nat)
    requires LengthsOk(b) && sym < |b| && b[sym] > 0
    ensures Slot(b, sym) < Total(Counts(b), b[sym]) <= Total(Counts(b), BMAX) <= |b|
  {
    hide Counts, Rank, Tally;
    RankBelow(b, sym);
    TotalMono(Counts(b), b[sym], BMAX);
    assert b[..|b|] == b;
    TotalOfCounts(b, |b|);
  }

  lemma SlotsDiffer(b: seq<nat>, s: nat, t: nat)
    requires LengthsOk(b) && s < t < |b| && b[s] > 0 && b[t] > 0
    ensures Slot(b, s) != Slot(b, t)
  {
    if b[s] == b[t] {
      hide Total, Counts;
      TallyPrefix(b, s, t, b[s]);
    } else {
      hide Total, Counts, Tally;
      SlotBelow(b, s);
      SlotBelow(b, t);
      if b[s] < b[t] {
        TotalMono(Counts(b), b[s], b[t] - 1);
      } else {
        TotalMono(Counts(b), b[t], b[s] - 1);
      }
    }
  }

  ghost predicate Filed(b: seq<nat>, v: seq<nat>, i: nat)
    requires LengthsOk(b) && i <= |b|
  {
    forall t :: 0 <= t < i && b[t] > 0 ==> Slot(b, t) < |v| && v[Slot(b, t)] == t
  }

  /** Lists the symbols in order of their codes. Places no symbol goes to keep what they held. */
  method SortSymbols(b: seq<nat>, g: nat, x0: seq<nat>, stale: seq<nat>) returns (v: seq<nat>)
    requires LengthsOk(b) && 0 < |b| <= N_MAX && |stale| == N_MAX
    requires |x0| == BMAX + 1 && g <= BMAX && forall i :: 0 <= i < |b| ==> b[i] <= g
    requires forall k :: 1 <= k <= g ==> x0[k] == Total(Counts(b), k - 1)
    ensures |v| == N_MAX && Filed(b, v, |b|)
  {
    hide Counts, Total, Tally, Slot, Rank;
    v := stale;
    var x := x0;
    var i := 0;
    assert forall k :: Tally(b[..0], k) == 0 by { NoTally(b); }
    while i < |b|
      invariant 0 <= i <= |b| && |x| == BMAX + 1 && |v| == N_MAX
      invariant forall k :: 1 <= k <= g ==> x[k] == Total(Counts(b), k - 1) + Tally(b[..i], k)
      invariant Filed(b, v, i)
    {
      var j := b[i];
      if j != 0 {
        assert x[j] == Slot(b, i) by { SlotIs(b, i); }
        SlotBelow(b, i);
        forall t | 0 <= t < i && b[t] > 0
          ensures Slot(b, t) != Slot(b, i)
        {
          SlotsDiffer(b, t, i);
        }
        v := v[x[j] := i];
        x := x[j := x[j] + 1];
      }
      forall k | 1 <= k <= g
        ensures Tally(b[..i + 1], k) == Tally(b[..i], k) + if b[i] == k then 1 else 0
      {
        TallyStep(b, i, k);
      }
      i := i + 1;
    }
  }

  lemma NoTally(b: seq<nat>)
    ensures forall k :: Tally(b[..0], k) == 0
  {
  }

  lemma SlotIs(b: seq<nat>, i: nat)
    requires LengthsOk(b) && i < |b| && b[i] > 0
    ensures Slot(b, i) == Total(Counts(b), b[i] - 1) + Tally(b[..i], b[i])
  {
  }

  lemma TallyStep(b: seq<nat>, i: nat, k: nat)
    requires i < |b|
    ensures Tally(b[..i + 1], k) == Tally(b[..i], k) + if b[i] == k then 1 else 0
  {
    assert b[..i + 1][..i] == b[..i];
  }
}
