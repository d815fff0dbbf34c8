/** Consequences for the users of the tables: codes are unambiguous, and every width in use fits. */
module HuftCanonical {
  import opened Words
  import opened Arith
  import opened Bits
  import opened Huffman
  import opened HuftSpace
  import opened HuftCounts
  import opened HuftLayout
  import opened HuftBuilder

  /** The interval of a symbol's code, among those of its length. */
  lemma CodeInterval(b: seq<nat>, sym: nat)
    requires LengthsOk(b) && sym < |b| && b[sym] > 0 && Kraft(b) <= FULL
    ensures Start(Code(b, sym)) == Space(Counts(b), b[sym] - 1) + Times(Rank(b, sym), Unit(b[sym]))
    ensures End(Code(b, sym)) == Start(Code(b, sym)) + Unit(b[sym]) <= Space(Counts(b), b[sym])
  {
    hide Counts, Rank, Space, Times, Unit, Pow2, BE, BEBits, FirstCode;
    var k := b[sym];
    var c := Counts(b);
    var v := FirstCode(c, k) + Rank(b, sym);
    RankBelow(b, sym);
    FirstStarts(c, k);
    TimesAdd(FirstCode(c, k), Rank(b, sym), Unit(k));
    TimesAdd(FirstCode(c, k), c[k], Unit(k));
    TimesStep(v, Unit(k));
    TimesMono(Rank(b, sym) + 1, c[k], Unit(k));
    TimesStep(Rank(b, sym), Unit(k));
    SpaceLast(c, k);
    SpaceMono(c, k, BMAX);
    PatternsFill(k);
    TimesCancel(v + 1, Pow2(k), Unit(k));
    BEOfBits(v, k);
  }

  lemma OrderedApart(b: seq<nat>, s: nat, t: nat)
    requires LengthsOk(b) && Kraft(b) <= FULL && s < |b| && t < |b| && 0 < b[s] <= b[t]
    requires b[s] < b[t] || Rank(b, s) < Rank(b, t)
    ensures !(Code(b, s) <= Code(b, t)) && !(Code(b, t) <= Code(b, s))
  {
    hide Counts, Rank, Space, Times, Unit, Start, End, Code, Kraft;
    CodeInterval(b, s);
    CodeInterval(b, t);
    if b[s] < b[t] {
      SpaceMono(Counts(b), b[s], b[t] - 1);
    } else {
      TimesMono(Rank(b, s) + 1, Rank(b, t), Unit(b[s]));
      TimesStep(Rank(b, s), Unit(b[s]));
    }
    Apart(Code(b, s), Code(b, t));
  }

  /** No symbol's code is the start of another's, unless the lengths are oversubscribed. */
  lemma PrefixFree(b: seq<nat>, s: nat, t: nat)
    requires LengthsOk(b) && Kraft(b) <= FULL && s < |b| && t < |b| && s != t && b[s] > 0 && b[t] > 0
    ensures !(Code(b, s) <= Code(b, t))
  {
    hide Counts, Space, Code, Kraft, Tally;
    if b[s] == b[t] {
      TallyPrefix(b, Min(s, t), Max(s, t), b[s]);
    }
    if b[s] < b[t] || (b[s] == b[t] && Rank(b, s) < Rank(b, t)) {
      OrderedApart(b, s, t);
    } else {
      OrderedApart(b, t, s);
    }
  }

  /** At most one symbol's code starts a given bit string. */
  lemma UniqueSymbol(b: seq<nat>, s: nat, t: nat, bits: BitString)
    requires LengthsOk(b) && Kraft(b) <= FULL && s < |b| && t < |b| && b[s] > 0 && b[t] > 0
    requires Code(b, s) <= bits && Code(b, t) <= bits
    ensures s == t
  {
    hide Code, Kraft;
    Comparable(Code(b, s), Code(b, t), bits);
    if s != t {
      PrefixFree(b, s, t);
      PrefixFree(b, t, s);
    }
  }

  lemma Comparable(a: BitString, b: BitString, s: BitString)
    requires a <= s && b <= s
    ensures a <= b || b <= a
  {
    assert a == s[..|a|] && b == s[..|b|];
  }

  /** A code whose longest word is less than twice the width asked for always fits. */
  lemma WideFits(b: seq<nat>, m: nat)
    requires LengthsOk(b) && Longest(Counts(b), BMAX) < 2 * m && Longest(Counts(b), BMAX) > 0
    ensures Fits(b, LookupWidth(b, m))
  {
    hide Longest, Shortest;
  }

  lemma LongestBound(b: seq<nat>, m: nat)
    requires LengthsOk(b) && m <= BMAX && forall i :: 0 <= i < |b| ==> b[i] <= m
    ensures Longest(Counts(b), BMAX) <= m
  {
    hide Longest;
    var g := Longest(Counts(b), BMAX);
    if g > m {
      NoneCounted(b, g);
    }
  }

  /** The distance width fits every complete set of at most 30 codes of at most 15 bits. */
  lemma DistanceFits(b: seq<nat>)
    requires LengthsOk(b) && |b| <= 30 && forall i :: 0 <= i < |b| ==> b[i] <= 15
    requires Longest(Counts(b), BMAX) > 0
    requires Kraft(b) == FULL || Longest(Counts(b), BMAX) == 1
    ensures Fits(b, LookupWidth(b, 6))
  {
    LongestBound(b, 15);
    hide Longest, Shortest, Counts, Kraft, Pow2;
    if Longest(Counts(b), BMAX) >= 12 {
      Pow2Mono(6, LookupWidth(b, 6));
      SixBits();
    } else {
      WideFits(b, 6);
    }
  }

  lemma SixBits()
    ensures Pow2(6) == 64
  {
  }

  // ---- the order of the codes

  /** Codes are given out to shorter lengths first, and within a length to smaller symbols first. */
  predicate Earlier(b: seq<nat>, s: nat, t: nat)
    requires s < |b| && t < |b|
  {
    b[s] < b[t] || (b[s] == b[t] && s < t)
  }

  ghost predicate IsFirst(b: seq<nat>, s: nat)
    requires s < |b|
  {
    b[s] > 0 && forall u :: 0 <= u < |b| && b[u] > 0 ==> !Earlier(b, u, s)
  }

  ghost predicate IsNext(b: seq<nat>, s: nat, t: nat)
    requires s < |b| && t < |b|
  {
    0 < b[s] && Earlier(b, s, t) && forall u :: 0 <= u < |b| && b[u] > 0 ==> !(Earlier(b, s, u) && Earlier(b, u, t))
  }

  lemma {:induction false} NoneShorter(c: seq<nat>, j: nat, k: nat)
    requires |c| == BMAX + 1 && 1 <= j <= k <= BMAX && forall i :: j < i < k ==> c[i] == 0
    ensures j < k ==> FirstCode(c, k) == (FirstCode(c, j) + c[j]) * Pow2(k - j)
    decreases k
  {
    if j + 1 == k {
      assert Pow2(1) == 2;
    } else if j < k {
      NoneShorter(c, j, k - 1);
      DoubledAgain(FirstCode(c, j) + c[j], Pow2(k - 1 - j));
      assert Pow2(k - j) == 2 * Pow2(k - 1 - j);
    }
  }

  lemma DoubledAgain(x: nat, p: nat)
    ensures 2 * (x * p) == x * (2 * p)
  {
  }

  lemma {:induction false} StartsAtZero(c: seq<nat>, k: nat)
    requires |c| == BMAX + 1 && 1 <= k <= BMAX && forall i :: 1 <= i < k ==> c[i] == 0
    ensures FirstCode(c, k) == 0
    decreases k
  {
    if k > 1 {
      StartsAtZero(c, k - 1);
    }
  }

  lemma CodeValue(b: seq<nat>, sym: nat)
    requires LengthsOk(b) && sym < |b| && b[sym] > 0 && Kraft(b) <= FULL
    ensures BE(Code(b, sym)) == FirstCode(Counts(b), b[sym]) + Rank(b, sym)
  {
    hide Counts, Rank, Space, Times, Unit, Pow2, BE, BEBits, FirstCode;
    var k := b[sym];
    var c := Counts(b);
    var v := FirstCode(c, k) + Rank(b, sym);
    RankBelow(b, sym);
    FirstStarts(c, k);
    TimesAdd(FirstCode(c, k), c[k], Unit(k));
    TimesMono(v + 1, FirstCode(c, k) + c[k], Unit(k));
    SpaceLast(c, k);
    SpaceMono(c, k, BMAX);
    PatternsFill(k);
    TimesCancel(v + 1, Pow2(k), Unit(k));
    BEOfBits(v, k);
  }

  lemma {:induction false} NoneBetween(b: seq<nat>, i: nat, j: nat, k: nat)
    requires i <= j <= |b| && forall u :: i <= u < j ==> b[u] != k
    ensures Tally(b[..j], k) == Tally(b[..i], k)
    decreases j
  {
    if i < j {
      assert b[..j][..j - 1] == b[..j - 1];
      NoneBetween(b, i, j - 1, k);
    }
  }

  lemma NotCounted(b: seq<nat>, k: nat)
    requires k <= BMAX && forall u :: 0 <= u < |b| ==> b[u] != k
    ensures Counts(b)[k] == 0
  {
    NoneCounted(b, k);
  }

  /** The first code is all zeros. */
  lemma FirstCodeZero(b: seq<nat>, s: nat)
    requires LengthsOk(b) && Kraft(b) <= FULL && s < |b| && IsFirst(b, s)
    ensures BE(Code(b, s)) == 0
  {
    hide Counts, Kraft, Code, FirstCode, Tally;
    CodeValue(b, s);
    forall k | 1 <= k < b[s]
      ensures Counts(b)[k] == 0
    {
      assert forall u :: 0 <= u < |b| ==> b[u] != k;
      NotCounted(b, k);
    }
    StartsAtZero(Counts(b), b[s]);
    assert forall u :: 0 <= u < s ==> b[u] != b[s];
    NoneBetween(b, 0, s, b[s]);
    NoTally(b);
  }

  /** Each further code is the one before plus one, with zeros behind it up to its length. */
  lemma NextIsBehind(b: seq<nat>, s: nat, t: nat)
    requires LengthsOk(b) && Kraft(b) <= FULL && s < |b| && t < |b| && IsNext(b, s, t)
    ensures BE(Code(b, t)) == (BE(Code(b, s)) + 1) * Pow2(b[t] - b[s])
  {
    hide Counts, Kraft, Code, FirstCode, Tally, Pow2;
    CodeValue(b, s);
    CodeValue(b, t);
    if b[s] == b[t] {
      NextSame(b, s, t);
    } else {
      NextLonger(b, s, t);
    }
  }

  lemma NextSame(b: seq<nat>, s: nat, t: nat)
    requires s < |b| && t < |b| && IsNext(b, s, t) && b[s] == b[t]
    ensures Rank(b, t) == Rank(b, s) + 1 && Pow2(b[t] - b[s]) == 1
  {
    hide Tally;
    assert forall u :: s < u < t ==> b[u] != b[s];
    NoneBetween(b, s + 1, t, b[s]);
    TallyStep(b, s, b[s]);
  }

  lemma NextLonger(b: seq<nat>, s: nat, t: nat)
    requires LengthsOk(b) && s < |b| && t < |b| && IsNext(b, s, t) && b[s] < b[t]
    ensures FirstCode(Counts(b), b[t]) == (FirstCode(Counts(b), b[s]) + Rank(b, s) + 1) * Pow2(b[t] - b[s])
    ensures Rank(b, t) == 0
  {
    hide Tally, Counts, FirstCode, Pow2;
    assert forall u :: s < u < |b| ==> b[u] != b[s];
    assert forall u :: 0 <= u < t ==> b[u] != b[t];
    NoneBetween(b, s + 1, |b|, b[s]);
    TallyStep(b, s, b[s]);
    NoneBetween(b, 0, t, b[t]);
    NoTally(b);
    CountIs(b, b[s]);
    forall k | b[s] < k < b[t]
      ensures Counts(b)[k] == 0
    {
      assert forall u :: 0 <= u < |b| ==> b[u] != k;
      NotCounted(b, k);
    }
    NoneShorter(Counts(b), b[s], b[t]);
  }

  lemma CountIs(b: seq<nat>, k: nat)
    requires k <= BMAX
    ensures Counts(b)[k] == Tally(b[..|b|], k)
  {
    assert b[..|b|] == b;
  }

  // ---- the room they take

  /** What one code of `k` bits takes of 2^16 patterns. */
  function Share(k: nat): nat
    requires k <= BMAX
  {
    if k == 0 then 0 else Pow2(16 - k)
  }

  function Shares(b: seq<nat>): nat
    requires LengthsOk(b)
  {
    if b == [] then 0 else Shares(b[..|b| - 1]) + Share(b[|b| - 1])
  }

  /** The room taken is the sum over the symbols. */
  lemma {:induction false} KraftIsSum(b: seq<nat>)
    requires LengthsOk(b)
    ensures Kraft(b) == Shares(b)
    decreases |b|
  {
    hide Space, Counts, Share;
    if b == [] {
      NoRoom(b);
    } else {
      var a, k := b[..|b| - 1], b[|b| - 1];
      KraftIsSum(a);
      CountsStep(b, |b| - 1);
      assert b[..|b|] == b;
      RoomStep(Counts(a), k, BMAX);
    }
  }

  lemma NoRoom(b: seq<nat>)
    requires b == []
    ensures Space(Counts(b), BMAX) == 0
  {
    ZeroTotal(Counts(b), BMAX);
  }

  lemma {:induction false} RoomStep(c: seq<nat>, k: nat, n: nat)
    requires |c| == BMAX + 1 && k <= BMAX && n <= BMAX
    ensures Space(c[k := c[k] + 1], n) == Space(c, n) + if k <= n then Share(k) else 0
    decreases n
  {
    hide Times, Pow2;
    if n > 0 {
      RoomStep(c, k, n - 1);
      TimesStep(c[n], Unit(n));
    }
  }

  /** The width of the first table is the one asked for, as far as the lengths in use allow. */
  lemma WidthIsAsked(b: seq<nat>, m: nat)
    requires LengthsOk(b) && exists i :: 0 <= i < |b| && b[i] > 0
    ensures var w := LookupWidth(b, m);
            && (exists i :: 0 <= i < |b| && 0 < b[i] <= w)
            && (exists j :: 0 <= j < |b| && w <= b[j])
            && (w < m ==> forall i :: 0 <= i < |b| ==> b[i] <= w)
            && (w > m ==> forall i :: 0 <= i < |b| && b[i] > 0 ==> b[i] >= w)
  {
    hide Counts, Shortest, Longest;
    var i :| 0 <= i < |b| && b[i] > 0;
    var c := Counts(b);
    var j, g := Shortest(c, 1), Longest(c, BMAX);
    forall u | 0 <= u < |b|
      ensures c[b[u]] > 0
    {
      RankBelow(b, u);
    }
    assert b[i] <= g && j <= b[i];
    if j == BMAX {
      assert b[i] == BMAX;
    }
    InUse(b, j);
    InUse(b, g);
  }

  lemma InUse(b: seq<nat>, k: nat)
    requires LengthsOk(b) && k <= BMAX && Counts(b)[k] > 0
    ensures exists i :: 0 <= i < |b| && b[i] == k
  {
    assert b[..|b|] == b;
    var sym := SymbolAt(b, k, 0, |b|);
  }
}
