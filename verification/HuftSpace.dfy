/** The code space: canonical codes as consecutive intervals. */
module HuftSpace {
  import opened Words
  import opened Arith
  import opened Bits
  import opened Huffman

  /** A full-width string starts with `c` exactly when its value lies in the interval of `c`. */
  lemma Within(c: BitString, s: BitString)
    requires |c| <= BMAX == |s|
    ensures c <= s <==> Start(c) <= BE(s) < End(c)
  {
    hide BE, Pow2, Times;
    PrefixInterval(c, s);
  }

  lemma TimesMono(x: nat, y: nat, p: nat)
    requires x <= y
    ensures Times(x, p) <= Times(y, p)
  {
    assert (y - x) * p >= 0;
    assert (y - x) * p == y * p - x * p;
  }

  lemma TimesAssoc(x: nat, p: nat, q: nat)
    ensures Times(Times(x, p), q) == Times(x, p * q)
  {
  }

  lemma UnitSplit(k: nat, m: nat)
    requires k <= m <= BMAX
    ensures Unit(k) == Pow2(m - k) * Unit(m)
  {
    hide Pow2;
    Pow2Add(m - k, BMAX - m);
  }

  /** A longer string has the smaller interval. */
  lemma Nest(d: BitString, c: BitString)
    requires d <= c && |c| <= BMAX
    ensures Start(d) <= Start(c) < End(c) <= End(d)
  {
    hide BE, Pow2, Times, Unit;
    var p := Pow2(|c| - |d|);
    BESplit(c, |d|);
    assert c[..|d|] == d;
    UnitSplit(|d|, |c|);
    TimesStep(BE(d), p);
    TimesAssoc(BE(d), p, Unit(|c|));
    TimesAssoc(BE(d) + 1, p, Unit(|c|));
    TimesMono(Times(BE(d), p), BE(c), Unit(|c|));
    TimesMono(BE(c) + 1, Times(BE(d) + 1, p), Unit(|c|));
    TimesStep(BE(c), Unit(|c|));
  }

  /** The interval of `c` ends where a later string that leaves it begins. */
  lemma Leave(c: BitString, d: BitString, s: BitString, t: BitString)
    requires c <= d <= s && |s| == BMAX == |t|
    requires BE(t) == End(d) && !(c <= t)
    ensures End(c) == BE(t)
  {
    hide BE, Pow2, Times, Unit, Start, End;
    Nest(c, d);
    Within(c, t);
    Within(c, s);
    Within(d, s);
  }

  /** Where a carry changes a prefix, the rest of the string is zero. */
  lemma Fresh(s: BitString, t: BitString, d: BitString, n: nat)
    requires |s| == BMAX == |t| && n <= |d| && d <= s
    requires BE(t) == End(d) && s[..n] != t[..n]
    ensures Start(t[..n]) == BE(t) == End(s[..n])
  {
    var c := s[..n];
    assert c <= d;
    assert !(c <= t);
    Leave(c, d, s, t);
    hide BE, Pow2, Times, Unit;
    BESplit(t, n);
    TimesMono(0, 0, 0);
    DigitInterval(BE(t), Unit(n), BE(t[..n]), BE(t[n..]), BE(c) + 1);
    TimesStep(BE(c) + 1, Unit(n));
  }

  /** A string whose value is that of its prefix has zeros behind the prefix. */
  lemma ZeroTail(s: BitString, n: nat)
    requires n <= |s| == BMAX && Start(s[..n]) == BE(s)
    ensures BE(s[n..]) == 0 && s[n..] == Zeros(BMAX - n) && LE(s[n..]) == 0
  {
    BESplit(s, n);
    LEZeros(Zeros(BMAX - n));
    BEInjective(s[n..], Zeros(BMAX - n));
  }

  lemma StartOfPadded(c: BitString, s: BitString)
    requires |c| <= BMAX && s == c + Zeros(BMAX - |c|)
    ensures BE(s) == Start(c) && LE(s) == LE(c)
  {
    hide BE, LE, Pow2, Times;
    var z := Zeros(BMAX - |c|);
    LEZeros(z);
    BEAppend(c, z);
    LEAppend(c, z);
    assert BE(s) == Times(BE(c), Pow2(|z|)) by { TimesIs(BE(c), Pow2(|z|)); }
    ZeroTimes(Pow2(|c|));
  }

  lemma TimesIs(x: nat, p: nat)
    ensures Times(x, p) == x * p
  {
  }

  lemma ZeroTimes(p: nat)
    ensures p * 0 == 0 && Times(0, p) == 0
  {
  }

  /** Prefixes that start where the string starts go on doing so when lengthened. */
  lemma StartGrows(s: BitString, n: nat, m: nat)
    requires n <= m <= |s| == BMAX && Start(s[..n]) == BE(s)
    ensures Start(s[..m]) == BE(s)
  {
    hide BE, LE, Pow2, Times, Unit, Start;
    ZeroTail(s, n);
    assert s[m..] == s[n..][m - n..];
    assert s == s[..m] + Zeros(BMAX - m);
    StartOfPadded(s[..m], s);
  }

  lemma {:induction false} SpaceMono(c: seq<nat>, j: nat, k: nat)
    requires |c| == BMAX + 1 && j <= k <= BMAX
    ensures Space(c, j) <= Space(c, k)
    decreases k
  {
    if j < k {
      SpaceMono(c, j, k - 1);
    }
  }

  /** The first code of each length starts where the shorter codes end. */
  lemma {:induction false} FirstStarts(c: seq<nat>, k: nat)
    requires |c| == BMAX + 1 && 1 <= k <= BMAX
    ensures Times(FirstCode(c, k), Unit(k)) == Space(c, k - 1)
    decreases k
  {
    if k == 1 {
      ZeroTimes(Unit(1));
    } else {
      FirstStarts(c, k - 1);
      hide Times, Pow2, Unit;
      PowOne();
      UnitSplit(k - 1, k);
      TimesDouble(FirstCode(c, k - 1), c[k - 1], Unit(k));
    }
  }

  lemma TimesDouble(x: nat, y: nat, u: nat)
    ensures Times(2 * (x + y), u) == Times(x, 2 * u) + Times(y, 2 * u)
  {
  }

  lemma PowOne()
    ensures Pow2(1) == 2
  {
  }
}
