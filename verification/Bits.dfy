/** Bit strings, read as numbers from either end. */
module Bits {
  import opened Words
  import opened Arith

  type BitString = seq<Bit>

  /** The value with the first bit least significant: how bits lie in a byte stream. */
  function LE(s: BitString): nat {
    if s == [] then 0 else s[0] + 2 * LE(s[1..])
  }

  /** The value with the first bit most significant: how Huffman codes are read. */
  function BE(s: BitString): nat {
    if s == [] then 0 else 2 * BE(s[..|s| - 1]) + s[|s| - 1]
  }

  /** The `n` low bits of `v`, least significant first. */
  function LEBits(v: nat, n: nat): (s: BitString)
    ensures |s| == n
  {
    if n == 0 then [] else [v % 2] + LEBits(v / 2, n - 1)
  }

  /** The `n` low bits of `v`, most significant first. */
  function BEBits(v: nat, n: nat): (s: BitString)
    ensures |s| == n
  {
    if n == 0 then [] else BEBits(v / 2, n - 1) + [v % 2]
  }

  function Zeros(n: nat): (s: BitString)
    ensures |s| == n && forall i :: 0 <= i < n ==> s[i] == 0
  {
    seq(n, i => 0)
  }

  /** The next bit string of the same length, most significant bit first. */
  function Inc(s: BitString): (t: BitString)
    ensures |t| == |s|
  {
    if s == [] then []
    else if s[|s| - 1] == 0 then s[..|s| - 1] + [1]
    else Inc(s[..|s| - 1]) + [0]
  }

  lemma {:induction false} LEBelow(s: BitString)
    ensures LE(s) < Pow2(|s|)
  {
    if s != [] {
      LEBelow(s[1..]);
    }
  }

  lemma {:induction false} BEBelow(s: BitString)
    ensures BE(s) < Pow2(|s|)
  {
    if s != [] {
      BEBelow(s[..|s| - 1]);
    }
  }

  lemma LECons(a: BitString)
    requires a != []
    ensures LE(a) == a[0] + 2 * LE(a[1..]) && Pow2(|a|) == 2 * Pow2(|a| - 1)
  {
  }

  lemma BESnoc(a: BitString)
    requires a != []
    ensures BE(a) == 2 * BE(a[..|a| - 1]) + a[|a| - 1] && Pow2(|a|) == 2 * Pow2(|a| - 1)
  {
  }

  /** One more digit in front of, or behind, a sum. */
  lemma MoreDigits(x: nat, p: nat, y: nat, d: nat)
    ensures d + 2 * (x + p * y) == (d + 2 * x) + (2 * p) * y
    ensures 2 * (y * p + x) + d == y * (2 * p) + (2 * x + d)
  {
    assert 2 * (p * y) == (2 * p) * y;
    assert 2 * (y * p) == y * (2 * p);
  }

  lemma {:induction false} LEAppend(a: BitString, b: BitString)
    ensures LE(a + b) == LE(a) + Pow2(|a|) * LE(b)
    decreases |a|
  {
    if a == [] {
      assert a + b == b;
    } else {
      LEAppend(a[1..], b);
      hide LE, Pow2;
      assert (a + b)[1..] == a[1..] + b;
      LECons(a + b);
      LECons(a);
      MoreDigits(LE(a[1..]), Pow2(|a| - 1), LE(b), a[0]);
    }
  }

  lemma {:induction false} BEAppend(a: BitString, b: BitString)
    ensures BE(a + b) == BE(a) * Pow2(|b|) + BE(b)
    decreases |b|
  {
    if b == [] {
      assert a + b == a;
    } else {
      var m := |b| - 1;
      BEAppend(a, b[..m]);
      hide BE, Pow2;
      assert (a + b)[..|a| + m] == a + b[..m];
      BESnoc(a + b);
      BESnoc(b);
      MoreDigits(BE(b[..m]), Pow2(m), BE(a), b[m]);
    }
  }

  lemma {:induction false} LEOfBits(v: nat, n: nat)
    requires v < Pow2(n)
    ensures LE(LEBits(v, n)) == v
  {
    if n > 0 {
      LEOfBits(v / 2, n - 1);
      assert LEBits(v, n)[1..] == LEBits(v / 2, n - 1);
    }
  }

  lemma {:induction false} BitsOfLE(s: BitString)
    ensures LEBits(LE(s), |s|) == s
  {
    if s != [] {
      BitsOfLE(s[1..]);
      assert LE(s) / 2 == LE(s[1..]) && LE(s) % 2 == s[0];
    }
  }

  lemma {:induction false} BEOfBits(v: nat, n: nat)
    requires v < Pow2(n)
    ensures BE(BEBits(v, n)) == v
  {
    if n > 0 {
      BEOfBits(v / 2, n - 1);
      assert BEBits(v, n)[..n - 1] == BEBits(v / 2, n - 1);
    }
  }

  lemma LEInjective(a: BitString, b: BitString)
    requires |a| == |b| && LE(a) == LE(b)
    ensures a == b
  {
    BitsOfLE(a);
    BitsOfLE(b);
  }

  /** Masking the low bits of the value cuts the string. */
  lemma LEPrefix(s: BitString, m: nat)
    requires m <= |s|
    ensures LE(s[..m]) == LE(s) % Pow2(m) && LE(s[m..]) == LE(s) / Pow2(m)
  {
    assert s == s[..m] + s[m..];
    LEAppend(s[..m], s[m..]);
    LEBelow(s[..m]);
    DivUnique(LE(s), Pow2(m), LE(s[m..]), LE(s[..m]));
  }

  lemma {:induction false} LEZeros(s: BitString)
    requires forall i :: 0 <= i < |s| ==> s[i] == 0
    ensures LE(s) == 0 && BE(s) == 0
  {
    if s != [] {
      LEZeros(s[1..]);
      LEZeros(s[..|s| - 1]);
    }
  }

  lemma {:induction false} IncBits(v: nat, n: nat)
    ensures Inc(BEBits(v, n)) == BEBits(v + 1, n)
  {
    if n > 0 {
      var s := BEBits(v, n);
      assert s[..n - 1] == BEBits(v / 2, n - 1);
      IncBits(v / 2, n - 1);
      if v % 2 == 0 {
        assert (v + 1) / 2 == v / 2;
      } else {
        assert (v + 1) / 2 == v / 2 + 1;
      }
    }
  }

  /** A carry that reaches into a prefix leaves only zeros behind it. */
  lemma {:induction false} IncCarry(s: BitString, m: nat)
    requires m <= |s|
    ensures Inc(s)[..m] == s[..m] || forall i :: m <= i < |s| ==> Inc(s)[i] == 0
  {
    if m < |s| && s[|s| - 1] == 1 {
      var n := |s| - 1;
      assert Inc(s)[..m] == Inc(s[..n])[..m];
      assert s[..n][..m] == s[..m];
      IncCarry(s[..n], m);
    }
  }

  lemma BEInjective(a: BitString, b: BitString)
    requires |a| == |b| && BE(a) == BE(b)
    ensures a == b
  {
    BitsOfBE(a);
    BitsOfBE(b);
  }

  lemma {:induction false} BitsOfBE(s: BitString)
    ensures BEBits(BE(s), |s|) == s
  {
    if s != [] {
      BitsOfBE(s[..|s| - 1]);
      assert BE(s) / 2 == BE(s[..|s| - 1]) && BE(s) % 2 == s[|s| - 1];
    }
  }

  /** Trailing zeros multiply the value. */
  lemma {:induction false} BEShift(v: nat, k: nat, m: nat)
    ensures BEBits(v * Pow2(m), k + m) == BEBits(v, k) + Zeros(m)
  {
    if m == 0 {
      assert BEBits(v, k) + Zeros(0) == BEBits(v, k);
    } else {
      var h := Pow2(m - 1);
      assert v * Pow2(m) == 2 * (v * h);
      DivUnique(v * Pow2(m), 2, v * h, 0);
      BEShift(v, k, m - 1);
      assert Zeros(m) == Zeros(m - 1) + [0];
      assert BEBits(v, k) + Zeros(m) == (BEBits(v, k) + Zeros(m - 1)) + [0];
    }
  }

  lemma BESplit(s: BitString, n: nat)
    requires n <= |s|
    ensures BE(s) == Times(BE(s[..n]), Pow2(|s| - n)) + BE(s[n..])
    ensures BE(s[n..]) < Pow2(|s| - n)
  {
    hide BE, Pow2;
    assert s == s[..n] + s[n..];
    BEAppend(s[..n], s[n..]);
    BEBelow(s[n..]);
  }

  /** A bit string starts with `c` exactly when its value lies in the interval of `c`. */
  lemma PrefixInterval(c: BitString, s: BitString)
    requires |c| <= |s|
    ensures c <= s
       <==> Times(BE(c), Pow2(|s| - |c|)) <= BE(s) < Times(BE(c) + 1, Pow2(|s| - |c|))
  {
    hide BE, Pow2, Times;
    var t := s[..|c|];
    BESplit(s, |c|);
    DigitInterval(BE(s), Pow2(|s| - |c|), BE(t), BE(s[|c|..]), BE(c));
    if BE(c) == BE(t) {
      BEInjective(c, t);
    } else {
      assert c != t;
    }
  }
}
