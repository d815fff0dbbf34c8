/** Facts about division, remainder and powers of two that the solver does not find alone. */
module Arith {
  import opened Words

  /** n & (2^k - 1) */
  function LowBits(n: nat, k: nat): nat {
    n % Pow2(k)
  }

  lemma MulSign(a: nat, d: int)
    requires a > 0
    ensures d >= 1 ==> a * d >= a
    ensures d <= -1 ==> a * d + a <= 0
  {
  }

  lemma DivNat(n: nat, b: nat)
    requires b > 0
    ensures n / b >= 0
  {
    var q := n / b;
    assert n == b * q + n % b;
    MulSign(b, q);
  }

  /** n >> k */
  function HighBits(n: nat, k: nat): nat {
    DivNat(n, Pow2(k));
    n / Pow2(k)
  }

  /** Quotient and remainder are unique. */
  lemma DivUnique(n: int, a: nat, q: int, r: nat)
    requires a > 0 && n == a * q + r && r < a
    ensures n / a == q && n % a == r
  {
    var q1 := n / a;
    var r1 := n % a;
    assert n == a * q1 + r1;
    assert a * (q - q1) == a * q - a * q1;
    MulSign(a, q - q1);
  }

  lemma ModOfMod(n: nat, a: nat, b: nat)
    requires a > 0 && b > 0
    ensures a * b > 0 && (n % (a * b)) % a == n % a
  {
    MulSign(a, b);
    var ab := a * b;
    var q := n / ab;
    var r := n % ab;
    assert n == ab * q + r;
    assert ab * q == a * (b * q);
    var q1 := r / a;
    var r1 := r % a;
    assert r == a * q1 + r1;
    assert a * (b * q + q1) == a * (b * q) + a * q1;
    DivUnique(n, a, b * q + q1, r1);
  }

  /** The value of a 32-bit counter that has counted to `n`. */
  function Wrap(n: nat): (w: nat)
    ensures w < WORD
    ensures n < WORD ==> w == n
  {
    n % WORD
  }

  lemma WrapAdd(n: nat, k: nat)
    ensures Wrap(Wrap(n) + k) == Wrap(n + k)
  {
    var q := n / WORD;
    var m := n % WORD + k;
    DivUnique(n + k, WORD, q + m / WORD, m % WORD);
  }

  lemma Pow2Mono(a: nat, b: nat)
    requires a <= b
    ensures Pow2(a) <= Pow2(b)
  {
    if a < b {
      Pow2Mono(a, b - 1);
    }
  }

  lemma {:induction false} Pow2Add(a: nat, b: nat)
    ensures Pow2(a + b) == Pow2(a) * Pow2(b)
  {
    if a > 0 {
      Pow2Add(a - 1, b);
      assert Pow2(a + b) == 2 * Pow2(a - 1 + b);
      assert Pow2(a) == 2 * Pow2(a - 1);
      assert 2 * (Pow2(a - 1) * Pow2(b)) == (2 * Pow2(a - 1)) * Pow2(b);
    }
  }

  lemma Pow2Byte()
    ensures Pow2(8) == 0x100
  {
    assert Pow2(4) == 16;
  }

  lemma Pow2Word()
    ensures Pow2(32) == WORD && Pow2(16) == 0x1_0000 && Pow2(8) == 0x100
  {
    hide Pow2;
    Pow2Byte();
    Pow2Add(8, 8);
    Pow2Add(16, 16);
  }

  /** A product kept out of the solver's sight. */
  function Times(x: nat, p: nat): nat {
    x * p
  }

  lemma TimesStep(x: nat, p: nat)
    ensures Times(x + 1, p) == Times(x, p) + p
  {
  }

  /** The high digit of a number is the one whose interval the number lies in. */
  lemma DigitInterval(v: nat, p: nat, t: nat, r: nat, q: nat)
    requires v == Times(t, p) + r && r < p
    ensures q == t <==> Times(q, p) <= v < Times(q + 1, p)
  {
    MulSign(p, q - t);
    assert p * (q - t) == q * p - t * p;
    assert (q + 1) * p == q * p + p;
  }

  lemma DivBelow(x: nat, a: nat, b: nat)
    requires b > 0 && x < a * b
    ensures x / b < a
  {
    var q := x / b;
    MulSign(b, q - a);
    assert b * (q - a) == q * b - a * b;
  }

  /** The number with high digit `hi` in base `h` and low digit `lo`. */
  function Digits(hi: nat, h: nat, lo: nat): nat {
    hi * h + lo
  }

  /** A two-digit number is below the product of its bases. */
  lemma DigitBelow(hi: nat, lo: nat, h: nat, n: nat)
    requires hi < n && lo < h
    ensures Digits(hi, h, lo) < n * h
  {
    MulSign(h, n - hi);
    assert h * (n - hi) == n * h - hi * h;
  }
}
