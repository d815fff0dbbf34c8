/** Printing 64-bit numbers and reading them back. */
module Numbers {
  import opened Words
  import Arith

  const W64: nat := 0x1_0000_0000_0000_0000
  const HALF: nat := 0x8000_0000_0000_0000

  const MINUS: Byte := 45
  const BANG: Byte := 33
  const TILDE: Byte := 126
  const ZERO: Byte := 48
  const LOWER_X: Byte := 120
  const UPPER_X: Byte := 88
  const LOWER_D: Byte := 100
  const LOWER_K: Byte := 107
  const LOWER_M: Byte := 109
  const LOWER_G: Byte := 103
  const LOWER_T: Byte := 116

  // ---- the text of a number

  function Digit(d: nat, c: Byte): Byte
    requires d < 16 && (d > 9 ==> c == LOWER_X || c == UPPER_X)
  {
    if d > 9 then d + c - 33 else ZERO + d
  }

  /** The digits of `n` in base 16 if `c` is x or X, in base 10 otherwise; no leading zeros. */
  function Base(c: Byte): (b: nat) {
    if c == LOWER_X || c == UPPER_X then 16 else 10
  }

  function Digits(n: nat, c: Byte): (t: seq<Byte>)
    ensures t != []
  {
    var low := [Digit(n % Base(c), c)];
    if n < Base(c) then low else Digits(n / Base(c), c) + low
  }

  /** What the letter of a format makes of a 64-bit word: d takes it as signed. */
  function Text(n: nat, c: Byte): seq<Byte>
    requires n < W64
  {
    if c == LOWER_D && n >= HALF then [MINUS] + Digits(W64 - n, c) else Digits(n, c)
  }

  // ---- the number in a text

  /** Setting the bit that tells a small letter from a capital one. */
  function Lower(b: Byte): Byte {
    if b / 32 % 2 == 0 then b + 32 else b
  }

  /** Hexadecimal digits, found by wrapping byte arithmetic. */
  function HexDigit(b: Byte): (d: Option<nat>)
    ensures d.Some? <==> 48 <= b <= 57 || 65 <= b <= 70 || 97 <= b <= 102
    ensures d.Some? ==> d.value == if b <= 57 then b - 48 else if b <= 70 then b - 55 else b - 87
  {
    var digit: Byte := (b - ZERO) % 256;
    if digit <= 9 then Some(digit)
    else
      var letter := (Lower(digit) - 49) % 256;
      if letter > 5 then None else Some(letter + 10)
  }

  function DecDigit(b: Byte): Option<nat> {
    var digit := (b - ZERO) % 256;
    if digit > 9 then None else Some(digit)
  }

  function DigitOf(b: Byte, base: nat): Option<nat> {
    if base == 16 then HexDigit(b) else DecDigit(b)
  }

  predicate AllDigits(t: seq<Byte>, base: nat) {
    forall i :: 0 <= i < |t| ==> DigitOf(t[i], base).Some?
  }

  /** The digits a text begins with. */
  function Leading(t: seq<Byte>, base: nat): (r: seq<Byte>)
    ensures r <= t && AllDigits(r, base)
    ensures |r| < |t| ==> DigitOf(t[|r|], base).None?
  {
    if t == [] || DigitOf(t[0], base).None? then [] else [t[0]] + Leading(t[1..], base)
  }

  function Value(t: seq<Byte>, base: nat): nat
    requires AllDigits(t, base)
  {
    if t == [] then 0 else Value(t[..|t| - 1], base) * base + DigitOf(t[|t| - 1], base).value
  }

  datatype Parsed = Number(value: nat, rest: seq<Byte>) | Overflow | NotANumber

  predicate IsSign(b: Byte) {
    b == MINUS || b == BANG || b == TILDE
  }

  /** An optional sign, digits, and an optional suffix; `unitshift` is the logarithm of the unit the
      suffixes are counted in. */
  function Parse(s: seq<Byte>, unitshift: nat): Parsed {
    var sign := if s != [] && IsSign(s[0]) then s[0] else 0;
    var t := if sign != 0 then s[1..] else s;
    if |t| >= 2 && t[0] == ZERO && Lower(t[1]) == LOWER_X then Unsigned(t[2..], 16, sign, unitshift)
    else Unsigned(t, 10, sign, unitshift)
  }

  /** The largest number: 64 bits in hexadecimal, 63 bits in decimal or one more behind a sign. */
  function Limit(base: nat, sign: Byte): nat {
    if base == 16 then W64 - 1 else if sign == 0 then HALF - 1 else HALF
  }

  function Unsigned(t: seq<Byte>, base: nat, sign: Byte, unitshift: nat): Parsed {
    var run := Leading(t, base);
    if run == [] then NotANumber
    else if Value(run, base) > Limit(base, sign) then Overflow
    else Suffixed(Value(run, base), t[|run|..], base, sign, unitshift)
  }

  function Suffix(rest: seq<Byte>): Option<nat> {
    if rest == [] then None
    else
      var c := Lower(rest[0]);
      if c == LOWER_K then Some(10)
      else if c == LOWER_M then Some(20)
      else if c == LOWER_G then Some(30)
      else if c == LOWER_T then Some(40)
      else None
  }

  function Signed(v: nat, sign: Byte): nat
    requires v < W64
  {
    if sign == MINUS then (W64 - v) % W64
    else if sign == BANG then (if v == 0 then 1 else 0)
    else if sign == TILDE then W64 - 1 - v
    else v
  }

  /** The number in units; a decimal one must not gain or lose bit 63. */
  function Suffixed(v: nat, rest: seq<Byte>, base: nat, sign: Byte, unitshift: nat): Parsed
    requires v < W64
  {
    match Suffix(rest)
    case None => Number(Signed(v, sign), rest)
    case Some(e) =>
      var up, down := Pow2(Max(e - unitshift, 0)), Pow2(Max(unitshift - e, 0));
      if v % down != 0 || v / down * up >= W64 then Overflow
      else
        var w := v / down * up;
        if base == 10 && (v >= HALF) != (w >= HALF) then Overflow else Number(Signed(w, sign), rest[1..])
  }

  // ---- printing and reading back

  /** Text that ends a number and is not taken for a suffix. */
  predicate Inert(tail: seq<Byte>) {
    tail != [] ==> HexDigit(tail[0]).None? && Suffix(tail).None? && Lower(tail[0]) != LOWER_X
  }

  lemma DigitBack(d: nat, c: Byte)
    requires d < Base(c)
    ensures DigitOf(Digit(d, c), Base(c)) == Some(d)
  {
  }

  lemma ValueMore(t: seq<Byte>, b: Byte, base: nat)
    requires AllDigits(t, base) && DigitOf(b, base).Some?
    ensures AllDigits(t + [b], base) && Value(t + [b], base) == Value(t, base) * base + DigitOf(b, base).value
  {
    hide DigitOf;
    assert (t + [b])[..|t|] == t;
    assert (t + [b])[|t|] == b;
  }

  lemma {:induction false} DigitsBack(n: nat, c: Byte)
    ensures AllDigits(Digits(n, c), Base(c))
    ensures Value(Digits(n, c), Base(c)) == n
    decreases n
  {
    hide DigitOf, Digit, AllDigits, Value;
    DigitBack(n % Base(c), c);
    var low := Digit(n % Base(c), c);
    if n >= Base(c) {
      DigitsBack(n / Base(c), c);
      ValueMore(Digits(n / Base(c), c), low, Base(c));
    } else {
      NoDigits(Base(c));
      ValueMore([], low, Base(c));
      assert [] + [low] == [low];
    }
  }

  lemma NoDigits(base: nat)
    ensures AllDigits([], base) && Value([], base) == 0
  {
  }

  lemma {:induction false} LeadingAll(t: seq<Byte>, tail: seq<Byte>, base: nat)
    requires AllDigits(t, base)
    requires tail != [] ==> DigitOf(tail[0], base).None?
    ensures Leading(t + tail, base) == t
    decreases |t|
  {
    hide DigitOf;
    if t == [] {
      assert t + tail == tail;
    } else {
      assert (t + tail)[1..] == t[1..] + tail;
      LeadingAll(t[1..], tail, base);
    }
  }

  /** Reading the digits of a number behind a sign or none. */
  lemma DigitsParse(n: nat, c: Byte, tail: seq<Byte>, sign: Byte, unitshift: nat)
    requires Inert(tail)
    ensures Unsigned(Digits(n, c) + tail, Base(c), sign, unitshift)
         == if n > Limit(Base(c), sign) then Overflow else Number(Signed(n, sign), tail)
  {
    hide Digits, Leading, Signed, Value, HexDigit;
    DigitsBack(n, c);
    LeadingAll(Digits(n, c), tail, Base(c));
    assert (Digits(n, c) + tail)[|Digits(n, c)|..] == tail;
  }

  /** Printed digits are not taken for a hexadecimal number. */
  lemma {:induction false} NotHex(n: nat, c: Byte, tail: seq<Byte>)
    requires Inert(tail) && Base(c) == 10
    ensures var t := Digits(n, c) + tail; !IsSign(t[0]) && !(|t| >= 2 && t[0] == ZERO && Lower(t[1]) == LOWER_X)
  {
    hide Value, Leading, HexDigit;
    DigitsBack(n, c);
    var t := Digits(n, c) + tail;
    assert DecDigit(Digits(n, c)[0]).Some?;
    if |t| >= 2 {
      if |Digits(n, c)| == 1 {
        assert t[1] == tail[0];
      } else {
        assert DecDigit(Digits(n, c)[1]).Some?;
      }
    }
  }

  /** Every signed 64-bit number is read back from its decimal text, whatever inert text follows. */
  lemma SignedRoundTrip(n: nat, tail: seq<Byte>, unitshift: nat)
    requires n < W64 && Inert(tail)
    ensures Parse(Text(n, LOWER_D) + tail, unitshift) == Number(n, tail)
  {
    hide Digits, Leading, Value, HexDigit, Unsigned;
    if n >= HALF {
      NotHex(W64 - n, LOWER_D, tail);
      DigitsParse(W64 - n, LOWER_D, tail, MINUS, unitshift);
      assert (Text(n, LOWER_D) + tail)[1..] == Digits(W64 - n, LOWER_D) + tail;
    } else {
      NotHex(n, LOWER_D, tail);
      DigitsParse(n, LOWER_D, tail, 0, unitshift);
    }
  }

  /** Every 64-bit number is read back from 0x and its hexadecimal text in either case. */
  lemma HexRoundTrip(n: nat, c: Byte, x: Byte, tail: seq<Byte>, unitshift: nat)
    requires n < W64 && Inert(tail) && Base(c) == 16 && Base(x) == 16
    ensures Parse([ZERO, x] + Text(n, c) + tail, unitshift) == Number(n, tail)
  {
    hide Digits, Leading, Value, HexDigit, Unsigned;
    var s := [ZERO, x] + Text(n, c) + tail;
    assert s[2..] == Digits(n, c) + tail;
    DigitsParse(n, c, tail, 0, unitshift);
  }

  /** An unsigned decimal text is read back just when bit 63 is clear. */
  lemma UnsignedRoundTrip(n: nat, c: Byte, tail: seq<Byte>, unitshift: nat)
    requires n < W64 && Inert(tail) && Base(c) == 10 && c != LOWER_D
    ensures Parse(Text(n, c) + tail, unitshift) == Number(n, tail) <==> n < HALF
    ensures n >= HALF ==> Parse(Text(n, c) + tail, unitshift) == Overflow
  {
    hide Digits, Leading, Value, HexDigit, Unsigned;
    NotHex(n, c, tail);
    DigitsParse(n, c, tail, 0, unitshift);
  }

  /** A decimal number with a suffix is read as that many units just when the product stays below bit
      63, and refused otherwise. */
  lemma SuffixExact(n: nat, c: Byte, letter: Byte, tail: seq<Byte>, unitshift: nat)
    requires n < HALF && Base(c) == 10
    requires Suffix([letter]).Some? && unitshift <= Suffix([letter]).value
    ensures var scaled := n * Pow2(Suffix([letter]).value - unitshift);
            Parse(Digits(n, c) + ([letter] + tail), unitshift) == if scaled < HALF then Number(scaled, tail)
              else Overflow
  {
    hide Digits, Leading, Value, Unsigned, Pow2, DecDigit;
    var rest := [letter] + tail;
    var t := Digits(n, c) + rest;
    DigitsBack(n, c);
    LetterIsNone(letter);
    LeadingAll(Digits(n, c), rest, 10);
    assert t[|Digits(n, c)|..] == rest && rest[1..] == tail;
    FirstDigits(n, c, letter, tail);
    OnePower();
    TimesOne(n);
    UnsignedIs(t, 10, 0, unitshift);
  }

  lemma UnsignedIs(t: seq<Byte>, base: nat, sign: Byte, unitshift: nat)
    ensures var run := Leading(t, base);
            Unsigned(t, base, sign, unitshift)
              == if run == [] then NotANumber
                 else if Value(run, base) > Limit(base, sign) then Overflow
                 else Suffixed(Value(run, base), t[|run|..], base, sign, unitshift)
  {
  }

  lemma LetterIsNone(letter: Byte)
    requires Suffix([letter]).Some?
    ensures DecDigit(letter).None? && Lower(letter) != LOWER_X
  {
  }

  lemma FirstDigits(n: nat, c: Byte, letter: Byte, tail: seq<Byte>)
    requires Base(c) == 10 && Suffix([letter]).Some?
    ensures var t := Digits(n, c) + ([letter] + tail);
            && !IsSign(t[0])
            && !(|t| >= 2 && t[0] == ZERO && Lower(t[1]) == LOWER_X)
  {
    hide Digits, Value;
    DigitsBack(n, c);
    LetterIsNone(letter);
    var d := Digits(n, c);
    assert DigitOf(d[0], 10).Some?;
    if |d| > 1 {
      assert DigitOf(d[1], 10).Some?;
    }
  }

  /** The suffixes are k, m, g and t, small or capital. */
  lemma SuffixLetters(letter: Byte)
    ensures Suffix([letter]) == if letter == 75 || letter == 107 then Some(10)
                                else if letter == 77 || letter == 109 then Some(20)
                                else if letter == 71 || letter == 103 then Some(30)
                                else if letter == 84 || letter == 116 then Some(40)
                                else None
  {
  }

  lemma Thousands()
    ensures Pow2(10) == 1024 && Pow2(20) == 1024 * 1024 && Pow2(30) == 1024 * 1024 * 1024
    ensures Pow2(40) == 1024 * 1024 * 1024 * 1024
  {
    Arith.Pow2Add(10, 10);
    Arith.Pow2Add(20, 10);
    Arith.Pow2Add(30, 10);
  }

  /** They stand for powers of 1024: `5K` is 5120. */
  lemma SuffixBytes(n: nat, c: Byte, letter: Byte, tail: seq<Byte>)
    requires n < HALF && Base(c) == 10 && (letter == 107 || letter == 109 || letter == 103 || letter == 116)
    ensures var unit := if letter == 107 then 1024 else if letter == 109 then 1024 * 1024
                        else if letter == 103 then 1024 * 1024 * 1024 else 1024 * 1024 * 1024 * 1024;
            Parse(Digits(n, c) + ([letter] + tail), 0) == if n * unit < HALF then Number(n * unit, tail) else Overflow
  {
    hide Digits, Parse, Pow2, Base;
    SuffixLetters(letter);
    SuffixExact(n, c, letter, tail, 0);
    Thousands();
  }

  /** Counted in units larger than the suffix a number must be a whole number of them. */
  lemma SuffixDown(n: nat, c: Byte, letter: Byte, tail: seq<Byte>, unitshift: nat)
    requires n < HALF && Base(c) == 10
    requires Suffix([letter]).Some? && unitshift > Suffix([letter]).value
    ensures var unit := Pow2(unitshift - Suffix([letter]).value);
            Parse(Digits(n, c) + ([letter] + tail), unitshift) == if n % unit == 0 then Number(n / unit, tail)
              else Overflow
  {
    hide Digits, Leading, Value, Unsigned, Pow2, DecDigit;
    var rest := [letter] + tail;
    var t := Digits(n, c) + rest;
    DigitsBack(n, c);
    LetterIsNone(letter);
    LeadingAll(Digits(n, c), rest, 10);
    assert t[|Digits(n, c)|..] == rest && rest[1..] == tail;
    FirstDigits(n, c, letter, tail);
    OnePower();
    DivSmaller(n, Pow2(unitshift - Suffix([letter]).value));
    UnsignedIs(t, 10, 0, unitshift);
  }

  lemma DivSmaller(n: nat, p: nat)
    requires p >= 1
    ensures 0 <= n / p <= n && n / p * 1 == n / p
  {
    Arith.DivNat(n, p);
    var q := n / p;
    assert n == p * q + n % p;
    assert (p - 1) * q >= 0;
    assert p * q == (p - 1) * q + q;
  }

  /** The signs: `-` negates modulo 2^64, `!` tells whether the number is zero, `~` inverts its 64 bits. */
  lemma SignExact(n: nat, c: Byte, sign: Byte, tail: seq<Byte>, unitshift: nat)
    requires Base(c) == 10 && Inert(tail) && (sign == 45 || sign == 33 || sign == 126)
    ensures Parse([sign] + Digits(n, c) + tail, unitshift)
         == if n > HALF then Overflow
            else if sign == 45 then Number((W64 - n) % W64, tail)
            else if sign == 33 then Number(if n == 0 then 1 else 0, tail)
            else Number(W64 - 1 - n, tail)
  {
    hide Digits, Leading, Value, HexDigit, Unsigned;
    NotHex(n, c, tail);
    DigitsParse(n, c, tail, sign, unitshift);
    assert ([sign] + Digits(n, c) + tail)[1..] == Digits(n, c) + tail;
  }

  // ---- what is printed

  /** No zeros are printed in front. */
  lemma {:induction false} NoLeadingZero(n: nat, c: Byte)
    ensures Digits(n, c)[0] == 48 <==> n == 0
    decreases n
  {
    if n >= Base(c) {
      NoLeadingZero(n / Base(c), c);
    }
  }

  /** Only d prints a minus, and only for numbers with bit 63 set. */
  lemma MinusPrinted(n: nat)
    requires n < 0x1_0000_0000_0000_0000
    ensures Text(n, 100)[0] == 45 <==> n >= 0x8000_0000_0000_0000
    ensures Text(n, 117)[0] != 45 && Text(n, 120)[0] != 45 && Text(n, 88)[0] != 45
  {
    hide Digits;
    FirstIsDigit(n, 100);
    FirstIsDigit(n, 117);
    FirstIsDigit(n, 120);
    FirstIsDigit(n, 88);
  }

  lemma {:induction false} FirstIsDigit(n: nat, c: Byte)
    ensures Digits(n, c)[0] >= 48
    decreases n
  {
    if n >= Base(c) {
      FirstIsDigit(n / Base(c), c);
    }
  }

  /** The digits behind 9 are small letters for x and capital ones for X. */
  lemma DigitCase(d: nat)
    requires 10 <= d < 16
    ensures Digit(d, 120) == 97 + (d - 10) && Digit(d, 88) == 65 + (d - 10)
  {
  }

  // ---- the printer

  lemma TenInHalves(h1: nat, h0: nat, l1: nat, l0: nat)
    ensures (h1 * 10 + h0) * WORD + l1 * 10 + l0
         == (h1 * WORD + h0 * 429496729 + (l1 + (l0 + h0 * 6) / 10)) * 10 + (l0 + h0 * 6) % 10
  {
  }

  /** None of the word operations wraps around. */
  lemma NothingWraps(h1: nat, h0: nat, l1: nat, carry: nat)
    requires h0 < 10 && h1 <= 429496729 && l1 <= 429496729 && carry <= 6
    ensures (l1 + carry) % WORD == l1 + carry && h0 * 429496729 % WORD == h0 * 429496729
    ensures (h1 * WORD + h0 * 429496729 + (l1 + carry)) % W64 == h1 * WORD + h0 * 429496729 + (l1 + carry)
  {
  }

  lemma TenTimes(n: nat, q: nat, r: nat)
    requires n == q * 10 + r && r < 10
    ensures n / 10 == q && n % 10 == r
  {
  }

  lemma SplitWord(q: nat)
    requires q < W64
    ensures q / WORD < WORD && q % WORD < WORD && q / WORD * WORD + q % WORD == q
  {
  }

  lemma SplitTen(n: nat)
    requires n < WORD
    ensures n == n / 10 * 10 + n % 10 && n / 10 <= 429496729
  {
  }

  /** Division by ten in 32-bit halves. */
  method DivideByTen(hi: nat, lo: nat) returns (hi1: nat, lo1: nat, digit: nat)
    requires hi < WORD && lo < WORD
    ensures hi1 < WORD && lo1 < WORD
    ensures hi1 * WORD + lo1 == (hi * WORD + lo) / 10 && digit == (hi * WORD + lo) % 10
  {
    SplitTen(hi);
    SplitTen(lo);
    ghost var n := hi * WORD + lo;
    var h0: nat, h1: nat, l0: nat, l1: nat := hi % 10, hi / 10, lo % 10, lo / 10;
    ghost var q: nat := h1 * WORD + h0 * 429496729 + (l1 + (l0 + h0 * 6) / 10);
    ghost var r: nat := (l0 + h0 * 6) % 10;
    assert n == q * 10 + r by {
      TenInHalves(h1, h0, l1, l0);
    }
    NothingWraps(h1, h0, l1, (l0 + h0 * 6) / 10);
    l0 := l0 + h0 * 6;
    l1 := (l1 + l0 / 10) % WORD;
    l0 := l0 % 10;
    var low := h0 * 429496729 % WORD;
    var quotient := (h1 * WORD + low + l1) % W64;
    assert quotient == q && l0 == r;
    TenTimes(n, q, r);
    SplitWord(quotient);
    hi1, lo1, digit := quotient / WORD, quotient % WORD, l0;
  }

  lemma SplitSixteen(n: nat)
    ensures n == n / 16 * 16 + n % 16 && n / 16 >= 0
  {
  }

  lemma SixteenInHalves(h1: nat, h0: nat, l1: nat, l0: nat)
    ensures (h1 * 16 + h0) * WORD + (l1 * 16 + l0) == 16 * (h1 * WORD + (h0 * 0x1000_0000 + l1)) + l0
  {
  }

  /** A 64-bit shift by four, in the same halves. */
  lemma ShiftFour(hi: nat, lo: nat)
    requires hi < WORD && lo < WORD
    ensures (hi * WORD + lo) % 16 == lo % 16
    ensures (hi * WORD + lo) / 16 == hi / 16 * WORD + (hi % 16 * 0x1000_0000 + lo / 16)
  {
    SplitSixteen(hi);
    SplitSixteen(lo);
    var h1: nat, h0: nat, l1: nat, l0: nat := hi / 16, hi % 16, lo / 16, lo % 16;
    SixteenInHalves(h1, h0, l1, l0);
    Arith.DivUnique(hi * WORD + lo, 16, h1 * WORD + (h0 * 0x1000_0000 + l1), l0);
  }

  function Reversed(t: seq<Byte>): (r: seq<Byte>)
    ensures |r| == |t|
  {
    if t == [] then [] else [t[|t| - 1]] + Reversed(t[..|t| - 1])
  }

  lemma {:induction false} ReversedAt(t: seq<Byte>, i: nat)
    requires i < |t|
    ensures Reversed(t)[i] == t[|t| - 1 - i]
    decreases |t|
  {
    if i > 0 {
      ReversedAt(t[..|t| - 1], i - 1);
    }
  }

  lemma ReversedMore(t: seq<Byte>, b: Byte)
    ensures Reversed(t + [b]) == [b] + Reversed(t)
  {
    assert (t + [b])[..|t|] == t;
  }

  function Pow(b: nat, k: nat): nat {
    if k == 0 then 1 else b * Pow(b, k - 1)
  }

  lemma {:induction false} FewDigits(n: nat, c: Byte, k: nat)
    requires k >= 1 && n < Pow(Base(c), k)
    ensures |Digits(n, c)| <= k
    decreases k
  {
    hide Digit;
    if n >= Base(c) {
      assert Pow(Base(c), k) == Base(c) * Pow(Base(c), k - 1);
      assert k > 1;
      FewDigits(n / Base(c), c, k - 1);
    }
  }

  lemma TwentyDigits(n: nat, c: Byte)
    requires n < W64
    ensures |Digits(n, c)| <= 20 && (n <= HALF ==> |Digits(n, c)| <= 19)
  {
    hide Digits;
    if Base(c) == 16 {
      assert Pow(16, 2) == 0x100;
      assert Pow(16, 4) == 0x1_0000;
      assert Pow(16, 6) == 0x100_0000;
      assert Pow(16, 8) == WORD;
      assert Pow(16, 10) == 0x100 * WORD;
      assert Pow(16, 12) == 0x1_0000 * WORD;
      assert Pow(16, 14) == 0x100_0000 * WORD;
      assert Pow(16, 16) == W64;
      FewDigits(n, c, 16);
    } else {
      assert Pow(10, 2) == 100;
      assert Pow(10, 4) == 1_0000;
      assert Pow(10, 6) == 100_0000;
      assert Pow(10, 8) == 1_0000_0000;
      assert Pow(10, 10) == 100_0000_0000;
      assert Pow(10, 12) == 1_0000_0000_0000;
      assert Pow(10, 14) == 100_0000_0000_0000;
      assert Pow(10, 16) == 1_0000_0000_0000_0000;
      assert Pow(10, 18) == 100_0000_0000_0000_0000;
      assert Pow(10, 19) == 1000_0000_0000_0000_0000;
      FewDigits(n, c, 20);
      if n <= HALF {
        FewDigits(n, c, 19);
      }
    }
  }

  /** The digits still to come, then what has been written since `start`, turned round, are `all`. */
  ghost predicate Written(was: seq<Byte>, now: seq<Byte>, start: nat, ptr: nat, left: seq<Byte>, all: seq<Byte>) {
    && |was| == |now| && start <= ptr && ptr + |left| <= |now|
    && left + Reversed(now[start..ptr]) == all
    && now[..start] == was[..start] && now[ptr..] == was[ptr..]
  }

  lemma WrittenMore(was: seq<Byte>, now: seq<Byte>, start: nat, ptr: nat, left: seq<Byte>, d: Byte, all: seq<Byte>)
    requires Written(was, now, start, ptr, left + [d], all)
    ensures Written(was, now[ptr := d], start, ptr + 1, left, all)
  {
    hide Reversed;
    var after := now[ptr := d];
    assert after[start..ptr + 1] == now[start..ptr] + [d];
    ReversedMore(now[start..ptr], d);
    assert left + ([d] + Reversed(now[start..ptr])) == left + [d] + Reversed(now[start..ptr]);
    assert after[ptr + 1..] == now[ptr..][1..] == was[ptr..][1..] == was[ptr + 1..];
  }

  lemma WrittenFirst(was: seq<Byte>, start: nat, all: seq<Byte>)
    requires start + |all| <= |was|
    ensures Written(was, was, start, start, all, all)
  {
    assert Reversed(was[start..start]) == [];
  }

  lemma WrittenLast(was: seq<Byte>, now: seq<Byte>, start: nat, ptr: nat, all: seq<Byte>)
    requires Written(was, now, start, ptr, [], all)
    ensures |was| == |now| && start <= ptr <= |now| && Reversed(now[start..ptr]) == all && ptr == start + |all|
    ensures now[..start] == was[..start] && now[ptr..] == was[ptr..]
  {
  }

  /** What is left when the last digit has gone: nothing if the quotient is zero. */
  function Rest(n: nat, c: Byte): seq<Byte> {
    if n < Base(c) then [] else Digits(n / Base(c), c)
  }

  lemma DigitsStep(n: nat, c: Byte)
    ensures Digits(n, c) == Rest(n, c) + [Digit(n % Base(c), c)]
    ensures n < Base(c) <==> n / Base(c) == 0
  {
    if n < Base(c) {
      assert [] + [Digit(n % Base(c), c)] == [Digit(n % Base(c), c)];
    }
  }

  /** Shifts by four, or divides by ten in halves. */
  method DropDigit(c: Byte, hi: nat, lo: nat) returns (hi1: nat, lo1: nat, digit: nat)
    requires hi < WORD && lo < WORD
    ensures hi1 < WORD && lo1 < WORD
    ensures hi1 * WORD + lo1 == (hi * WORD + lo) / Base(c) && digit == (hi * WORD + lo) % Base(c)
  {
    if Base(c) == 16 {
      ShiftFour(hi, lo);
      digit := lo % 16;
      hi1, lo1 := hi / 16, hi % 16 * 0x1000_0000 + lo / 16;
    } else {
      hi1, lo1, digit := DivideByTen(hi, lo);
    }
  }

  /** Writes the digits lowest first; the number is kept in two halves. */
  method WriteBackwards(buf: array<Byte>, start: nat, c: Byte, hi0: nat, lo0: nat) returns (ptr: nat)
    requires hi0 < WORD && lo0 < WORD
    requires start + |Digits(hi0 * WORD + lo0, c)| <= buf.Length
    modifies buf
    ensures ptr == start + |Digits(hi0 * WORD + lo0, c)| && buf[..start] == old(buf[..start])
    ensures Reversed(buf[start..ptr]) == Digits(hi0 * WORD + lo0, c)
    ensures buf[ptr..] == old(buf[ptr..])
  {
    hide Digits, Reversed, Digit, Written, Rest;
    var hi: nat, lo: nat := hi0, lo0;
    ptr := start;
    ghost var n := hi * WORD + lo;
    ghost var all := Digits(n, c);
    ghost var was := buf[..];
    WrittenFirst(was, start, all);
    while true
      invariant hi < WORD && lo < WORD && n == hi * WORD + lo
      invariant Written(was, buf[..], start, ptr, Digits(n, c), all)
      decreases n
    {
      DigitsStep(n, c);
      WrittenRoom(was, buf[..], start, ptr, Digits(n, c), all);
      var digit;
      hi, lo, digit := DropDigit(c, hi, lo);
      WrittenMore(was, buf[..], start, ptr, Rest(n, c), Digit(digit, c), all);
      ghost var before := buf[..];
      buf[ptr] := Digit(digit, c);
      assert buf[..] == before[ptr := Digit(digit, c)];
      ptr := ptr + 1;
      RestIs(n, c);
      if hi == 0 && lo == 0 {
        break;
      }
      n := hi * WORD + lo;
    }
    WrittenLast(was, buf[..], start, ptr, all);
    assert buf[..][start..ptr] == buf[start..ptr];
  }

  lemma RestIs(n: nat, c: Byte)
    ensures n / Base(c) == 0 ==> Rest(n, c) == []
    ensures n / Base(c) > 0 ==> Rest(n, c) == Digits(n / Base(c), c) && n / Base(c) < n
  {
    hide Digits;
  }

  lemma WrittenRoom(was: seq<Byte>, now: seq<Byte>, start: nat, ptr: nat, left: seq<Byte>, all: seq<Byte>)
    requires Written(was, now, start, ptr, left, all)
    ensures start <= ptr && ptr + |left| <= |now|
  {
  }

  lemma TurnedRound(was: seq<Byte>, now: seq<Byte>, start: nat, ptr: nat)
    requires start <= ptr <= |was| == |now|
    requires forall i :: start <= i < ptr ==> now[i] == was[start + ptr - 1 - i]
    ensures now[start..ptr] == Reversed(was[start..ptr])
  {
    forall i | 0 <= i < ptr - start
      ensures now[start..ptr][i] == Reversed(was[start..ptr])[i]
    {
      ReversedAt(was[start..ptr], i);
      assert now[start + i] == was[start + ptr - 1 - (start + i)];
    }
  }

  /** Turns a part of the buffer round. */
  method ReverseInPlace(buf: array<Byte>, start: nat, ptr: nat)
    requires start < ptr <= buf.Length
    modifies buf
    ensures buf[start..ptr] == Reversed(old(buf[start..ptr]))
    ensures buf[..start] == old(buf[..start]) && buf[ptr..] == old(buf[ptr..])
  {
    hide Reversed;
    var ptr1, ptr2 := ptr - 1, start;
    ghost var was := buf[..];
    while ptr1 > ptr2
      invariant start <= ptr2 <= ptr1 + 1 <= ptr && ptr1 + ptr2 == start + ptr - 1
      invariant forall i :: 0 <= i < buf.Length && (i < start || ptr2 <= i <= ptr1 || i >= ptr) ==> buf[i] == was[i]
      invariant forall i :: start <= i < ptr2 || ptr1 < i < ptr ==> buf[i] == was[start + ptr - 1 - i]
      decreases ptr1 - ptr2
    {
      buf[ptr1], buf[ptr2] := buf[ptr2], buf[ptr1];
      ptr1, ptr2 := ptr1 - 1, ptr2 + 1;
    }
    TurnedRound(was, buf[..], start, ptr);
    assert buf[..][start..ptr] == buf[start..ptr] && was[start..ptr] == old(buf[start..ptr]);
  }

  /** Prints a 64-bit word given in two halves. */
  method ConvertToAscii(buf: array<Byte>, c: Byte, lo: nat, hi: nat) returns (ptr: nat)
    requires hi < WORD && lo < WORD && buf.Length >= 20
    modifies buf
    ensures ptr <= 20 && buf[..ptr] == Text(hi * WORD + lo, c) && buf[ptr..] == old(buf[ptr..])
  {
    hide Digits, Reversed, Digit;
    var h, l, start := hi, lo, 0;
    if hi >= 0x8000_0000 && c == LOWER_D {
      var negated := (W64 - (hi * WORD + lo)) % W64;
      h, l := negated / WORD, negated % WORD;
      buf[0] := MINUS;
      start := 1;
    }
    TwentyDigits(h * WORD + l, c);
    ptr := WriteBackwards(buf, start, c, h, l);
    ReverseInPlace(buf, start, ptr);
    assert buf[..ptr] == buf[..start] + buf[start..ptr];
  }

  // ---- the parser

  /** The characters of a string, which ends with a zero. */
  function At(s: seq<Byte>, i: nat): Byte {
    if i < |s| then s[i] else 0
  }

  lemma TimesBase(a: nat, base: nat)
    requires base >= 1
    ensures a <= a * base
  {
  }

  lemma {:induction false} ValueGrows(t: seq<Byte>, base: nat, k: nat)
    requires base >= 1 && k <= |t| && AllDigits(t, base)
    ensures AllDigits(t[..k], base) && Value(t[..k], base) <= Value(t, base)
    decreases |t|
  {
    hide DigitOf, Value;
    if k < |t| {
      var u := t[..|t| - 1];
      assert AllDigits(u, base);
      ValueGrows(u, base, k);
      assert u[..k] == t[..k] && u + [t[|t| - 1]] == t;
      ValueMore(u, t[|t| - 1], base);
      TimesBase(Value(u, base), base);
    } else {
      assert t[..k] == t;
    }
  }

  /** One more digit. */
  lemma ValueStep(t: seq<Byte>, base: nat, k: nat)
    requires base >= 1 && k < |t| && AllDigits(t, base)
    ensures Value(t[..k + 1], base) == Value(t[..k], base) * base + DigitOf(t[k], base).value <= Value(t, base)
  {
    hide DigitOf;
    assert t[..k + 1][..k] == t[..k];
    ValueGrows(t, base, k + 1);
  }

  /** Where the digits from `ptr0` on have been read up to `ptr`. */
  ghost predicate ReadTo(s: seq<Byte>, ptr0: nat, ptr: nat, base: nat, v: nat) {
    && ptr0 <= ptr <= ptr0 + |LeadingAt(s, ptr0, base)|
    && v == Value(LeadingAt(s, ptr0, base)[..ptr - ptr0], base)
  }

  function LeadingAt(s: seq<Byte>, ptr0: nat, base: nat): (r: seq<Byte>)
    ensures AllDigits(r, base)
    ensures r != [] ==> ptr0 + |r| <= |s|
  {
    if ptr0 <= |s| then Leading(s[ptr0..], base) else []
  }

  lemma ReadStep(s: seq<Byte>, ptr0: nat, ptr: nat, base: nat, v: nat)
    requires (base == 10 || base == 16) && ReadTo(s, ptr0, ptr, base, v)
    ensures DigitOf(At(s, ptr), base).None? ==>
          ptr == ptr0 + |LeadingAt(s, ptr0, base)| && v == Value(LeadingAt(s, ptr0, base), base)
    ensures DigitOf(At(s, ptr), base).Some? ==>
              var w := v * base + DigitOf(At(s, ptr), base).value;
              ReadTo(s, ptr0, ptr + 1, base, w) && w <= Value(LeadingAt(s, ptr0, base), base) && ptr < |s|
  {
    hide Leading, Value;
    var run := LeadingAt(s, ptr0, base);
    var k := ptr - ptr0;
    NoDigit(base);
    if k < |run| {
      assert At(s, ptr) == run[k];
      ValueStep(run, base, k);
    } else {
      assert run[..k] == run;
    }
  }

  lemma NoDigit(base: nat)
    ensures DigitOf(0, base).None?
  {
  }

  /** Hexadecimal digits, until one would be shifted out. */
  method ReadHex(s: seq<Byte>, ptr0: nat) returns (ok: bool, myint: nat, ptr: nat)
    ensures ok <==> Value(LeadingAt(s, ptr0, 16), 16) < W64
    ensures ok ==> ptr == ptr0 + |LeadingAt(s, ptr0, 16)| && myint == Value(LeadingAt(s, ptr0, 16), 16)
  {
    hide HexDigit, LeadingAt, Value, ReadTo;
    myint, ptr := 0, ptr0;
    StartRead(s, ptr0, 16);
    while true
      invariant myint < W64 && ReadTo(s, ptr0, ptr, 16, myint)
      decreases |s| - ptr
    {
      ReadStep(s, ptr0, ptr, 16, myint);
      var digit := HexDigit(At(s, ptr));
      if digit.None? {
        return true, myint, ptr;
      }
      if myint / 0x1000_0000_0000_0000 > 0 {
        return false, myint, ptr;
      }
      myint := myint * 16 % W64 + digit.value;
      ptr := ptr + 1;
    }
  }

  /** Decimal digits, until the number needs bit 63 and is not the least signed one. */
  method ReadDecimal(s: seq<Byte>, ptr0: nat, negative: Byte) returns (ok: bool, myint: nat, ptr: nat)
    ensures ok <==> Value(LeadingAt(s, ptr0, 10), 10) <= Limit(10, negative)
    ensures ok ==> ptr == ptr0 + |LeadingAt(s, ptr0, 10)| && myint == Value(LeadingAt(s, ptr0, 10), 10)
  {
    hide DecDigit, LeadingAt, Value, ReadTo, Limit;
    myint, ptr := 0, ptr0;
    DecimalCheck(0, 0, negative);
    StartRead(s, ptr0, 10);
    while true
      invariant myint <= Limit(10, negative) && ReadTo(s, ptr0, ptr, 10, myint)
      decreases |s| - ptr
    {
      ReadStep(s, ptr0, ptr, 10, myint);
      var digit := DecDigit(At(s, ptr));
      if digit.None? {
        return true, myint, ptr;
      }
      DigitSmall(At(s, ptr));
      DecimalCheck(myint, digit.value, negative);
      if myint > (HALF - 1) / 10 {
        return false, myint, ptr;
      }
      myint := (myint * 10 + digit.value) % W64;
      if myint >= HALF && ((myint + myint) % W64 != 0 || negative == 0) {
        return false, myint, ptr;
      }
      ptr := ptr + 1;
    }
  }

  /** The two tests in the loop refuse a digit just when the number would pass its limit. */
  lemma DecimalCheck(myint: nat, digit: nat, negative: Byte)
    requires myint <= Limit(10, negative) && digit < 10
    ensures Limit(10, negative) < W64
    ensures myint > (HALF - 1) / 10 ==> myint * 10 + digit > Limit(10, negative)
    ensures myint <= (HALF - 1) / 10 ==>
              var next := (myint * 10 + digit) % W64;
              && next == myint * 10 + digit
              && (next >= HALF && ((next + next) % W64 != 0 || negative == 0) <==> next > Limit(10, negative))
  {
  }

  lemma DigitSmall(b: Byte)
    ensures DecDigit(b).Some? ==> DecDigit(b).value < 10
    ensures HexDigit(b).Some? ==> HexDigit(b).value < 16
  {
  }

  lemma StartRead(s: seq<Byte>, ptr0: nat, base: nat)
    ensures ReadTo(s, ptr0, ptr0, base, 0)
  {
  }

  /** Shifting left and back loses nothing just when the product fits a word. */
  lemma ShiftLeft(v: nat, p: nat)
    requires v < W64 && p >= 1
    ensures v * p % W64 / p == v <==> v * p < W64
    ensures v * p < W64 ==> v * p % W64 == v * p
  {
    var m: nat := v * p;
    Low(m);
    Arith.DivUnique(m, p, v, 0);
    Quotient(m % W64, p);
  }

  lemma Low(m: nat)
    ensures m % W64 < W64
    ensures m < W64 ==> m % W64 == m
  {
  }

  lemma Quotient(x: nat, p: nat)
    requires p >= 1
    ensures x / p >= 0 && x == p * (x / p) + x % p
  {
    Arith.DivNat(x, p);
  }

  /** Shifting right and back loses nothing just when no bit is shifted out. */
  lemma ShiftRight(v: nat, p: nat)
    requires v < W64 && p >= 1
    ensures v / p * p % W64 == v <==> v % p == 0
    ensures 0 <= v / p <= v
  {
    Quotient(v, p);
    var q: nat := v / p;
    var m: nat := q * p;
    Low(m);
    if q > 0 {
      Arith.MulSign(q, p);
    }
  }

  /** Shifts one way and back. */
  method ShiftThere(myint: nat, myshift: int) returns (myint2: nat, myint3: nat)
    requires myint < W64
    ensures myint2 < W64
    ensures myshift >= 0 ==>
          (myint3 == myint <==> myint * Pow2(myshift) < W64) && (myint3 == myint ==> myint2 == myint * Pow2(myshift))
    ensures myshift < 0 ==> (myint3 == myint <==> myint % Pow2(-myshift) == 0) && myint2 == myint / Pow2(-myshift)
  {
    hide Pow2;
    if myshift >= 0 {
      var p := Pow2(myshift);
      ShiftLeft(myint, p);
      Low(myint * p);
      Quotient(myint * p % W64, p);
      myint2 := myint * p % W64;
      myint3 := myint2 / p;
    } else {
      var p := Pow2(-myshift);
      ShiftRight(myint, p);
      myint2 := myint / p;
      Low(myint2 * p);
      myint3 := myint2 * p % W64;
    }
  }

  /** The suffix is applied in shifts; lost bits and, in decimal, a changed bit 63 are refused. */
  method Scale(s: seq<Byte>, ptr: nat, myint: nat, found: nat, negative: Byte, unitshift: nat) returns (r: Parsed)
    requires ptr <= |s| && myint < W64 && unitshift < 64
    ensures r == Suffixed(myint, s[ptr..], found, negative, unitshift)
  {
    hide Signed, Pow2, Suffixed;
    var myshift := 0;
    var next := ptr;
    var c := Lower(At(s, ptr));
    if c == LOWER_K {
      myshift, next := 10 - unitshift, ptr + 1;
    } else if c == LOWER_M {
      myshift, next := 20 - unitshift, ptr + 1;
    } else if c == LOWER_G {
      myshift, next := 30 - unitshift, ptr + 1;
    } else if c == LOWER_T {
      myshift, next := 40 - unitshift, ptr + 1;
    }
    var myint2, myint3 := ShiftThere(myint, myshift);
    SuffixMeans(s, ptr, myint, found, negative, unitshift, myshift, next, myint2, myint3);
    if myint3 != myint || ((myint2 >= HALF) != (myint >= HALF) && found == 10) {
      return Overflow;
    }
    r := Number(Signed(myint2, negative), s[next..]);
  }

  lemma OnePower()
    ensures Pow2(0) == 1
  {
  }

  lemma TimesOne(v: nat)
    ensures v % 1 == 0 && v / 1 == v && v * 1 == v
  {
  }

  lemma SuffixMeans(s: seq<Byte>, ptr: nat, v: nat, base: nat, sign: Byte, unitshift: nat, shift: int, next: nat,
                    v2: nat, v3: nat)
    requires ptr <= |s| && v < W64 && v2 < W64
    requires Suffix(s[ptr..]).None? ==> shift == 0 && next == ptr
    requires Suffix(s[ptr..]).Some? ==> shift == Suffix(s[ptr..]).value - unitshift && next == ptr + 1
    requires shift >= 0 ==> (v3 == v <==> v * Pow2(shift) < W64) && (v3 == v ==> v2 == v * Pow2(shift))
    requires shift < 0 ==> (v3 == v <==> v % Pow2(-shift) == 0) && v2 == v / Pow2(-shift)
    ensures next <= |s|
    ensures Suffixed(v, s[ptr..], base, sign, unitshift)
         == if v3 != v || ((v2 >= HALF) != (v >= HALF) && base == 10) then Overflow
           else Number(Signed(v2, sign), s[next..])
  {
    hide Signed, Pow2, Suffix;
    OnePower();
    TimesOne(v);
    TimesOne(v2);
    SuffixThere(s[ptr..]);
    if next > ptr {
      assert s[ptr..][1..] == s[next..];
    }
  }

  lemma SuffixThere(rest: seq<Byte>)
    ensures Suffix(rest).Some? ==> rest != []
  {
  }

  /** The parser; the sign, the base, the digits, the suffix. */
  method SafeParseMaxintWithSuffix(s: seq<Byte>, unitshift: nat) returns (r: Parsed)
    requires unitshift < 64
    ensures r == Parse(s, unitshift)
  {
    hide Leading, Value, HexDigit, DecDigit, Suffixed;
    var ptr, negative: Byte := 0, 0;
    if IsSign(At(s, 0)) {
      negative, ptr := s[0], 1;
    }
    ghost var t := s[ptr..];
    var found, ok, myint, end;
    if At(s, ptr) == ZERO && Lower(At(s, ptr + 1)) == LOWER_X {
      assert t[2..] == s[ptr + 2..];
      ptr, found := ptr + 2, 16;
      ok, myint, end := ReadHex(s, ptr);
    } else {
      found := 10;
      ok, myint, end := ReadDecimal(s, ptr, negative);
    }
    assert Parse(s, unitshift) == Unsigned(s[ptr..], found, negative, unitshift);
    assert LeadingAt(s, ptr, found) == Leading(s[ptr..], found);
    if !ok {
      NoDigits(found);
      return Overflow;
    }
    if end == ptr {
      return NotANumber;
    }
    assert s[ptr..][end - ptr..] == s[end..];
    r := Scale(s, end, myint, found, negative, unitshift);
  }
}
