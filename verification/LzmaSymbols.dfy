/**
 The bits of every LZMA symbol, written down without the grammar, and the proof that the walk of the
 grammar over them ends in just that symbol.
 */
module LzmaSymbols {
  import opened Words
  import opened Arith
  import opened Bits
  import opened LzmaGrammar

  /** Where the walk from `ph` stands after some answers; none if it ends before all are given. */
  function Follow(c: Context, ph: Phase, bits: BitString): Option<Phase>
    decreases |bits|
  {
    if bits == [] then Some(ph)
    else if ph.Decoded? then None
    else Follow(c, Advance(c, ph, bits[0]), bits[1..])
  }

  lemma {:induction false} FollowOn(c: Context, ph: Phase, a: BitString, b: BitString)
    requires Follow(c, ph, a).Some?
    ensures Follow(c, ph, a + b) == Follow(c, Follow(c, ph, a).value, b)
    decreases |a|
  {
    hide Advance;
    if a == [] {
      assert a + b == b;
    } else {
      assert (a + b)[0] == a[0] && (a + b)[1..] == a[1..] + b;
      FollowOn(c, Advance(c, ph, a[0]), a[1..], b);
    }
  }

  lemma FollowStep(c: Context, ph: Phase, bit: Bit, rest: BitString)
    requires !ph.Decoded?
    ensures Follow(c, ph, [bit] + rest) == Follow(c, Advance(c, ph, bit), rest)
  {
    hide Advance;
    assert ([bit] + rest)[1..] == rest;
  }

  // ---- numbers below a tree node

  /** One bit more of a number read from its highest bit on. */
  lemma FirstBit(i: nat, bits: BitString)
    requires bits != []
    ensures i * Pow2(|bits|) + BE(bits) == (2 * i + bits[0]) * Pow2(|bits| - 1) + BE(bits[1..])
  {
    hide Pow2, BE;
    assert bits == [bits[0]] + bits[1..];
    BEAppend([bits[0]], bits[1..]);
    OneBit(bits[0]);
    Twice(|bits| - 1);
    TwiceSum(i, bits[0], Pow2(|bits| - 1));
  }

  lemma OneBit(b: Bit)
    ensures BE([b]) == b
  {
    assert [b][..0] == [];
  }

  lemma Twice(n: nat)
    ensures Pow2(n + 1) == 2 * Pow2(n)
  {
  }

  lemma TwiceSum(i: nat, b: nat, p: nat)
    ensures i * (2 * p) + b * p == (2 * i + b) * p
  {
  }

  /** A node of a tree of depth `n`, with `r` bits still to come. */
  ghost predicate Node(i: nat, r: nat, n: nat) {
    r <= n && Pow2(n - r) <= i < Pow2(n - r + 1)
  }

  lemma NodeStep(i: nat, bit: Bit, r: nat, n: nat)
    requires r > 0 && Node(i, r, n)
    ensures Node(2 * i + bit, r - 1, n) && i < Pow2(n) && (2 * i + bit < Pow2(n) <==> r > 1)
  {
    hide Pow2;
    var k := n - r;
    Twice(k);
    Twice(k + 1);
    Pow2Mono(k + 1, n);
    if r > 1 {
      Pow2Mono(k + 2, n);
    }
  }

  lemma Root(n: nat)
    ensures Node(1, n, n)
  {
  }

  lemma {:induction false} PlainWalk(c: Context, i: nat, bits: BitString)
    requires Node(i, |bits|, 8) && i * Pow2(|bits|) + BE(bits) < 512 && bits != []
    ensures Follow(c, PlainLiteral(i), bits) == Some(Decoded(Literal((i * Pow2(|bits|) + BE(bits)) % 256)))
    decreases |bits|
  {
    hide Pow2, BE, Node;
    FirstBit(i, bits);
    NodeStep(i, bits[0], |bits|, 8);
    EightBits();
    if |bits| > 1 {
      PlainWalk(c, 2 * i + bits[0], bits[1..]);
    } else {
      NoBits(bits[1..]);
    }
  }

  lemma EightBits()
    ensures Pow2(8) == 256 && Pow2(3) == 8 && Pow2(6) == 64 && Pow2(4) == 16 && Pow2(0) == 1 && Pow2(5) == 32
    ensures Pow2(1) == 2 && Pow2(2) == 4
  {
  }

  lemma NoBits(s: BitString)
    requires s == []
    ensures BE(s) == 0 && LE(s) == 0
  {
  }

  lemma {:induction false} MatchedWalk(c: Context, offs: nat, m: nat, i: nat, bits: BitString)
    requires Node(i, |bits|, 8) && i * Pow2(|bits|) + BE(bits) < 512 && bits != []
    ensures Follow(c, MatchedLiteral(offs, m, i), bits) == Some(Decoded(Literal((i * Pow2(|bits|) + BE(bits)) % 256)))
    decreases |bits|
  {
    hide Pow2, BE, Node, MatchBit;
    FirstBit(i, bits);
    NodeStep(i, bits[0], |bits|, 8);
    EightBits();
    if |bits| > 1 {
      var mb := MatchBit(offs, m);
      MatchedWalk(c, if bits[0] == 1 then mb else Max(offs - mb, 0), 2 * m, 2 * i + bits[0], bits[1..]);
    } else {
      NoBits(bits[1..]);
    }
  }

  /** The number that the first `n` of a byte's eight digits make. */
  function First(m: Byte, n: nat): nat
    requires n <= 8
  {
    DivNat(m, Pow2(8 - n));
    m / Pow2(8 - n)
  }

  /** The next digit of the byte, as the comparison reads it off the shifted byte. */
  lemma DigitAt(m: Byte, k: nat)
    requires k < 8
    ensures (2 * (m * Pow2(k)) / 256) % 2 == First(m, k + 1) % 2
    ensures First(m, k) == First(m, k + 1) / 2
  {
    hide Pow2;
    EightBits();
    Twice(7);
    Twice(7 - k);
    Pow2Add(7 - k, k);
    ShiftedDown(m, Pow2(k), Pow2(7 - k));
    HalvedTwice(m, Pow2(7 - k));
  }

  lemma ShiftedDown(m: nat, p: nat, q: nat)
    requires q * p == 128 && p > 0 && q > 0
    ensures 2 * (m * p) / 256 == m / q
  {
    DivNat(m, q);
    var d, r := m / q, m % q;
    assert m == q * d + r;
    assert m * p == (q * d) * p + r * p;
    assert (q * d) * p == (q * p) * d;
    MulSign(p, q - r);
    assert (q - r) * p == q * p - r * p;
    assert 0 <= r * p < 128;
    DivUnique(2 * (m * p), 256, d, 2 * (r * p));
  }

  lemma HalvedTwice(m: nat, q: nat)
    requires q > 0
    ensures m / (2 * q) == m / q / 2
  {
    DivNat(m, q);
    var d, r := m / q, m % q;
    var h: nat := d / 2;
    if d == 2 * h {
      assert q * (2 * h) == (2 * q) * h;
      DivUnique(m, 2 * q, h, r);
    } else {
      assert d == 2 * h + 1 && q * (2 * h + 1) == (2 * q) * h + q;
      DivUnique(m, 2 * q, h, q + r);
    }
  }

  /** While a literal is compared with a byte, the comparison lasts as long as the bits agree. */
  function Compared(m: Byte, bits: BitString): Phase
    requires |bits| <= 8
  {
    MatchedLiteral(if BE(bits) == First(m, |bits|) then 256 else 0, m * Pow2(|bits|), Pow2(|bits|) + BE(bits))
  }

  lemma {:induction false} ComparedWalk(c: Context, m: Byte, bits: BitString)
    requires |bits| < 8
    ensures Follow(c, MatchedLiteral(256, m, 1), bits) == Some(Compared(m, bits))
    decreases |bits|
  {
    hide Compared, Follow;
    if bits == [] {
      ComparedFirst(m, bits);
      FollowNone(c, MatchedLiteral(256, m, 1));
    } else {
      var a, b := bits[..|bits| - 1], bits[|bits| - 1];
      assert bits == a + [b];
      ComparedWalk(c, m, a);
      FollowOn(c, MatchedLiteral(256, m, 1), a, [b]);
      ComparedNext(c, m, a, b);
    }
  }

  lemma ComparedFirst(m: Byte, bits: BitString)
    requires bits == []
    ensures Compared(m, bits) == MatchedLiteral(256, m, 1)
  {
    hide Pow2, BE;
    EightBits();
    NoBits(bits);
  }

  lemma ComparedNext(c: Context, m: Byte, a: BitString, b: Bit)
    requires |a| < 7
    ensures Follow(c, Compared(m, a), [b]) == Some(Compared(m, a + [b]))
  {
    hide Pow2, BE, Advance, Follow, MatchBit, First;
    var k, bits := |a|, a + [b];
    var p, v := Pow2(k), BE(a);
    assert bits[..|bits| - 1] == a;
    BESnoc(bits);
    BEBelow(bits);
    SmallNode(k, BE(bits));
    DigitAt(m, k);
    DigitsAgree(v, b, First(m, k + 1));
    DoubledOnce(m, p);
    ComparedStep(c, if v == First(m, k) then 256 else 0, m * p, p + v, b, First(m, k + 1) % 2);
    FollowStep(c, Compared(m, a), b, []);
    assert [b] + [] == [b];
    FollowNone(c, Advance(c, Compared(m, a), b));
  }

  lemma DigitsAgree(v: nat, b: Bit, x: nat)
    ensures 2 * v + b == x <==> v == x / 2 && b == x % 2
  {
  }

  lemma DoubledOnce(m: nat, p: nat)
    ensures 2 * (m * p) == m * (2 * p)
  {
  }

  lemma SmallNode(k: nat, v: nat)
    requires k < 7 && v < Pow2(k + 1)
    ensures Pow2(k + 1) + v < 256
  {
    Pow2Mono(k + 2, 8);
    EightBits();
    Twice(k + 1);
  }

  lemma ComparedStep(c: Context, offs: nat, m: nat, symbol: nat, bit: Bit, top: Bit)
    requires (offs == 0 || offs == 256) && (2 * m / 256) % 2 == top && 2 * symbol + bit < 256
    ensures Advance(c, MatchedLiteral(offs, m, symbol), bit)
         == MatchedLiteral(if offs == 256 && bit == top then 256 else 0, 2 * m, 2 * symbol + bit)
  {
  }

  lemma {:induction false} LengthWalk(c: Context, coder: Coder, base: nat, offset: nat, n: nat, i: nat, bits: BitString)
    requires Node(i, |bits|, n) && bits != [] && i * Pow2(|bits|) + BE(bits) >= Pow2(n)
    ensures Follow(c, LenTree(coder, base, offset, Pow2(n), i), bits)
         == Some(LengthDone(coder, i * Pow2(|bits|) + BE(bits) - Pow2(n) + offset))
    decreases |bits|
  {
    hide Pow2, BE, Node, LengthDone;
    FirstBit(i, bits);
    NodeStep(i, bits[0], |bits|, n);
    EightBits();
    if |bits| > 1 {
      LengthWalk(c, coder, base, offset, n, 2 * i + bits[0], bits[1..]);
    } else {
      NoBits(bits[1..]);
    }
  }

  lemma {:induction false} SlotWalk(c: Context, len: nat, i: nat, bits: BitString)
    requires Node(i, |bits|, 6) && bits != [] && i * Pow2(|bits|) + BE(bits) >= 64
    ensures Follow(c, SlotTree(len, i), bits) == Some(SlotDone(len, i * Pow2(|bits|) + BE(bits) - 64))
    decreases |bits|
  {
    hide Pow2, BE, Node, SlotDone;
    FirstBit(i, bits);
    NodeStep(i, bits[0], |bits|, 6);
    EightBits();
    if |bits| > 1 {
      SlotWalk(c, len, 2 * i + bits[0], bits[1..]);
    } else {
      NoBits(bits[1..]);
    }
  }

  // ---- numbers from their lowest bit on

  lemma LowBit(mask: nat, bits: BitString)
    requires bits != []
    ensures mask * LE(bits) == bits[0] * mask + (2 * mask) * LE(bits[1..])
  {
    hide Pow2, LE;
    LECons(bits);
    LowSum(mask, bits[0], LE(bits[1..]));
  }

  lemma LowSum(mask: nat, b: nat, y: nat)
    ensures mask * (b + 2 * y) == b * mask + (2 * mask) * y
  {
  }

  lemma {:induction false} SpecWalk(c: Context, len: nat, posSlot: nat, distance: nat, mask: nat, i: nat,
                                    bits: BitString)
    requires bits != [] && mask * Pow2(|bits|) == SpecWidth(posSlot) && mask >= 1
    ensures Follow(c, SpecTree(len, posSlot, distance, mask, i), bits)
         == Some(Decoded(Match(len, distance + mask * LE(bits))))
    decreases |bits|
  {
    hide Pow2, LE, SpecWidth;
    LowBit(mask, bits);
    EightBits();
    MaskStep(mask, |bits|);
    if |bits| > 1 {
      SpecWalk(c, len, posSlot, distance + bits[0] * mask, 2 * mask, 2 * i + bits[0], bits[1..]);
    } else {
      NoBits(bits[1..]);
      Nought(2 * mask);
    }
  }

  lemma MaskStep(mask: nat, r: nat)
    requires r >= 1 && mask >= 1
    ensures mask * Pow2(r) == (2 * mask) * Pow2(r - 1)
    ensures r > 1 ==> 2 * mask < mask * Pow2(r)
    ensures r == 1 ==> 2 * mask == mask * Pow2(r)
  {
    var p := Pow2(r - 1);
    assert Pow2(r) == 2 * p;
    assert mask * (2 * p) == (2 * mask) * p;
    if r > 1 {
      assert p == 2 * Pow2(r - 2) && p >= 2;
      Larger(2 * mask, p);
    }
  }

  lemma Larger(a: nat, p: nat)
    requires a >= 1 && p >= 2
    ensures a < a * p
  {
  }

  lemma Nought(a: nat)
    ensures a * 0 == 0
  {
  }

  lemma {:induction false} AlignWalk(c: Context, len: nat, distance: nat, mask: nat, i: nat, bits: BitString)
    requires bits != [] && mask * Pow2(|bits|) == 16 && mask >= 1
    ensures Follow(c, AlignTree(len, distance, mask, i), bits) == Some(AlignDone(len, distance + mask * LE(bits)))
    decreases |bits|
  {
    hide Pow2, LE, AlignDone;
    LowBit(mask, bits);
    EightBits();
    MaskStep(mask, |bits|);
    if |bits| > 1 {
      AlignWalk(c, len, distance + bits[0] * mask, 2 * mask, 2 * i + bits[0], bits[1..]);
    } else {
      NoBits(bits[1..]);
      Nought(2 * mask);
    }
  }

  lemma {:induction false} DirectWalk(c: Context, len: nat, distance: nat, bits: BitString)
    requires bits != []
    ensures Follow(c, DirectBits(len, distance, |bits|), bits)
         == Some(AlignTree(len, (distance * Pow2(|bits|) + BE(bits)) * 16, 1, 1))
    decreases |bits|
  {
    hide Pow2, BE;
    FirstBit(distance, bits);
    EightBits();
    if |bits| > 1 {
      DirectWalk(c, len, 2 * distance + bits[0], bits[1..]);
    } else {
      NoBits(bits[1..]);
    }
  }

  // ---- lengths

  /** Eight short lengths, eight middle ones, and 256 long ones, each from its highest bit on. */
  function LengthBits(len: nat): BitString {
    if len < 8 then [0] + BEBits(len, 3)
    else if len < 16 then [1, 0] + BEBits(len - 8, 3)
    else [1, 1] + BEBits(len - 16, 8)
  }

  lemma TreeFrom(v: nat, n: nat)
    requires v < Pow2(n)
    ensures BE(BEBits(v, n)) == v && 1 * Pow2(n) + v == Pow2(n) + v
  {
    BEOfBits(v, n);
  }

  lemma LengthFollowed(c: Context, coder: Coder, len: nat)
    requires len < 272
    ensures Follow(c, LenChoice(coder), LengthBits(len)) == Some(LengthDone(coder, len))
  {
    hide Pow2, BE, BEBits, LengthDone, Node, Follow;
    EightBits();
    Root(3);
    Root(8);
    if len < 8 {
      TreeFrom(len, 3);
      FollowStep(c, LenChoice(coder), 0, BEBits(len, 3));
      LengthWalk(c, coder, coder.Start() + (LEN_LOW + 8 * c.posState), 0, 3, 1, BEBits(len, 3));
    } else {
      var v, n := if len < 16 then len - 8 else len - 16, if len < 16 then 3 else 8;
      var b: Bit := if len < 16 then 0 else 1;
      TreeFrom(v, n);
      assert LengthBits(len) == [1] + ([b] + BEBits(v, n));
      FollowStep(c, LenChoice(coder), 1, [b] + BEBits(v, n));
      FollowStep(c, LenChoice2(coder), b, BEBits(v, n));
      if len < 16 {
        LengthWalk(c, coder, coder.Start() + (LEN_MID + 8 * c.posState), 8, 3, 1, BEBits(v, 3));
      } else {
        LengthWalk(c, coder, coder.Start() + LEN_HIGH, 16, 8, 1, BEBits(v, 8));
      }
    }
  }

  // ---- distances

  /** A distance below 4 is its own slot; two slots for every further binary digit, told apart by the
      second digit. */
  function SlotFor(d: nat): nat {
    if d < 4 then d else SlotFor(d / 2) + 2
  }

  /** How many digits of the distance the slot leaves open. */
  function Open(slot: nat): nat {
    if slot < 4 then 0 else slot / 2 - 1
  }

  /** The smallest distance of a slot. */
  function SlotStart(slot: nat): nat {
    if slot < 4 then slot else (2 + slot % 2) * Pow2(Open(slot))
  }

  lemma OpenStep(slot: nat)
    requires slot >= 2
    ensures Open(slot + 2) == Open(slot) + 1 && SlotStart(slot + 2) == 2 * SlotStart(slot)
    ensures Pow2(Open(slot + 2)) == 2 * Pow2(Open(slot))
  {
    var p := Pow2(Open(slot));
    assert Pow2(Open(slot) + 1) == 2 * p;
    if slot < 4 {
      assert p == 1;
    } else {
      assert (2 + slot % 2) * (2 * p) == 2 * ((2 + slot % 2) * p);
    }
  }

  /** Every distance lies in the range of its slot. */
  lemma {:induction false} SlotRange(d: nat)
    ensures SlotStart(SlotFor(d)) <= d < SlotStart(SlotFor(d)) + Pow2(Open(SlotFor(d)))
    ensures d >= 2 ==> SlotFor(d) >= 2
    decreases d
  {
    hide SlotStart, Open, Pow2;
    if d >= 4 {
      SlotRange(d / 2);
      OpenStep(SlotFor(d / 2));
    } else {
      SmallSlot(d);
    }
  }

  lemma SmallSlot(d: nat)
    requires d < 4
    ensures SlotStart(d) == d && Pow2(Open(d)) == 1
  {
  }

  lemma {:induction false} SlotBelow(d: nat, n: nat)
    requires n >= 2 && d < Pow2(n)
    ensures SlotFor(d) < 2 * n
    decreases n
  {
    if n > 2 && d >= 4 {
      SlotBelow(d / 2, n - 1);
    } else {
      EightBits();
    }
  }

  /** The digits left open: few of them from the lowest on; of many, those but the last four from the
      highest on, and then the last four from the lowest on. */
  function Footer(slot: nat, x: nat): (s: BitString)
    ensures |s| == Open(slot)
  {
    if slot < 4 then []
    else if slot < 14 then LEBits(x, Open(slot))
    else BEBits(x / 16, Open(slot) - 4) + LEBits(x % 16, 4)
  }

  function DistanceBits(d: nat): BitString {
    SlotRange(d);
    BEBits(SlotFor(d), 6) + Footer(SlotFor(d), d - SlotStart(SlotFor(d)))
  }

  lemma SpecWidths(slot: nat)
    requires 4 <= slot < 14
    ensures SpecWidth(slot) == Pow2(Open(slot)) && Open(slot) >= 1
  {
    EightBits();
  }

  lemma FooterFollowed(c: Context, len: nat, slot: nat, x: nat)
    requires slot < 64 && x < Pow2(Open(slot))
    ensures Follow(c, SlotDone(len, slot), Footer(slot, x)) == Some(AlignDone(len, SlotStart(slot) + x))
  {
    hide Pow2, BE, LE, BEBits, LEBits, SpecWidth, Follow;
    EightBits();
    if slot < 4 {
      FollowNone(c, Decoded(Match(len, slot)));
    } else if slot < 14 {
      SpecWidths(slot);
      LEOfBits(x, Open(slot));
      SpecWalk(c, len, slot, (2 + slot % 2) * SpecWidth(slot), 1, 1, LEBits(x, Open(slot)));
      SpecBelow(slot, x);
    } else {
      LongFooter(c, len, slot, x);
    }
  }

  lemma SpecBelow(slot: nat, x: nat)
    requires 4 <= slot < 14 && x < Pow2(Open(slot))
    ensures SlotStart(slot) + x < 1000
  {
    SpecWidths(slot);
  }

  lemma FollowNone(c: Context, ph: Phase)
    ensures Follow(c, ph, []) == Some(ph)
  {
  }

  lemma LongFooter(c: Context, len: nat, slot: nat, x: nat)
    requires 14 <= slot < 64 && x < Pow2(Open(slot))
    ensures Follow(c, SlotDone(len, slot), Footer(slot, x)) == Some(AlignDone(len, SlotStart(slot) + x))
  {
    hide Pow2, BE, LE, BEBits, LEBits, Follow, AlignDone;
    var n := Open(slot) - 4;
    var hi, lo := BEBits(x / 16, n), LEBits(x % 16, 4);
    EightBits();
    Pow2Add(n, 4);
    BEOfBits(x / 16, n);
    LEOfBits(x % 16, 4);
    var top := 2 + slot % 2;
    DirectWalk(c, len, top, hi);
    FollowOn(c, SlotDone(len, slot), hi, lo);
    AlignWalk(c, len, (top * Pow2(n) + x / 16) * 16, 1, 1, lo);
    TopDigits(top, Pow2(n), x);
  }

  lemma TopDigits(top: nat, p: nat, x: nat)
    ensures (top * p + x / 16) * 16 + 1 * (x % 16) == top * (p * 16) + x
  {
    assert (top * p + x / 16) * 16 == top * (p * 16) + x / 16 * 16;
  }

  lemma DistanceFollowed(c: Context, len: nat, d: nat)
    requires d < WORD
    ensures Follow(c, SlotTree(len, 1), DistanceBits(d)) == Some(AlignDone(len, d))
  {
    hide Pow2, BE, BEBits, Follow, AlignDone, Footer, SlotFor, SlotStart, Open, Node, SlotDone;
    var slot := SlotFor(d);
    SlotRange(d);
    WordIs();
    SlotBelow(d, 32);
    EightBits();
    Root(6);
    TreeFrom(slot, 6);
    SlotWalk(c, len, 1, BEBits(slot, 6));
    FollowOn(c, SlotTree(len, 1), BEBits(slot, 6), Footer(slot, d - SlotStart(slot)));
    FooterFollowed(c, len, slot, d - SlotStart(slot));
  }

  lemma WordIs()
    ensures Pow2(32) == WORD
  {
    EightBits();
    Pow2Add(8, 8);
    Pow2Add(16, 16);
  }

  // ---- symbols

  /** The bits of a symbol: a literal; a match with its length and distance, the largest distance being the
      end marker; or the number of one of the last four distances, the first of which may also be repeated
      for a single byte. */
  function SymbolBits(symbol: Symbol): BitString {
    match symbol
    case Literal(b) => [0] + BEBits(b, 8)
    case Match(len, d) => [1, 0] + LengthBits(len) + DistanceBits(d)
    case Marker(len) => [1, 0] + LengthBits(len) + DistanceBits(0xFFFF_FFFF)
    case ShortRep => [1, 1, 0, 0]
    case LongRep(which, len) =>
      (if which == 0 then [1, 1, 0, 1] else if which == 1 then [1, 1, 1, 0]
       else if which == 2 then [1, 1, 1, 1, 0] else [1, 1, 1, 1, 1]) + LengthBits(len)
  }

  lemma LiteralFollowed(c: Context, b: Byte)
    ensures Follow(c, AskMatch, SymbolBits(Literal(b))) == Some(Decoded(Literal(b)))
  {
    hide Pow2, BE, BEBits, Follow, Node;
    EightBits();
    Root(8);
    TreeFrom(b, 8);
    FollowStep(c, AskMatch, 0, BEBits(b, 8));
    if c.state < 7 {
      PlainWalk(c, 1, BEBits(b, 8));
    } else {
      MatchedWalk(c, 256, c.matchByte, 1, BEBits(b, 8));
    }
  }

  lemma NewFollowed(c: Context, len: nat, d: nat)
    requires len < 272 && d < WORD
    ensures Follow(c, AskMatch, [1, 0] + LengthBits(len) + DistanceBits(d)) == Some(AlignDone(len, d))
  {
    hide Follow, LengthBits, DistanceBits, AlignDone;
    var l, e := LengthBits(len), DistanceBits(d);
    assert [1, 0] + l + e == [1] + ([0] + (l + e));
    FollowStep(c, AskMatch, 1, [0] + (l + e));
    FollowStep(c, AskRep, 0, l + e);
    LengthFollowed(c, NewMatch, len);
    FollowOn(c, LenChoice(NewMatch), l, e);
    DistanceFollowed(c, len, d);
  }

  lemma RepFollowed(c: Context, which: nat, len: nat)
    requires which < 4 && len < 272
    ensures Follow(c, AskMatch, SymbolBits(LongRep(which, len))) == Some(Decoded(LongRep(which, len)))
  {
    hide Follow, LengthBits;
    var l := LengthBits(len);
    if which < 2 {
      var a: Bit, b: Bit := which, 1 - which;
      assert SymbolBits(LongRep(which, len)) == [1] + ([1] + ([a] + ([b] + l)));
      FollowStep(c, AskMatch, 1, [1] + ([a] + ([b] + l)));
      FollowStep(c, AskRep, 1, [a] + ([b] + l));
      FollowStep(c, AskG0, a, [b] + l);
      FollowStep(c, if which == 0 then AskLong else AskG1, b, l);
    } else {
      var b: Bit := which - 2;
      assert SymbolBits(LongRep(which, len)) == [1] + ([1] + ([1] + ([1] + ([b] + l))));
      FollowStep(c, AskMatch, 1, [1] + ([1] + ([1] + ([b] + l))));
      FollowStep(c, AskRep, 1, [1] + ([1] + ([b] + l)));
      FollowStep(c, AskG0, 1, [1] + ([b] + l));
      FollowStep(c, AskG1, 1, [b] + l);
      FollowStep(c, AskG2, b, l);
    }
    LengthFollowed(c, OldMatch(which), len);
  }

  lemma ShortFollowed(c: Context)
    ensures Follow(c, AskMatch, SymbolBits(ShortRep)) == Some(Decoded(ShortRep))
  {
    hide Follow;
    assert [1, 1, 0, 0] == [1] + ([1] + ([0] + ([0] + [])));
    FollowStep(c, AskMatch, 1, [1] + ([0] + ([0] + [])));
    FollowStep(c, AskRep, 1, [0] + ([0] + []));
    FollowStep(c, AskG0, 0, [0] + []);
    FollowStep(c, AskLong, 0, []);
    FollowNone(c, Decoded(ShortRep));
  }

  /** The walk over the bits of a symbol ends in that symbol, and not before. */
  lemma SymbolWalk(c: Context, symbol: Symbol)
    requires ValidSymbol(symbol)
    ensures Follow(c, AskMatch, SymbolBits(symbol)) == Some(Decoded(symbol))
  {
    hide Follow, LengthBits, DistanceBits;
    match symbol
    case Literal(b) => LiteralFollowed(c, b);
    case Match(len, d) => NewFollowed(c, len, d);
    case Marker(len) => NewFollowed(c, len, 0xFFFF_FFFF);
    case ShortRep => ShortFollowed(c);
    case LongRep(which, len) => RepFollowed(c, which, len);
  }

  /** The bits of one symbol never begin those of another. */
  lemma SymbolsDiffer(s: Symbol, t: Symbol)
    requires ValidSymbol(s) && ValidSymbol(t) && SymbolBits(s) <= SymbolBits(t)
    ensures s == t
  {
    hide SymbolBits;
    var c := Context(0, 0, 0, 0);
    SymbolWalk(c, s);
    SymbolWalk(c, t);
    var a, b := SymbolBits(s), SymbolBits(t)[|SymbolBits(s)|..];
    assert SymbolBits(t) == a + b;
    FollowOn(c, AskMatch, a, b);
    if b == [] {
      assert a + b == a;
    }
  }
}
