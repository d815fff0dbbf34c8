/**
 The reference grammar of one LZMA symbol (stage2/dec_lzma.c).

 A symbol is decoded as a walk through phases. In each phase the decoder asks for one bit:
 either a modelled bit, whose probability is kept in one slot of the probability table, or a
 direct bit. `Ask` names the request, `Advance` is the phase reached by the answer, and
 `Decoded` ends the walk. Both the real decoder and its dry-run twin follow this grammar.
 */
module LzmaGrammar {
  import opened Words
  import opened Arith

  // The layout of the probability table.
  const IS_MATCH := 0
  const IS_REP := 192
  const IS_REP_G0 := 204
  const IS_REP_G1 := 216
  const IS_REP_G2 := 228
  const IS_REP0_LONG := 240
  const POS_SLOT := 432
  const SPEC_POS := 688
  const ALIGN := 802
  const LEN_CODER := 818
  const REP_LEN_CODER := 1332
  const LITERAL := 1846

  const LEN_LOW := 2
  const LEN_MID := 130
  const LEN_HIGH := 258
  const NUM_LEN_PROBS := 514

  const LIT_SIZE := 768
  const MATCH_MIN_LEN := 2
  const MATCH_SPEC_LEN_START := 274

  /** What the decoder knows before it decodes a symbol. */
  datatype Context = Context(state: nat, posState: nat, litBase: nat, matchByte: Byte)
  {
    predicate Valid(numProbs: nat) {
      state < 12 && posState < 16 && LITERAL <= litBase && litBase + LIT_SIZE <= numProbs
    }
  }

  datatype Symbol =
    | Literal(byte: Byte)
    | ShortRep
    | LongRep(which: nat, len: nat)
    | Match(len: nat, distance: nat)
    | Marker(len: nat)

  datatype Coder = NewMatch | OldMatch(which: nat)
  {
    function Start(): nat {
      if NewMatch? then LEN_CODER else REP_LEN_CODER
    }
  }

  datatype Phase =
    | AskMatch
    | PlainLiteral(symbol: nat)
    | MatchedLiteral(offs: nat, matchByte: nat, symbol: nat)
    | AskRep
    | AskG0
    | AskLong
    | AskG1
    | AskG2
    | LenChoice(coder: Coder)
    | LenChoice2(coder: Coder)
    | LenTree(coder: Coder, base: nat, offset: nat, limit: nat, i: nat)
    | SlotTree(len: nat, i: nat)
    | SpecTree(len: nat, posSlot: nat, distance: nat, mask: nat, i: nat)
    | DirectBits(len: nat, distance: nat, left: nat)
    | AlignTree(len: nat, distance: nat, mask: nat, i: nat)
    | Decoded(result: Symbol)

  datatype Query = Model(slot: int) | Direct

  /** Two to the number of bits that follow a short position slot. */
  function SpecWidth(posSlot: nat): nat {
    if posSlot < 6 then 2 else if posSlot < 8 then 4 else if posSlot < 10 then 8 else if posSlot < 12 then 16 else 32
  }

  function SpecBase(posSlot: nat): int {
    SPEC_POS + (2 + posSlot % 2) * SpecWidth(posSlot) - posSlot - 1
  }

  function SlotBase(len: nat): nat {
    POS_SLOT + 64 * Min(len, 3)
  }

  /** The part of the match byte that selects the literal's probability. */
  function MatchBit(offs: nat, matchByte: nat): nat {
    if (2 * matchByte / 256) % 2 == 1 then offs else 0
  }

  ghost predicate ValidCoder(coder: Coder) {
    coder.OldMatch? ==> coder.which < 4
  }

  ghost predicate ValidTree(c: Context, coder: Coder, base: nat, offset: nat, limit: nat) {
    || (limit == 8 && base == coder.Start() + LEN_LOW + 8 * c.posState && offset == 0)
    || (limit == 8 && base == coder.Start() + LEN_MID + 8 * c.posState && offset == 8)
    || (limit == 256 && base == coder.Start() + LEN_HIGH && offset == 16)
  }

  ghost predicate ValidMask(mask: nat, width: nat) {
    1 <= mask < width && (mask == 1 || mask == 2 || mask == 4 || mask == 8 || mask == 16)
  }

  ghost predicate ValidPhase(c: Context, ph: Phase) {
    match ph
    case PlainLiteral(symbol) => 1 <= symbol < 256
    case MatchedLiteral(offs, _, symbol) => 1 <= symbol < 256 && (offs == 0 || offs == 256)
    case LenChoice(coder) => ValidCoder(coder)
    case LenChoice2(coder) => ValidCoder(coder)
    case LenTree(coder, base, offset, limit, i) =>
      ValidCoder(coder) && ValidTree(c, coder, base, offset, limit) && 1 <= i < limit
    case SlotTree(len, i) => len < 272 && 1 <= i < 64
    case SpecTree(len, posSlot, distance, mask, i) =>
      && len < 272 && 4 <= posSlot < 14
      && ValidMask(mask, SpecWidth(posSlot)) && mask <= i < 2 * mask
      && distance < (2 + posSlot % 2) * SpecWidth(posSlot) + mask
    case DirectBits(len, distance, left) =>
      len < 272 && 1 <= left <= 26 && (distance + 1) * Pow2(left) <= 0x1000_0000
    case AlignTree(len, distance, mask, i) =>
      && len < 272 && ValidMask(mask, 16) && mask <= i < 2 * mask
      && distance % 16 < mask && distance < WORD
    case Decoded(symbol) => ValidSymbol(symbol)
    case _ => true
  }

  ghost predicate ValidSymbol(symbol: Symbol) {
    match symbol
    case LongRep(which, len) => which < 4 && len < 272
    case Match(len, distance) => len < 272 && distance < WORD - 1
    case Marker(len) => len < 272
    case _ => true
  }

  /** The bit the decoder reads in a phase. */
  function Ask(c: Context, ph: Phase): Query
    requires !ph.Decoded?
  {
    match ph
    case AskMatch => Model(IS_MATCH + 16 * c.state + c.posState)
    case PlainLiteral(symbol) => Model(c.litBase + symbol)
    case MatchedLiteral(offs, m, symbol) => Model(c.litBase + offs + MatchBit(offs, m) + symbol)
    case AskRep => Model(IS_REP + c.state)
    case AskG0 => Model(IS_REP_G0 + c.state)
    case AskLong => Model(IS_REP0_LONG + 16 * c.state + c.posState)
    case AskG1 => Model(IS_REP_G1 + c.state)
    case AskG2 => Model(IS_REP_G2 + c.state)
    case LenChoice(coder) => Model(coder.Start())
    case LenChoice2(coder) => Model(coder.Start() + 1)
    case LenTree(_, base, _, _, i) => Model(base + i)
    case SlotTree(len, i) => Model(SlotBase(len) + i)
    case SpecTree(_, posSlot, _, _, i) => Model(SpecBase(posSlot) + i)
    case DirectBits(_, _, _) => Direct
    case AlignTree(_, _, _, i) => Model(ALIGN + i)
  }

  function EnterTree(c: Context, coder: Coder, start: nat, offset: nat, limit: nat): Phase {
    LenTree(coder, coder.Start() + start, offset, limit, 1)
  }

  function LengthDone(coder: Coder, len: nat): Phase {
    if coder.NewMatch? then SlotTree(len, 1) else Decoded(LongRep(coder.which, len))
  }

  function SlotDone(len: nat, posSlot: nat): Phase {
    if posSlot < 4 then Decoded(Match(len, posSlot))
    else if posSlot < 14 then SpecTree(len, posSlot, (2 + posSlot % 2) * SpecWidth(posSlot), 1, 1)
    else DirectBits(len, 2 + posSlot % 2, posSlot / 2 - 5)
  }

  function AlignDone(len: nat, distance: nat): Phase {
    if distance == WORD - 1 then Decoded(Marker(len)) else Decoded(Match(len, distance))
  }

  /** The phase reached when the bit asked for in `ph` is `bit`. */
  function Advance(c: Context, ph: Phase, bit: Bit): Phase
    requires !ph.Decoded?
  {
    match ph
    case AskMatch =>
      if bit == 1 then AskRep
      else if c.state < 7 then PlainLiteral(1) else MatchedLiteral(256, c.matchByte, 1)
    case PlainLiteral(symbol) =>
      var s := 2 * symbol + bit;
      if s < 256 then PlainLiteral(s) else Decoded(Literal(s % 256))
    case MatchedLiteral(offs, m, symbol) =>
      var s := 2 * symbol + bit;
      var mb := MatchBit(offs, m);
      if s < 256 then MatchedLiteral(if bit == 1 then mb else Max(offs - mb, 0), 2 * m, s)
        else Decoded(Literal(s % 256))
    case AskRep => if bit == 1 then AskG0 else LenChoice(NewMatch)
    case AskG0 => if bit == 1 then AskG1 else AskLong
    case AskLong => if bit == 1 then LenChoice(OldMatch(0)) else Decoded(ShortRep)
    case AskG1 => if bit == 1 then AskG2 else LenChoice(OldMatch(1))
    case AskG2 => LenChoice(OldMatch(2 + bit))
    case LenChoice(coder) =>
      if bit == 1 then LenChoice2(coder) else EnterTree(c, coder, LEN_LOW + 8 * c.posState, 0, 8)
    case LenChoice2(coder) =>
      if bit == 1 then EnterTree(c, coder, LEN_HIGH, 16, 256) else EnterTree(c, coder, LEN_MID + 8 * c.posState, 8, 8)
    case LenTree(coder, base, offset, limit, i) =>
      var j := 2 * i + bit;
      if j < limit then LenTree(coder, base, offset, limit, j) else LengthDone(coder, j - limit + offset)
    case SlotTree(len, i) =>
      var j := 2 * i + bit;
      if j < 64 then SlotTree(len, j) else SlotDone(len, j - 64)
    case SpecTree(len, posSlot, distance, mask, i) =>
      if 2 * mask < SpecWidth(posSlot) then SpecTree(len, posSlot, distance + bit * mask, 2 * mask, 2 * i + bit)
      else Decoded(Match(len, distance + bit * mask))
    case DirectBits(len, distance, left) =>
      if left > 1 then DirectBits(len, 2 * distance + bit, left - 1)
      else AlignTree(len, (2 * distance + bit) * 16, 1, 1)
    case AlignTree(len, distance, mask, i) =>
      if mask < 8 then AlignTree(len, distance + bit * mask, 2 * mask, 2 * i + bit)
      else AlignDone(len, distance + bit * mask)
  }

  /** How often `i` can be doubled before it reaches `limit` (up to 256). */
  function BitsTo(i: nat, limit: nat): nat {
    if i >= limit then 0
    else if 2 * i >= limit then 1
    else if 4 * i >= limit then 2
    else if 8 * i >= limit then 3
    else if 16 * i >= limit then 4
    else if 32 * i >= limit then 5
    else if 64 * i >= limit then 6
    else if 128 * i >= limit then 7
    else 8
  }

  /** An upper bound on the bits still to be read. */
  function BitsLeft(ph: Phase): nat {
    match ph
    case AskMatch => 60
    case PlainLiteral(symbol) => BitsTo(symbol, 256)
    case MatchedLiteral(_, _, symbol) => BitsTo(symbol, 256)
    case AskRep => 59
    case AskG0 => 58
    case AskG1 => 57
    case AskG2 => 56
    case AskLong => 56
    case LenChoice(_) => 55
    case LenChoice2(_) => 54
    case LenTree(_, _, _, limit, i) => 40 + BitsTo(i, limit)
    case SlotTree(_, i) => 32 + BitsTo(i, 64)
    case SpecTree(_, posSlot, _, mask, _) => BitsTo(mask, SpecWidth(posSlot))
    case DirectBits(_, _, left) => 4 + left
    case AlignTree(_, _, mask, _) => BitsTo(mask, 16)
    case Decoded(_) => 0
  }

  /** Every step of the walk stays in the grammar, and walks end. */
  lemma AdvanceValid(c: Context, ph: Phase, bit: Bit, numProbs: nat)
    requires c.Valid(numProbs) && !ph.Decoded? && ValidPhase(c, ph)
    ensures ValidPhase(c, Advance(c, ph, bit))
    ensures BitsLeft(Advance(c, ph, bit)) < BitsLeft(ph)
  {
    hide ValidPhase, Advance, BitsLeft;
    match ph
    case SlotTree(len, i) =>
      SlotTreeValid(c, len, i, bit);
    case SpecTree(len, posSlot, distance, mask, i) =>
      SpecTreeValid(c, ph, bit);
    case DirectBits(len, distance, left) =>
      DirectBitsValid(c, len, distance, left, bit);
    case AlignTree(len, distance, mask, i) =>
      AlignTreeValid(c, ph, bit);
    case _ =>
      HeadValid(c, ph, bit);
  }

  lemma HeadValid(c: Context, ph: Phase, bit: Bit)
    requires ValidPhase(c, ph)
    requires !ph.SlotTree? && !ph.SpecTree? && !ph.AlignTree? && !ph.DirectBits? && !ph.Decoded?
    ensures ValidPhase(c, Advance(c, ph, bit))
    ensures BitsLeft(Advance(c, ph, bit)) < BitsLeft(ph)
  {
    hide ValidPhase, Advance, BitsLeft;
    if ph.PlainLiteral? || ph.MatchedLiteral? {
      LiteralValid(c, ph, bit);
    } else if ph.LenChoice? || ph.LenChoice2? || ph.LenTree? {
      LengthValid(c, ph, bit);
    } else {
      FlagValid(c, ph, bit);
    }
  }

  lemma LiteralValid(c: Context, ph: Phase, bit: Bit)
    requires ValidPhase(c, ph) && (ph.PlainLiteral? || ph.MatchedLiteral?)
    ensures ValidPhase(c, Advance(c, ph, bit))
    ensures BitsLeft(Advance(c, ph, bit)) < BitsLeft(ph)
  {
  }

  lemma LengthValid(c: Context, ph: Phase, bit: Bit)
    requires ValidPhase(c, ph) && (ph.LenChoice? || ph.LenChoice2? || ph.LenTree?)
    ensures ValidPhase(c, Advance(c, ph, bit))
    ensures BitsLeft(Advance(c, ph, bit)) < BitsLeft(ph)
  {
    hide SpecBase, SpecWidth, ValidMask;
  }

  lemma FlagValid(c: Context, ph: Phase, bit: Bit)
    requires ValidPhase(c, ph)
    requires ph.AskMatch? || ph.AskRep? || ph.AskG0? || ph.AskLong? || ph.AskG1? || ph.AskG2?
    ensures ValidPhase(c, Advance(c, ph, bit))
    ensures BitsLeft(Advance(c, ph, bit)) < BitsLeft(ph)
  {
    hide SpecBase, SpecWidth, ValidMask;
  }

  lemma AskInTable(c: Context, ph: Phase, numProbs: nat)
    requires c.Valid(numProbs) && !ph.Decoded? && ValidPhase(c, ph)
    ensures Ask(c, ph).Model? ==> 0 <= Ask(c, ph).slot < numProbs
  {
  }

  lemma SlotTreeValid(c: Context, len: nat, i: nat, bit: Bit)
    requires ValidPhase(c, SlotTree(len, i))
    ensures ValidPhase(c, Advance(c, SlotTree(len, i), bit))
    ensures BitsLeft(Advance(c, SlotTree(len, i), bit)) < BitsLeft(SlotTree(len, i))
  {
    var j := 2 * i + bit;
    if j >= 64 {
      SlotDoneValid(c, len, j - 64);
    }
  }

  lemma SlotDoneValid(c: Context, len: nat, posSlot: nat)
    requires len < 272 && posSlot < 64
    ensures ValidPhase(c, SlotDone(len, posSlot))
    ensures BitsLeft(SlotDone(len, posSlot)) <= 30
  {
    if posSlot >= 14 {
      var left := posSlot / 2 - 5;
      Pow2Mono(left, 26);
      Pow2Word();
      assert Pow2(26) == 0x400_0000;
      DirectStart(posSlot % 2, Pow2(left));
    }
  }

  lemma DirectStart(low: nat, p: nat)
    requires low <= 1 && p <= 0x400_0000
    ensures (2 + low + 1) * p <= 0x1000_0000
  {
    if low == 0 {
      assert (2 + low + 1) * p == 3 * p;
    } else {
      assert (2 + low + 1) * p == 4 * p;
    }
  }

  lemma SpecTreeValid(c: Context, ph: Phase, bit: Bit)
    requires ph.SpecTree? && ValidPhase(c, ph)
    ensures ValidPhase(c, Advance(c, ph, bit))
    ensures BitsLeft(Advance(c, ph, bit)) < BitsLeft(ph)
  {
    hide SpecBase, SpecWidth;
    WidthIs(ph.posSlot);
    assert bit * ph.mask == 0 || bit * ph.mask == ph.mask;
  }

  lemma WidthIs(posSlot: nat)
    ensures var w := SpecWidth(posSlot);
            && (w == 2 || w == 4 || w == 8 || w == 16 || w == 32)
            && ((2 + posSlot % 2) * w == 2 * w || (2 + posSlot % 2) * w == 3 * w)
  {
  }

  lemma AlignTreeValid(c: Context, ph: Phase, bit: Bit)
    requires ph.AlignTree? && ValidPhase(c, ph)
    ensures ValidPhase(c, Advance(c, ph, bit))
    ensures BitsLeft(Advance(c, ph, bit)) < BitsLeft(ph)
  {
    assert bit * ph.mask == 0 || bit * ph.mask == ph.mask;
    assert ph.distance / 16 * 16 + 15 < WORD;
  }

  lemma DirectBitsValid(c: Context, len: nat, distance: nat, left: nat, bit: Bit)
    requires ValidPhase(c, DirectBits(len, distance, left))
    ensures ValidPhase(c, Advance(c, DirectBits(len, distance, left), bit))
    ensures BitsLeft(Advance(c, DirectBits(len, distance, left), bit)) < BitsLeft(DirectBits(len, distance, left))
  {
    assert Pow2(left) == 2 * Pow2(left - 1);
    DoubleBound(distance, bit, Pow2(left - 1));
    if left == 1 {
      assert (2 * distance + bit + 1) * 1 <= 0x1000_0000;
      assert (2 * distance + bit) * 16 < WORD;
    }
  }

  lemma DoubleBound(distance: nat, bit: Bit, p: nat)
    ensures (2 * distance + bit + 1) * p <= (distance + 1) * (2 * p)
  {
    assert (distance + 1) * (2 * p) == (2 * distance + 2) * p;
    if bit == 0 {
      assert (2 * distance + 2) * p == (2 * distance + 1) * p + p;
    }
  }
}
