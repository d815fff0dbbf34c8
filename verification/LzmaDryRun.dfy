/**
 The dry run of stage2/dec_lzma.c: the decoder's walk over one symbol, with the probability
 table only read, that stops as soon as a byte would be needed beyond the end of the input.
 */
module LzmaDryRun {
  import opened Words
  import opened LzmaGrammar
  import opened LzmaRange

  /** The local range, code and input position of the dry run. */
  datatype Dry = Dry(range: nat, code: nat, buf: nat)

  ghost predicate DryWalk(c: Context, ph: Phase, probs: Probs, src: seq<Byte>, d: Dry, goal: Option<Outcome>)
  {
    && d.buf <= |src| && 0x1_0000 <= d.range < WORD && d.code < WORD
    && ValidProbs(probs) && Ready(c, ph, probs)
    && Run(c, ph, probs, Rc(d.range, d.code, src[d.buf..]), false) == goal
  }

  /** NORMALIZE_CHECK */
  method CheckInput(src: seq<Byte>, d: Dry) returns (ok: bool, d1: Dry)
    requires d.buf <= |src| && 0x1_0000 <= d.range < WORD && d.code < WORD
    ensures ok == Normalize(Rc(d.range, d.code, src[d.buf..])).Some?
    ensures ok ==>
              && d1.buf <= |src|
              && Rc(d1.range, d1.code, src[d1.buf..]) == Normalize(Rc(d.range, d.code, src[d.buf..])).value
    ensures ok ==> TOP <= d1.range < WORD && d1.code < WORD
  {
    d1 := d;
    ok := true;
    if d.range < TOP {
      if d.buf >= |src| {
        return false, d;
      }
      d1 := Dry(d.range * 256, (d.code * 256 + src[d.buf]) % WORD, d.buf + 1);
      assert src[d.buf..][1..] == src[d1.buf..];
    }
  }

  lemma Stuck(c: Context, ph: Phase, probs: Probs, rc: Rc)
    requires Ready(c, ph, probs) && !ph.Decoded? && Normalize(rc).None?
    ensures Run(c, ph, probs, rc, false) == None
  {
  }

  /** IF_BIT_0_CHECK with its updates of range and code. */
  method CheckBit(ghost c: Context, ghost ph: Phase, probs: array<nat>, src: seq<Byte>, d: Dry,
                  ghost goal: Option<Outcome>, slot: nat)
    returns (ok: bool, bit: Bit, d1: Dry)
    requires DryWalk(c, ph, probs[..], src, d, goal) && !ph.Decoded? && Ask(c, ph) == Model(slot)
    ensures !ok ==> goal == None
    ensures ok ==> DryWalk(c, Advance(c, ph, bit), probs[..], src, d1, goal)
  {
    hide Advance, ValidPhase, BitsLeft, Ask, Normalize, AfterModel;
    bit := 0;
    AskInTable(c, ph, probs.Length);
    ok, d1 := CheckInput(src, d);
    if !ok {
      Stuck(c, ph, probs[..], Rc(d.range, d.code, src[d.buf..]));
      return;
    }
    var ttt := probs[slot];
    ghost var n := Rc(d1.range, d1.code, src[d1.buf..]);
    ModelShrinks(n, ttt);
    AdvanceValid(c, ph, ModelBit(n, ttt), probs.Length);
    bit, d1 := SplitDry(d1, ttt, n);
  }

  method SplitDry(d: Dry, ttt: nat, ghost n: Rc) returns (bit: Bit, d1: Dry)
    requires n.range == d.range && n.code == d.code && ttt <= PROB_MAX && d.range < WORD
    ensures bit == ModelBit(n, ttt) && Rc(d1.range, d1.code, n.rest) == AfterModel(n, ttt) && d1.buf == d.buf
  {
    var bound := BoundOf(d.range, ttt);
    if d.code < bound {
      bit := 0;
      d1 := d.(range := bound);
    } else {
      BoundInRange(d.range, ttt);
      bit := 1;
      d1 := d.(range := d.range - bound, code := d.code - bound);
    }
  }

  /** One direct bit: half the range is subtracted unless the sign mask clears it. */
  method CheckDirect(ghost c: Context, ghost ph: Phase, ghost probs: Probs, src: seq<Byte>, d: Dry,
                     ghost goal: Option<Outcome>)
    returns (ok: bool, ghost bit: Bit, d1: Dry)
    requires DryWalk(c, ph, probs, src, d, goal) && ph.DirectBits?
    ensures !ok ==> goal == None
    ensures ok ==> DryWalk(c, Advance(c, ph, bit), probs, src, d1, goal)
  {
    hide Advance, ValidPhase, BitsLeft, Normalize;
    bit := 0;
    ok, d1 := CheckInput(src, d);
    if !ok {
      Stuck(c, ph, probs, Rc(d.range, d.code, src[d.buf..]));
      return;
    }
    ghost var n := Rc(d1.range, d1.code, src[d1.buf..]);
    DirectShrinks(n);
    bit := DirectBit(n);
    AdvanceValid(c, ph, bit, |probs|);
    var half := d1.range / 2;
    var kept := if Sub32(d1.code, half) >= 0x8000_0000 then 0 else half;
    SubNothing(d1.code);
    d1 := Dry(half, Sub32(d1.code, kept), d1.buf);
    assert Rc(d1.range, d1.code, src[d1.buf..]) == AfterDirect(n);
  }

  lemma SubNothing(code: nat)
    requires code < WORD
    ensures Sub32(code, 0) == code
  {
  }

  method DryLenTree(ghost c: Context, probs: array<nat>, src: seq<Byte>, d: Dry, ghost goal: Option<Outcome>,
                    ghost coder: Coder, base: nat, offset: nat, limit: nat) returns (ok: bool, len: nat, d1: Dry)
    requires DryWalk(c, LenTree(coder, base, offset, limit, 1), probs[..], src, d, goal)
             && ValidTree(c, coder, base, offset, limit)
    ensures !ok ==> goal == None
    ensures ok ==> len < 272 && DryWalk(c, LengthDone(coder, len), probs[..], src, d1, goal)
  {
    hide DryWalk;
    var i: nat := 1;
    len := 0;
    d1 := d;
    while i < limit
      invariant i < limit ==> DryWalk(c, LenTree(coder, base, offset, limit, i), probs[..], src, d1, goal)
      invariant i >= limit ==>
            limit <= i < 2 * limit && DryWalk(c, LengthDone(coder, i - limit + offset), probs[..], src, d1, goal)
      invariant ValidTree(c, coder, base, offset, limit) && i >= 1
      decreases limit - i
    {
      var bit;
      ok, bit, d1 := CheckBit(c, LenTree(coder, base, offset, limit, i), probs, src, d1, goal, base + i);
      if !ok {
        return;
      }
      i := i + i + bit;
    }
    ok := true;
    len := i - limit + offset;
  }

  method DryLength(ghost c: Context, probs: array<nat>, src: seq<Byte>, d: Dry, ghost goal: Option<Outcome>,
                   ghost coder: Coder, prob: nat, posState: nat) returns (ok: bool, len: nat, d1: Dry)
    requires DryWalk(c, LenChoice(coder), probs[..], src, d, goal) && prob == coder.Start() && posState == c.posState
    ensures !ok ==> goal == None
    ensures ok ==> len < 272 && DryWalk(c, LengthDone(coder, len), probs[..], src, d1, goal)
  {
    hide DryWalk;
    len := 0;
    var bit;
    ok, bit, d1 := CheckBit(c, LenChoice(coder), probs, src, d, goal, prob);
    if !ok {
      return;
    }
    if bit == 0 {
      ok, len, d1 := DryLenTree(c, probs, src, d1, goal, coder, prob + LEN_LOW + 8 * posState, 0, 8);
      return;
    }
    ok, bit, d1 := CheckBit(c, LenChoice2(coder), probs, src, d1, goal, prob + 1);
    if !ok {
      return;
    }
    if bit == 0 {
      ok, len, d1 := DryLenTree(c, probs, src, d1, goal, coder, prob + LEN_MID + 8 * posState, 8, 8);
    } else {
      ok, len, d1 := DryLenTree(c, probs, src, d1, goal, coder, prob + LEN_HIGH, 16, 256);
    }
  }

  method DrySlot(ghost c: Context, probs: array<nat>, src: seq<Byte>, d: Dry, ghost goal: Option<Outcome>, len: nat)
    returns (ok: bool, posSlot: nat, d1: Dry)
    requires DryWalk(c, SlotTree(len, 1), probs[..], src, d, goal)
    ensures !ok ==> goal == None
    ensures ok ==> posSlot < 64 && DryWalk(c, SlotDone(len, posSlot), probs[..], src, d1, goal)
  {
    hide DryWalk;
    var prob := POS_SLOT + 64 * (if len < 4 then len else 3);
    var i: nat := 1;
    posSlot := 0;
    d1 := d;
    while i < 64
      invariant i < 64 ==> DryWalk(c, SlotTree(len, i), probs[..], src, d1, goal)
      invariant i >= 64 ==> 64 <= i < 128 && DryWalk(c, SlotDone(len, i - 64), probs[..], src, d1, goal)
      invariant i >= 1
      decreases 64 - i
    {
      var bit;
      ok, bit, d1 := CheckBit(c, SlotTree(len, i), probs, src, d1, goal, prob + i);
      if !ok {
        return;
      }
      i := i + i + bit;
    }
    ok := true;
    posSlot := i - 64;
  }

  /** A walk that has reached the end of a match, whatever its distance. */
  ghost predicate DryMatched(c: Context, probs: Probs, src: seq<Byte>, d: Dry, goal: Option<Outcome>)
  {
    exists symbol :: DryWalk(c, Decoded(symbol), probs, src, d, goal) && KindOf(symbol) == MatchKind
  }

  lemma MatchReached(c: Context, probs: Probs, src: seq<Byte>, d: Dry, goal: Option<Outcome>, symbol: Symbol)
    requires DryWalk(c, Decoded(symbol), probs, src, d, goal) && KindOf(symbol) == MatchKind
    ensures DryMatched(c, probs, src, d, goal)
  {
  }

  method DrySpec(ghost c: Context, probs: array<nat>, src: seq<Byte>, d: Dry, ghost goal: Option<Outcome>,
                 ghost len: nat, posSlot: nat)
    returns (ok: bool, d1: Dry)
    requires 4 <= posSlot < 14 && DryWalk(c, SlotDone(len, posSlot), probs[..], src, d, goal)
    ensures !ok ==> goal == None
    ensures ok ==> DryMatched(c, probs[..], src, d1, goal)
  {
    hide DryWalk, DryMatched;
    var numDirectBits := posSlot / 2 - 1;
    assert Pow2(1) == 2 && Pow2(2) == 4 && Pow2(3) == 8 && Pow2(4) == 16 && Pow2(5) == 32;
    assert Pow2(numDirectBits) == SpecWidth(posSlot);
    var prob := SPEC_POS + (2 + posSlot % 2) * Pow2(numDirectBits) - posSlot - 1;
    ok, d1 := DrySpecTree(c, probs, src, d, goal, len, posSlot, numDirectBits, prob);
  }

  /** `n` doublings of the mask lead to the width. */
  ghost predicate MaskOk(mask: nat, n: nat, width: nat) {
    mask > 0 && mask * Pow2(n) == width
  }

  lemma MaskStart(n: nat)
    ensures MaskOk(1, n, Pow2(n))
  {
  }

  lemma MaskStep(mask: nat, n: nat, width: nat)
    requires MaskOk(mask, n, width) && n > 0
    ensures mask > 0 && MaskOk(mask * 2, n - 1, width) && (2 * mask < width <==> n > 1)
  {
    var q := Pow2(n - 1);
    assert mask * Pow2(n) == mask * 2 * q;
    if n > 1 {
      assert q == 2 * Pow2(n - 2);
      assert mask * 2 * q >= mask * 2 * 2;
    } else {
      assert q == 1;
    }
  }

  method DrySpecTree(ghost c: Context, probs: array<nat>, src: seq<Byte>, d: Dry, ghost goal: Option<Outcome>,
                     ghost len: nat, ghost posSlot: nat, directBits: nat, prob: int)
    returns (ok: bool, d1: Dry)
    requires 4 <= posSlot < 14 && DryWalk(c, SlotDone(len, posSlot), probs[..], src, d, goal)
    requires Pow2(directBits) == SpecWidth(posSlot) && prob == SpecBase(posSlot) && directBits > 0
    ensures !ok ==> goal == None
    ensures ok ==> DryMatched(c, probs[..], src, d1, goal)
  {
    hide DryWalk, DryMatched, SpecBase, SpecWidth, MaskOk;
    MaskStart(directBits);
    var numDirectBits := directBits;
    ghost var distance: nat := (2 + posSlot % 2) * SpecWidth(posSlot);
    ghost var mask: nat := 1;
    var i: nat := 1;
    d1 := d;
    while numDirectBits != 0
      invariant 0 <= numDirectBits <= directBits && MaskOk(mask, numDirectBits, SpecWidth(posSlot))
      invariant numDirectBits > 0 ==> DryWalk(c, SpecTree(len, posSlot, distance, mask, i), probs[..], src, d1, goal)
      invariant numDirectBits == 0 ==> DryMatched(c, probs[..], src, d1, goal)
      decreases numDirectBits
    {
      var bit;
      MaskStep(mask, numDirectBits, SpecWidth(posSlot));
      SpecSlotInTable(c, probs[..], src, d1, goal, SpecTree(len, posSlot, distance, mask, i));
      ok, bit, d1 := CheckBit(c, SpecTree(len, posSlot, distance, mask, i), probs, src, d1, goal, prob + i);
      if !ok {
        return;
      }
      distance := distance + bit * mask;
      i := i + i + bit;
      mask := mask * 2;
      numDirectBits := numDirectBits - 1;
      if numDirectBits == 0 {
        MatchReached(c, probs[..], src, d1, goal, Match(len, distance));
      }
    }
    ok := true;
  }

  lemma SpecSlotInTable(c: Context, probs: Probs, src: seq<Byte>, d: Dry, goal: Option<Outcome>, ph: Phase)
    requires ph.SpecTree? && DryWalk(c, ph, probs, src, d, goal)
    ensures SpecBase(ph.posSlot) + ph.i >= 0
  {
    SpecSlots(ph.posSlot, ph.i);
  }

  method DryDirect(ghost c: Context, probs: array<nat>, src: seq<Byte>, d: Dry, ghost goal: Option<Outcome>,
                   ghost len: nat, posSlot: nat)
    returns (ok: bool, d1: Dry)
    requires 14 <= posSlot < 64 && DryWalk(c, SlotDone(len, posSlot), probs[..], src, d, goal)
    ensures !ok ==> goal == None
    ensures ok ==> DryMatched(c, probs[..], src, d1, goal)
  {
    hide DryWalk, DryMatched;
    var numDirectBits := posSlot / 2 - 1 - 4;
    ghost var distance: nat := 2 + posSlot % 2;
    d1 := d;
    while numDirectBits != 0
      invariant 0 <= numDirectBits <= 26
      invariant numDirectBits > 0 ==> DryWalk(c, DirectBits(len, distance, numDirectBits), probs[..], src, d1, goal)
      invariant numDirectBits == 0 ==> DryWalk(c, AlignTree(len, distance * 16, 1, 1), probs[..], src, d1, goal)
    {
      ghost var bit;
      ok, bit, d1 := CheckDirect(c, DirectBits(len, distance, numDirectBits), probs[..], src, d1, goal);
      if !ok {
        return;
      }
      distance := distance * 2 + bit;
      numDirectBits := numDirectBits - 1;
    }
    ok, d1 := DryAlign(c, probs, src, d1, goal, len, distance * 16);
  }

  method DryAlign(ghost c: Context, probs: array<nat>, src: seq<Byte>, d: Dry, ghost goal: Option<Outcome>,
                  ghost len: nat, ghost high: nat)
    returns (ok: bool, d1: Dry)
    requires DryWalk(c, AlignTree(len, high, 1, 1), probs[..], src, d, goal)
    ensures !ok ==> goal == None
    ensures ok ==> DryMatched(c, probs[..], src, d1, goal)
  {
    hide DryWalk, DryMatched;
    ghost var distance: nat := high;
    ghost var mask: nat := 1;
    var i: nat := 1;
    var numDirectBits := 4;
    d1 := d;
    while numDirectBits != 0
      invariant 0 <= numDirectBits <= 4 && mask * Pow2(numDirectBits) == 16
      invariant mask == 1 || mask == 2 || mask == 4 || mask == 8 || mask == 16
      invariant numDirectBits > 0 ==> DryWalk(c, AlignTree(len, distance, mask, i), probs[..], src, d1, goal)
      invariant numDirectBits == 0 ==> DryMatched(c, probs[..], src, d1, goal)
      decreases numDirectBits
    {
      var bit;
      ok, bit, d1 := CheckBit(c, AlignTree(len, distance, mask, i), probs, src, d1, goal, ALIGN + i);
      if !ok {
        return;
      }
      distance := distance + bit * mask;
      i := i + i + bit;
      mask := mask * 2;
      numDirectBits := numDirectBits - 1;
      if numDirectBits == 0 {
        MatchReached(c, probs[..], src, d1, goal, AlignDone(len, distance).result);
      }
    }
    ok := true;
  }

  method DryDistance(ghost c: Context, probs: array<nat>, src: seq<Byte>, d: Dry, ghost goal: Option<Outcome>, len: nat)
    returns (ok: bool, d1: Dry)
    requires DryWalk(c, SlotTree(len, 1), probs[..], src, d, goal)
    ensures !ok ==> goal == None
    ensures ok ==> DryMatched(c, probs[..], src, d1, goal)
  {
    hide DryWalk, DryMatched, SpecWidth;
    var posSlot;
    ok, posSlot, d1 := DrySlot(c, probs, src, d, goal, len);
    if !ok {
      return;
    }
    if posSlot < 4 {
      MatchReached(c, probs[..], src, d1, goal, Match(len, posSlot));
    } else if posSlot < 14 {
      ok, d1 := DrySpec(c, probs, src, d1, goal, len, posSlot);
    } else {
      ok, d1 := DryDirect(c, probs, src, d1, goal, len, posSlot);
    }
  }

  method DryPlainLiteral(ghost c: Context, probs: array<nat>, src: seq<Byte>, d: Dry, ghost goal: Option<Outcome>,
                         prob: nat)
    returns (ok: bool, ghost byte: Byte, d1: Dry)
    requires DryWalk(c, PlainLiteral(1), probs[..], src, d, goal) && prob == c.litBase
    ensures !ok ==> goal == None
    ensures ok ==> DryWalk(c, Decoded(Literal(byte)), probs[..], src, d1, goal)
  {
    hide DryWalk;
    var symbol: nat := 1;
    byte := 0;
    d1 := d;
    while symbol < 0x100
      invariant 1 <= symbol
      invariant symbol < 0x100 ==> DryWalk(c, PlainLiteral(symbol), probs[..], src, d1, goal)
      invariant symbol >= 0x100 ==> DryWalk(c, Decoded(Literal(symbol % 256)), probs[..], src, d1, goal)
      decreases 0x100 - symbol
    {
      var bit;
      ok, bit, d1 := CheckBit(c, PlainLiteral(symbol), probs, src, d1, goal, prob + symbol);
      if !ok {
        return;
      }
      symbol := symbol + symbol + bit;
    }
    ok := true;
    byte := symbol % 256;
  }

  method DryMatchedLiteral(ghost c: Context, probs: array<nat>, src: seq<Byte>, d: Dry, ghost goal: Option<Outcome>,
                           prob: nat, matched: Byte)
    returns (ok: bool, ghost byte: Byte, d1: Dry)
    requires DryWalk(c, MatchedLiteral(256, matched, 1), probs[..], src, d, goal) && prob == c.litBase
    ensures !ok ==> goal == None
    ensures ok ==> DryWalk(c, Decoded(Literal(byte)), probs[..], src, d1, goal)
  {
    hide DryWalk;
    var matchByte: nat := matched;
    var offs := 0x100;
    var symbol: nat := 1;
    byte := 0;
    d1 := d;
    while symbol < 0x100
      invariant 1 <= symbol && (offs == 0 || offs == 0x100)
      invariant symbol < 0x100 ==> DryWalk(c, MatchedLiteral(offs, matchByte, symbol), probs[..], src, d1, goal)
      invariant symbol >= 0x100 ==> DryWalk(c, Decoded(Literal(symbol % 256)), probs[..], src, d1, goal)
      decreases 0x100 - symbol
    {
      ghost var ph := MatchedLiteral(offs, matchByte, symbol);
      matchByte := matchByte * 2;
      var bit := if (matchByte / 256) % 2 == 1 then offs else 0;  // matchByte & offs
      var answer;
      ok, answer, d1 := CheckBit(c, ph, probs, src, d1, goal, prob + offs + bit + symbol);
      if !ok {
        return;
      }
      symbol := symbol + symbol + answer;
      offs := if answer == 0 then offs - bit else bit;
    }
    ok := true;
    byte := symbol % 256;
  }

  /** A walk that has reached a repeat of either form. */
  ghost predicate DryRepeated(c: Context, probs: Probs, src: seq<Byte>, d: Dry, goal: Option<Outcome>)
  {
    exists symbol :: DryWalk(c, Decoded(symbol), probs, src, d, goal) && KindOf(symbol) == RepKind
  }

  lemma RepeatReached(c: Context, probs: Probs, src: seq<Byte>, d: Dry, goal: Option<Outcome>, symbol: Symbol)
    requires DryWalk(c, Decoded(symbol), probs, src, d, goal) && KindOf(symbol) == RepKind
    ensures DryRepeated(c, probs, src, d, goal)
  {
  }

  method DryRepIndex(ghost c: Context, probs: array<nat>, src: seq<Byte>, d: Dry, ghost goal: Option<Outcome>,
                     state: nat, posState: nat)
    returns (ok: bool, short: bool, ghost which: nat, d1: Dry)
    requires DryWalk(c, AskG0, probs[..], src, d, goal) && state == c.state && posState == c.posState
    ensures !ok ==> goal == None
    ensures ok && short ==> DryWalk(c, Decoded(ShortRep), probs[..], src, d1, goal)
    ensures ok && !short ==> which < 4 && DryWalk(c, LenChoice(OldMatch(which)), probs[..], src, d1, goal)
  {
    hide DryWalk;
    var bit;
    short := false;
    which := 0;
    ok, bit, d1 := CheckBit(c, AskG0, probs, src, d, goal, IS_REP_G0 + state);
    if !ok {
      return;
    }
    if bit == 0 {
      ok, bit, d1 := CheckBit(c, AskLong, probs, src, d1, goal, IS_REP0_LONG + 16 * state + posState);
      short := ok && bit == 0;
      return;
    }
    which := 1;
    ok, bit, d1 := CheckBit(c, AskG1, probs, src, d1, goal, IS_REP_G1 + state);
    if !ok || bit == 0 {
      return;
    }
    ok, bit, d1 := CheckBit(c, AskG2, probs, src, d1, goal, IS_REP_G2 + state);
    which := 2;
    which := which + bit;
  }

  method DryRep(ghost c: Context, probs: array<nat>, src: seq<Byte>, d: Dry, ghost goal: Option<Outcome>, state: nat,
                posState: nat)
    returns (ok: bool, d1: Dry)
    requires DryWalk(c, AskG0, probs[..], src, d, goal) && state == c.state && posState == c.posState
    ensures !ok ==> goal == None
    ensures ok ==> DryRepeated(c, probs[..], src, d1, goal)
  {
    hide DryWalk, DryRepeated;
    var short;
    ghost var which;
    ok, short, which, d1 := DryRepIndex(c, probs, src, d, goal, state, posState);
    if !ok {
      return;
    }
    if short {
      RepeatReached(c, probs[..], src, d1, goal, ShortRep);
      return;
    }
    var len;
    ok, len, d1 := DryLength(c, probs, src, d1, goal, OldMatch(which), REP_LEN_CODER, posState);
    if ok {
      RepeatReached(c, probs[..], src, d1, goal, LongRep(which, len));
    }
  }
}
