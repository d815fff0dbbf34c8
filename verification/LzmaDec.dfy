/**
 The LZMA decoder of stage2/dec_lzma.c: probability table and circular dictionary updated in
 place, input taken from bounded buffers, output cut at a limit and resumed later.

 The ghost field `out` is the unbounded output. `Abs` is the state of the abstract machine of
 LzmaStream that the decoder has reached: a match whose tail is still to be written counts as
 written there. Every method is proved to keep the decoder a representation of that machine.
 */
module LzmaDecoder {
  import opened Words
  import opened Arith
  import opened LzmaGrammar
  import opened LzmaRange
  import opened History
  import opened LzmaStream
  import opened LzmaDryRun

  const RC_INIT_SIZE := 5

  datatype Res = Ok | ErrorData

  datatype Status = NotSpecified | FinishedWithMark | NotFinished | NeedsMoreInput | MaybeFinishedWithoutMark

  /** How one round over a buffer ended. */
  datatype Turn = Went | Starved | Bad | Unfinished

  datatype DummyRes = DummyError | DummyLit | DummyMatch | DummyRep

  class LzmaDec {
    const p: Props
    const probs: array<nat>
    const dic: array<Byte>
    var input: seq<Byte>  // the buffer that `buf` walks over
    var buf: nat
    var range: nat
    var code: nat
    var dicPos: nat
    var processedPos: nat
    var checkDicSize: nat
    var state: nat
    var rep0: nat
    var rep1: nat
    var rep2: nat
    var rep3: nat
    var remainLen: nat
    var needFlush: bool
    var needInitState: bool
    var tempBuf: seq<Byte>
    ghost var out: seq<Byte>  // everything written to the dictionary so far
    ghost var fed: seq<Byte>  // everything consumed since the decoder was initialised
    ghost var count: nat      // symbols decoded since then

    // ----- The range coder's view.

    ghost function CoderRc(): Rc
      reads this`range, this`code, this`buf, this`input
      requires buf <= |input|
    {
      Rc(range, code, input[buf..])
    }

    ghost predicate CoderOk()
      reads this`range, this`code, this`buf, this`input, probs
    {
      && buf <= |input|
      && 0x1_0000 <= range < WORD && code < WORD
      && ValidProbs(probs[..])
    }

    /** The walk through the grammar is in phase `ph` and will end in `goal`. */
    ghost predicate Walking(c: Context, ph: Phase, goal: Outcome)
      reads this`range, this`code, this`buf, this`input, probs
    {
      && CoderOk()
      && Ready(c, ph, probs[..])
      && Run(c, ph, probs[..], CoderRc(), true) == Some(goal)
    }

    method NormalizeRange()
      requires buf <= |input| && Normalize(CoderRc()).Some?
      requires range < WORD && code < WORD
      modifies this`range, this`code, this`buf
      ensures buf <= |input|
      ensures CoderRc() == old(Normalize(CoderRc()).value)
      ensures old(range) >= 0x1_0000 ==> TOP <= range < WORD && code < WORD
      ensures buf >= old(buf)
      ensures range < WORD && code < WORD
    {
      if range < TOP {
        ghost var rest := input[buf..];
        range := range * 256;
        code := (code * 256 + input[buf]) % WORD;
        buf := buf + 1;
        assert input[buf..] == rest[1..];
      }
    }

    /** Where the bound splits the range, and how the probability moves. */
    static method SplitRange(range: nat, code: nat, ttt: nat, ghost rest: seq<Byte>)
      returns (bit: Bit, range1: nat, code1: nat, prob: nat)
      requires ttt <= PROB_MAX && range < WORD
      ensures bit == ModelBit(Rc(range, code, rest), ttt)
      ensures Rc(range1, code1, rest) == AfterModel(Rc(range, code, rest), ttt)
      ensures prob == Adapted(ttt, bit)
    {
      var bound := BoundOf(range, ttt);
      if code < bound {
        range1 := bound;
        code1 := code;
        prob := ttt + (PROB_TOTAL - ttt) / 32;
        bit := 0;
      } else {
        BoundInRange(range, ttt);
        range1 := range - bound;
        code1 := code - bound;
        prob := ttt - ttt / 32;
        bit := 1;
      }
    }

    /** TEST_BIT_0 with UPDATE_0 or UPDATE_1. */
    method DecodeBit(ghost c: Context, ghost ph: Phase, ghost goal: Outcome, slot: nat) returns (bit: Bit)
      requires Walking(c, ph, goal) && !ph.Decoded? && Ask(c, ph) == Model(slot)
      modifies this`range, this`code, this`buf, probs
      ensures Walking(c, Advance(c, ph, bit), goal)
    {
      hide Advance, ValidPhase, BitsLeft, Ask, AfterModel, ModelBit, Adapted;
      AskInTable(c, ph, probs.Length);
      NormalizeRange();
      ghost var n := CoderRc();
      ghost var before := probs[..];
      var ttt := probs[slot];
      ModelShrinks(n, ttt);
      AdvanceValid(c, ph, ModelBit(n, ttt), probs.Length);
      AdaptedStays(ttt, ModelBit(n, ttt));
      bit, range, code, probs[slot] := SplitRange(range, code, ttt, n.rest);
      assert probs[..] == before[slot := Adapted(ttt, bit)];
      assert CoderRc() == AfterModel(n, ttt);
    }

    /** Subtracting half the range and, when the sign shows a borrow, adding it back. */
    static method SubtractHalf(code: nat, half: nat) returns (bit: Bit, rest: nat)
      requires code < WORD && half < 0x8000_0000
      ensures bit == if Sub32(code, half) >= 0x8000_0000 then 0 else 1
      ensures rest == if bit == 0 then code else Sub32(code, half)
    {
      var diff := Sub32(code, half);
      var t := if diff >= 0x8000_0000 then WORD - 1 else 0;
      bit := (t + 1) % WORD;
      rest := (diff + (if t == 0 then 0 else half)) % WORD;
    }

    /** One direct bit, read without a probability and without a branch. */
    method DecodeDirectBit(ghost c: Context, ghost ph: Phase, ghost goal: Outcome) returns (bit: Bit)
      requires Walking(c, ph, goal) && ph.DirectBits?
      modifies this`range, this`code, this`buf
      ensures Walking(c, Advance(c, ph, bit), goal)
    {
      hide Advance, ValidPhase, BitsLeft, Sub32;
      NormalizeRange();
      ghost var n := CoderRc();
      DirectShrinks(n);
      AdvanceValid(c, ph, DirectBit(n), probs.Length);
      range := range / 2;
      bit, code := SubtractHalf(code, range);
      assert CoderRc() == AfterDirect(n);
    }

    method DecodeLenTree(ghost c: Context, ghost goal: Outcome, ghost coder: Coder, base: nat, offset: nat, limit: nat)
      returns (len: nat)
      requires Walking(c, LenTree(coder, base, offset, limit, 1), goal) && ValidTree(c, coder, base, offset, limit)
      modifies this`range, this`code, this`buf, probs
      ensures len < 272 && Walking(c, LengthDone(coder, len), goal)
    {
      hide Walking;
      var i: nat := 1;
      while i < limit
        invariant i < limit ==> Walking(c, LenTree(coder, base, offset, limit, i), goal)
        invariant i >= limit ==> limit <= i < 2 * limit && Walking(c, LengthDone(coder, i - limit + offset), goal)
        invariant ValidTree(c, coder, base, offset, limit) && i >= 1
        decreases limit - i
      {
        var bit := DecodeBit(c, LenTree(coder, base, offset, limit, i), goal, base + i);
        i := i + i + bit;
      }
      len := i - limit + offset;
    }

    /** The length of a match or of a repeated match. */
    method DecodeLength(ghost c: Context, ghost goal: Outcome, ghost coder: Coder, prob: nat, posState: nat)
      returns (len: nat)
      requires Walking(c, LenChoice(coder), goal) && prob == coder.Start() && posState == c.posState
      modifies this`range, this`code, this`buf, probs
      ensures len < 272 && Walking(c, LengthDone(coder, len), goal)
    {
      hide Walking;
      var choice := DecodeBit(c, LenChoice(coder), goal, prob);
      if choice == 0 {
        len := DecodeLenTree(c, goal, coder, prob + LEN_LOW + 8 * posState, 0, 8);
      } else {
        var choice2 := DecodeBit(c, LenChoice2(coder), goal, prob + 1);
        if choice2 == 0 {
          len := DecodeLenTree(c, goal, coder, prob + LEN_MID + 8 * posState, 8, 8);
        } else {
          len := DecodeLenTree(c, goal, coder, prob + LEN_HIGH, 16, 256);
        }
      }
    }

    method DecodeSlot(ghost c: Context, ghost goal: Outcome, len: nat) returns (posSlot: nat)
      requires Walking(c, SlotTree(len, 1), goal)
      modifies this`range, this`code, this`buf, probs
      ensures posSlot < 64 && Walking(c, SlotDone(len, posSlot), goal)
    {
      hide Walking;
      var prob := POS_SLOT + 64 * (if len < 4 then len else 3);
      var i: nat := 1;
      while i < 64
        invariant i < 64 ==> Walking(c, SlotTree(len, i), goal)
        invariant i >= 64 ==> 64 <= i < 128 && Walking(c, SlotDone(len, i - 64), goal)
        invariant i >= 1
        decreases 64 - i
      {
        var bit := DecodeBit(c, SlotTree(len, i), goal, prob + i);
        i := i + i + bit;
      }
      posSlot := i - 64;
    }

    /** The distance of a match; 0xFFFFFFFF stands for the end marker. */
    method DecodeDistance(ghost c: Context, ghost goal: Outcome, len: nat) returns (distance: nat)
      requires len < 272 && Walking(c, SlotTree(len, 1), goal)
      modifies this`range, this`code, this`buf, probs
      ensures distance < WORD && Walking(c, AlignDone(len, distance), goal)
    {
      hide Walking, SpecWidth;
      distance := DecodeSlot(c, goal, len);
      if distance >= 4 {
        var posSlot := distance;
        var numDirectBits := distance / 2 - 1;
        distance := 2 + distance % 2;
        if posSlot < 14 {
          distance := DecodeSpec(c, goal, len, posSlot, numDirectBits);
        } else {
          numDirectBits := numDirectBits - 4;
          while numDirectBits != 0
            invariant 0 <= numDirectBits <= 26
            invariant numDirectBits > 0 ==> Walking(c, DirectBits(len, distance, numDirectBits), goal)
            invariant numDirectBits == 0 ==> Walking(c, AlignTree(len, distance * 16, 1, 1), goal)
          {
            var bit := DecodeDirectBit(c, DirectBits(len, distance, numDirectBits), goal);
            distance := distance * 2 + bit;
            numDirectBits := numDirectBits - 1;
          }
          distance := DecodeAlign(c, goal, len, distance * 16);
        }
      }
    }

    /** At the end of the walk the decoder holds the goal. */
    lemma Arrived(c: Context, symbol: Symbol, goal: Outcome)
      requires Walking(c, Decoded(symbol), goal)
      ensures ValidSymbol(symbol) && CoderOk() && goal == Outcome(symbol, probs[..], CoderRc())
    {
    }

    lemma SpecStart(c: Context, len: nat, posSlot: nat, goal: Outcome)
      requires 4 <= posSlot < 14 && Walking(c, SlotDone(len, posSlot), goal)
      ensures SpecWidth(posSlot) == Pow2(posSlot / 2 - 1)
      ensures Walking(c, SpecTree(len, posSlot, (2 + posSlot % 2) * SpecWidth(posSlot), 1, 1), goal)
    {
      hide Walking;
      assert Pow2(1) == 2 && Pow2(2) == 4 && Pow2(3) == 8 && Pow2(4) == 16 && Pow2(5) == 32;
    }

    method DecodeSpec(ghost c: Context, ghost goal: Outcome, len: nat, posSlot: nat, directBits: nat)
      returns (distance: nat)
      requires 4 <= posSlot < 14 && directBits == posSlot / 2 - 1
      requires Walking(c, SlotDone(len, posSlot), goal)
      modifies this`range, this`code, this`buf, probs
      ensures distance < WORD - 1 && Walking(c, Decoded(Match(len, distance)), goal)
    {
      hide Walking;
      SpecStart(c, len, posSlot, goal);
      hide SpecWidth;
      var numDirectBits := directBits;
      distance := (2 + posSlot % 2) * Pow2(directBits);
      var prob := SPEC_POS + distance - posSlot - 1;
      var mask: nat := 1;
      var i: nat := 1;
      while numDirectBits != 0
        invariant 0 <= numDirectBits <= directBits && mask > 0 && mask * Pow2(numDirectBits) == SpecWidth(posSlot)
        invariant numDirectBits > 0 ==> Walking(c, SpecTree(len, posSlot, distance, mask, i), goal)
        invariant numDirectBits == 0 ==> Walking(c, Decoded(Match(len, distance)), goal)
        decreases numDirectBits
      {
        var bit := DecodeBit(c, SpecTree(len, posSlot, distance, mask, i), goal, prob + i);
        // the bit at `mask` is still clear, so adding it sets it
        distance := distance + bit * mask;
        i := i + i + bit;
        mask := mask * 2;
        numDirectBits := numDirectBits - 1;
      }
      Arrived(c, Match(len, distance), goal);
    }

    method DecodeAlign(ghost c: Context, ghost goal: Outcome, len: nat, high: nat) returns (distance: nat)
      requires Walking(c, AlignTree(len, high, 1, 1), goal)
      modifies this`range, this`code, this`buf, probs
      ensures distance < WORD && Walking(c, AlignDone(len, distance), goal)
    {
      hide Walking;
      distance := high;
      var mask: nat := 1;
      var i: nat := 1;
      while mask < 16
        invariant mask == 1 || mask == 2 || mask == 4 || mask == 8 || mask == 16
        invariant mask < 16 ==> Walking(c, AlignTree(len, distance, mask, i), goal)
        invariant mask == 16 ==> Walking(c, AlignDone(len, distance), goal)
        decreases 16 - mask
      {
        var bit := DecodeBit(c, AlignTree(len, distance, mask, i), goal, ALIGN + i);
        distance := distance + bit * mask;
        i := i + i + bit;
        mask := mask * 2;
      }
      if distance != WORD - 1 {
        Arrived(c, Match(len, distance), goal);
      }
    }

    method DecodePlainLiteral(ghost c: Context, ghost goal: Outcome, prob: nat) returns (symbol: nat)
      requires Walking(c, PlainLiteral(1), goal) && prob == c.litBase
      modifies this`range, this`code, this`buf, probs
      ensures Walking(c, Decoded(Literal(symbol % 256)), goal)
    {
      hide Walking;
      symbol := 1;
      while symbol < 0x100
        invariant 1 <= symbol
        invariant symbol < 0x100 ==> Walking(c, PlainLiteral(symbol), goal)
        invariant symbol >= 0x100 ==> Walking(c, Decoded(Literal(symbol % 256)), goal)
        decreases 0x100 - symbol
      {
        var bit := DecodeBit(c, PlainLiteral(symbol), goal, prob + symbol);
        symbol := symbol + symbol + bit;
      }
    }

    method DecodeMatchedLiteral(ghost c: Context, ghost goal: Outcome, prob: nat, byte: Byte) returns (symbol: nat)
      requires Walking(c, MatchedLiteral(256, byte, 1), goal) && prob == c.litBase
      modifies this`range, this`code, this`buf, probs
      ensures Walking(c, Decoded(Literal(symbol % 256)), goal)
    {
      hide Walking;
      var matchByte: nat := byte;
      var offs := 0x100;
      symbol := 1;
      while symbol < 0x100
        invariant 1 <= symbol && (offs == 0 || offs == 0x100)
        invariant symbol < 0x100 ==> Walking(c, MatchedLiteral(offs, matchByte, symbol), goal)
        invariant symbol >= 0x100 ==> Walking(c, Decoded(Literal(symbol % 256)), goal)
        decreases 0x100 - symbol
      {
        ghost var ph := MatchedLiteral(offs, matchByte, symbol);
        matchByte := matchByte * 2;
        var bit := if (matchByte / 256) % 2 == 1 then offs else 0;  // matchByte & offs
        var answer := DecodeBit(c, ph, goal, prob + offs + bit + symbol);
        symbol := symbol + symbol + answer;
        offs := if answer == 0 then offs - bit else bit;
      }
    }

    // ----- The circular dictionary.

    /** The slot `d` bytes behind `dicPos`. */
    function SlotOf(pos: nat, d: nat): nat
      requires 1 <= d <= dic.Length && pos <= dic.Length
      ensures SlotOf(pos, d) < dic.Length
    {
      if pos < d then pos - d + dic.Length else pos - d
    }

    /** The dictionary holds the last bytes of the output. */
    ghost predicate Remembers()
      reads this`dicPos, this`out, dic
    {
      && dicPos <= dic.Length && dic.Length > 0
      && forall d :: 1 <= d <= dic.Length && d <= |out| ==> dic[SlotOf(dicPos, d)] == out[|out| - d]
    }

    ghost predicate RepOk(rep: nat)
      reads this`out
    {
      1 <= rep <= dic.Length && rep <= Max(1, |out|)
    }

    /** What never changes: the table and the dictionary have the sizes of the properties. */
    ghost predicate Fixed()
    {
      && p.Valid() && probs.Length == p.NumProbs() && dic.Length == p.dicSize
      && dic as object != probs as object
    }

    /** The dictionary, the counters and the distances describe the output. */
    ghost predicate Shape()
      reads this`dicPos, this`out, this`processedPos, this`checkDicSize, this`state, this`remainLen
      reads this`rep0, this`rep1, this`rep2, this`rep3, dic
    {
      && Remembers()
      && processedPos == Wrap(|out|)
      && (checkDicSize == 0 || checkDicSize == p.dicSize)
      && (checkDicSize == 0 ==> |out| <= p.dicSize)
      && (checkDicSize != 0 ==> |out| >= p.dicSize)
      && state < 12 && (state >= 7 ==> out != [])
      && RepOk(rep0) && RepOk(rep1) && RepOk(rep2) && RepOk(rep3)
      && (0 < remainLen < MATCH_SPEC_LEN_START ==> out != [])
    }

    ghost predicate Valid()
      reads this`dicPos, this`out, this`processedPos, this`checkDicSize, this`state, this`remainLen
      reads this`rep0, this`rep1, this`rep2, this`rep3, dic
      reads this`range, this`code, this`buf, this`input, probs
    {
      Fixed() && CoderOk() && Shape()
    }

    /** dic[dicPos++] = b */
    method PutByte(b: Byte)
      requires Remembers() && dicPos < dic.Length
      modifies this`dicPos, this`out, dic
      ensures Remembers() && dicPos == old(dicPos) + 1 && out == old(out) + [b]
    {
      ghost var before := out;
      ghost var pos := dicPos;
      dic[dicPos] := b;
      dicPos := dicPos + 1;
      out := out + [b];
      forall d | 1 <= d <= dic.Length && d <= |out|
        ensures dic[SlotOf(dicPos, d)] == out[|out| - d]
      {
        if d > 1 {
          assert SlotOf(dicPos, d) == SlotOf(pos, d - 1);
          assert old(dic[SlotOf(pos, d - 1)]) == before[|before| - (d - 1)];
        }
      }
    }

    /** dic[dicPos++] = dic[pos], where `pos` is `rep0` bytes behind. */
    method PutAgain(pos: nat)
      requires Remembers() && dicPos < dic.Length
      requires 1 <= rep0 <= dic.Length && rep0 <= |out| && pos == SlotOf(dicPos, rep0)
      modifies this`dicPos, this`out, dic
      ensures Remembers() && dicPos == old(dicPos) + 1
      ensures out == old(out) + [old(out[|out| - rep0])]
    {
      PutByte(dic[pos]);
    }

    method CopyForward(pos: nat, curLen: nat)
      requires Remembers() && dicPos + curLen <= dic.Length && pos + curLen <= dic.Length && curLen > 0
      requires 1 <= rep0 <= dic.Length && rep0 <= |out| && pos == SlotOf(dicPos, rep0)
      modifies this`dicPos, this`out, dic
      ensures Remembers() && dicPos == old(dicPos) + curLen
      ensures out == Copy(old(out), rep0, curLen)
    {
      hide Remembers, Copy;
      ghost var before := out;
      var src := pos - dicPos;
      var k := 0;
      while k != curLen
        invariant 0 <= k <= curLen && dicPos == old(dicPos) + k && |out| >= |before|
        invariant Remembers() && Copy(out, rep0, curLen - k) == Copy(before, rep0, curLen)
      {
        assert dicPos + src == SlotOf(dicPos, rep0);
        CopyStep(out, rep0, curLen - k);
        PutAgain(dicPos + src);
        k := k + 1;
      }
      CopyNone(out, rep0);
    }

    method CopyWrapped(start: nat, curLen: nat)
      requires Remembers() && dicPos + curLen <= dic.Length && curLen > 0
      requires 1 <= rep0 <= dic.Length && rep0 <= |out| && start == SlotOf(dicPos, rep0)
      modifies this`dicPos, this`out, dic
      ensures Remembers() && dicPos == old(dicPos) + curLen
      ensures out == Copy(old(out), rep0, curLen)
    {
      hide Remembers, Copy;
      ghost var before := out;
      var pos := start;
      var k := 0;
      while k != curLen
        invariant 0 <= k <= curLen && dicPos == old(dicPos) + k && |out| >= |before|
        invariant dicPos < dic.Length ==> pos == SlotOf(dicPos, rep0)
        invariant Remembers() && Copy(out, rep0, curLen - k) == Copy(before, rep0, curLen)
      {
        CopyStep(out, rep0, curLen - k);
        PutAgain(pos);
        pos := pos + 1;
        if pos == dic.Length {
          pos := 0;
        }
        k := k + 1;
      }
      CopyNone(out, rep0);
    }

    /** Copies up to `len` bytes from `rep0` back, stopping at the limit; what is left over
        stays in `remainLen`. */
    method CopyMatch(limit: nat, len: nat)
      requires Remembers() && dicPos < limit <= dic.Length
      requires 1 <= rep0 <= dic.Length && rep0 <= |out| && len > 0
      modifies this`dicPos, this`processedPos, this`out, this`remainLen, dic
      ensures Remembers() && |out| >= old(|out|)
      ensures Copy(out, rep0, remainLen) == Copy(old(out), rep0, len)
      ensures dicPos == old(dicPos) + |out| - old(|out|) && old(dicPos) < dicPos <= limit
      ensures 0 < remainLen ==> dicPos == limit
      ensures remainLen < len
      ensures processedPos == Wrap(old(processedPos) + |out| - old(|out|))
      ensures old(out) <= out
    {
      hide Wrap, Remembers, Copy;
      var rem := limit - dicPos;
      var curLen := if rem < len then rem else len;
      var pos := (dicPos - rep0) + (if dicPos < rep0 then dic.Length else 0);
      CopySplit(out, rep0, curLen, len - curLen);
      processedPos := Wrap(processedPos + curLen);
      remainLen := len - curLen;
      if pos + curLen <= dic.Length {
        CopyForward(pos, curLen);
      } else {
        CopyWrapped(pos, curLen);
      }
    }

    // ----- One symbol.

    ghost function Pending(): nat
      reads this`remainLen
    {
      if remainLen < MATCH_SPEC_LEN_START then remainLen else 0
    }

    /** The output with the match in progress completed. */
    ghost function Completed(): seq<Byte>
      reads this`out, this`rep0, this`remainLen
      requires Pending() > 0 ==> 1 <= rep0 <= |out|
    {
      if Pending() == 0 then out else Copy(out, rep0, Pending())
    }

    /** The state of the abstract machine with a given input still to be read. */
    ghost function AbsOn(rest: seq<Byte>): Lz
      reads this`out, this`state, this`rep0, this`rep1, this`rep2, this`rep3, this`remainLen
      reads this`range, this`code, probs
      requires Pending() > 0 ==> 1 <= rep0 <= |out|
    {
      Lz(Completed(), state, rep0, rep1, rep2, rep3, probs[..], Rc(range, code, rest))
    }

    /** The state of the abstract machine, before its final normalisation. */
    ghost function Abs(): Lz
      reads this`out, this`state, this`rep0, this`rep1, this`rep2, this`rep3, this`remainLen
      reads this`range, this`code, this`buf, this`input, probs
      requires buf <= |input| && (Pending() > 0 ==> 1 <= rep0 <= |out|)
    {
      AbsOn(input[buf..])
    }

    lemma AbsValid()
      requires Valid() && Normalize(CoderRc()).Some?
      ensures Pending() > 0 ==> 1 <= rep0 <= |out|
      ensures Norm(Abs()).Valid(p)
    {
      hide Remembers, Copy;
    }

    /** processedPos & mask, although processedPos wraps. */
    lemma MaskedPos(k: nat)
      requires k <= 32
      ensures LowBits(Wrap(|out|), k) == LowBits(|out|, k)
    {
      hide Pow2;
      Pow2Add(k, 32 - k);
      Pow2Word();
      ModOfMod(|out|, Pow2(k), Pow2(32 - k));
    }

    method PreviousByte() returns (b: Byte)
      requires Remembers() && out != []
      ensures b == out[|out| - 1]
    {
      b := dic[(if dicPos == 0 then dic.Length else dicPos) - 1];
      assert b == dic[SlotOf(dicPos, 1)];
    }

    /** Before the dictionary has been filled once, the wrapping counter tells whether
        anything has been produced. */
    lemma NothingYet()
      requires Fixed() && Shape()
      ensures out == [] <==> checkDicSize == 0 && processedPos == 0
    {
      hide Wrap, Remembers;
    }

    /** The slot of the literal coder chosen by the position and the previous byte. */
    method LiteralProb() returns (prob: nat)
      requires Fixed() && Shape()
      ensures prob == LITERAL + LIT_SIZE * LitIndex(p, out)
    {
      hide Wrap, Remembers, Pow2, Digits, LowBits, HighBits;
      prob := LITERAL;
      NothingYet();
      if checkDicSize != 0 || processedPos != 0 {
        var prev := PreviousByte();
        MaskedPos(p.lp);
        var hi := LowBits(processedPos, p.lp);
        var lo := HighBits(prev, 8 - p.lc);
        prob := prob + LIT_SIZE * Digits(hi, Pow2(p.lc), lo);
      }
    }

    method MatchByte() returns (b: Byte)
      requires Remembers() && 1 <= rep0 <= |out| && rep0 <= dic.Length
      ensures b == out[|out| - rep0]
    {
      b := dic[(dicPos - rep0) + (if dicPos < rep0 then dic.Length else 0)];
      assert b == dic[SlotOf(dicPos, rep0)];
    }

    method EmitLiteral(ghost limit: nat, b: Byte)
      requires Fixed() && Shape() && remainLen == 0 && Room(limit) && dicPos < limit
      modifies this`dicPos, this`out, this`processedPos, this`state, dic
      ensures Shape() && out == old(out) + [b] && dicPos == old(dicPos) + 1
      ensures state == LitState(old(state))
      ensures |out| - dicPos == old(|out| - dicPos)
      ensures old(out) <= out
    {
      hide Wrap, Remembers;
      WrapAdd(|out|, 1);
      state := if state < 4 then 0 else if state < 10 then state - 3 else state - 6;
      PutByte(b);
      processedPos := Wrap(processedPos + 1);
    }

    /** A literal, with the table its context chooses. */
    method DecodeLiteral(ghost c: Context, ghost g: Outcome, ghost s: Lz, ghost limit: nat)
      requires Fixed() && Shape() && remainLen == 0 && Room(limit) && dicPos < limit
      requires Same(s) && c == ContextOf(p, s)
      requires Walking(c, Advance(c, AskMatch, 0), g)
      modifies this`range, this`code, this`buf, probs, this`dicPos, this`out, this`processedPos, this`state, dic
      ensures Valid() && Apply(p, s, g) == Next(Abs())
      ensures dicPos == old(dicPos) + 1
      ensures |out| - dicPos == old(|out| - dicPos)
      ensures old(out) <= out
    {
      hide Walking, ContextOf, LitIndex, Shape, CoderOk;
      var symbol;
      var prob := LiteralProb();
      LiteralContext(s);
      if state < 7 {
        symbol := DecodePlainLiteral(c, g, prob);
      } else {
        OutputSeen();
        var matchByte := MatchByte();
        symbol := DecodeMatchedLiteral(c, g, prob, matchByte);
      }
      Arrived(c, Literal(symbol % 256), g);
      EmitLiteral(limit, symbol % 256);
    }

    lemma OutputSeen()
      requires Shape() && state >= 7
      ensures out != [] && 1 <= rep0 <= |out| && rep0 <= dic.Length && Remembers()
    {
      hide Remembers;
    }

    /** `s` has the output, state and distances of the decoder; its table and coder are free. */
    ghost predicate Same(s: Lz)
      reads this`out, this`state, this`rep0, this`rep1, this`rep2, this`rep3
    {
      s.out == out && s.state == state && s.rep0 == rep0 && s.rep1 == rep1 && s.rep2 == rep2 && s.rep3 == rep3
    }

    /** While the dictionary has not been filled once, the limit keeps it from filling. */
    ghost predicate Room(limit: nat)
      reads this`checkDicSize, this`out, this`dicPos
    {
      dicPos <= limit <= dic.Length && (checkDicSize == 0 ==> |out| + limit - dicPos <= p.dicSize)
    }

    method EmitShortRep(ghost limit: nat)
      requires Fixed() && Shape() && remainLen == 0 && Room(limit) && dicPos < limit && out != []
      modifies this`dicPos, this`out, this`processedPos, this`state, dic
      ensures Shape() && out == Copy(old(out), rep0, 1) && dicPos == old(dicPos) + 1
      ensures state == if old(state) < 7 then 9 else 11
      ensures |out| - dicPos == old(|out| - dicPos)
      ensures old(out) <= out
    {
      hide Wrap, Remembers, Copy;
      CopyOne(out, rep0);
      WrapAdd(|out|, 1);
      PutAgain((dicPos - rep0) + (if dicPos < rep0 then dic.Length else 0));
      processedPos := Wrap(processedPos + 1);
      state := if state < 7 then 9 else 11;
    }

    /** Writes a match from `newRep0` back, as far as the limit allows. */
    method EmitMatch(limit: nat, len: nat, newState: nat, r0: nat, r1: nat, r2: nat, r3: nat)
      requires Fixed() && Shape() && remainLen == 0 && Room(limit) && dicPos < limit && out != []
      requires 0 < len < MATCH_SPEC_LEN_START && newState < 12
      requires RepOk(r0) && RepOk(r1) && RepOk(r2) && RepOk(r3)
      modifies this`dicPos, this`out, this`processedPos, this`state, this`remainLen, dic
      modifies this`rep0, this`rep1, this`rep2, this`rep3
      ensures Shape() && remainLen < len && (remainLen > 0 ==> dicPos == limit)
      ensures rep0 == r0 && rep1 == r1 && rep2 == r2 && rep3 == r3 && state == newState
      ensures r0 <= |out| && Copy(out, r0, remainLen) == Copy(old(out), r0, len)
      ensures old(dicPos) < dicPos <= limit
      ensures |out| - dicPos == old(|out| - dicPos)
      ensures old(out) <= out
    {
      hide Wrap, Remembers, Copy;
      ghost var n := |out|;
      rep0, rep1, rep2, rep3 := r0, r1, r2, r3;
      state := newState;
      CopyMatch(limit, len);
      WrapAdd(n, |out| - n);
    }

    lemma LiteralContext(s: Lz)
      requires p.lc <= 8
      requires s.out == out && s.rep0 == rep0 && s.state == state
      ensures ContextOf(p, s).litBase == LITERAL + LIT_SIZE * LitIndex(p, out)
      ensures ContextOf(p, s).state == state
      ensures 1 <= rep0 <= |out| ==> ContextOf(p, s).matchByte == out[|out| - rep0]
      ensures ContextOf(p, s).posState == LowBits(|out|, p.pb)
    {
    }

    /** Which earlier distance is reused; a short repeat is the answer 4. */
    method DecodeRepIndex(ghost c: Context, ghost g: Outcome, posState: nat) returns (which: nat)
      requires Walking(c, AskG0, g) && posState == c.posState && state == c.state
      modifies this`range, this`code, this`buf, probs
      ensures which <= 4
      ensures which == 4 ==> Walking(c, Decoded(ShortRep), g)
      ensures which < 4 ==> Walking(c, LenChoice(OldMatch(which)), g)
    {
      hide Walking;
      var g0 := DecodeBit(c, AskG0, g, IS_REP_G0 + state);
      if g0 == 0 {
        var long := DecodeBit(c, AskLong, g, IS_REP0_LONG + 16 * state + posState);
        return if long == 0 then 4 else 0;
      }
      var g1 := DecodeBit(c, AskG1, g, IS_REP_G1 + state);
      if g1 == 0 {
        return 1;
      }
      var g2 := DecodeBit(c, AskG2, g, IS_REP_G2 + state);
      which := 2;
      which := which + g2;
    }

    method ReorderReps(which: nat, ghost s: Lz) returns (r0: nat, r1: nat, r2: nat, r3: nat)
      requires which < 4 && Same(s)
      ensures r0 == Rotated(s, which).rep0 && r1 == Rotated(s, which).rep1
      ensures r2 == Rotated(s, which).rep2 && r3 == Rotated(s, which).rep3
    {
      r0, r1, r2, r3 := rep0, rep1, rep2, rep3;
      if which != 0 {
        var distance;
        if which == 1 {
          distance := r1;
        } else {
          if which == 2 {
            distance := r2;
          } else {
            distance := r3;
            r3 := r2;
          }
          r2 := r1;
        }
        r1 := r0;
        r0 := distance;
      }
    }

    method DecodeLongRep(ghost c: Context, ghost g: Outcome, ghost s: Lz, limit: nat, posState: nat, which: nat)
      requires Fixed() && Shape() && remainLen == 0 && Room(limit) && dicPos < limit && out != []
      requires Same(s) && posState == c.posState && which < 4
      requires Walking(c, LenChoice(OldMatch(which)), g)
      modifies this`range, this`code, this`buf, probs
      modifies this`dicPos, this`out, this`processedPos, this`state, this`remainLen, dic
      modifies this`rep0, this`rep1, this`rep2, this`rep3
      ensures Valid() && remainLen < MATCH_SPEC_LEN_START
      ensures Apply(p, s, g) == Next(Abs())
      ensures old(dicPos) < dicPos <= limit && (remainLen > 0 ==> dicPos == limit)
      ensures |out| - dicPos == old(|out| - dicPos)
      ensures old(out) <= out
    {
      hide Walking, Shape, CoderOk, Copy, Apply, Remembers;
      RepsSeen();
      var len := DecodeLength(c, g, OldMatch(which), REP_LEN_CODER, posState);
      Arrived(c, LongRep(which, len), g);
      ApplyLongRep(p, s, g, which, len);
      var r0, r1, r2, r3 := ReorderReps(which, s);
      EmitMatch(limit, len + MATCH_MIN_LEN, if state < 7 then 8 else 11, r0, r1, r2, r3);
    }

    /** A repeat of one of the last four distances. */
    method DecodeRep(ghost c: Context, ghost g: Outcome, ghost s: Lz, limit: nat, posState: nat)
      requires Fixed() && Shape() && remainLen == 0 && Room(limit) && dicPos < limit && out != []
      requires Same(s) && posState == c.posState && state == c.state
      requires Walking(c, AskG0, g)
      modifies this`range, this`code, this`buf, probs
      modifies this`dicPos, this`out, this`processedPos, this`state, this`remainLen, dic
      modifies this`rep0, this`rep1, this`rep2, this`rep3
      ensures Valid() && remainLen < MATCH_SPEC_LEN_START
      ensures Apply(p, s, g) == Next(Abs())
      ensures old(dicPos) < dicPos <= limit && (remainLen > 0 ==> dicPos == limit)
      ensures |out| - dicPos == old(|out| - dicPos)
      ensures old(out) <= out
    {
      hide Walking, Shape, CoderOk, Copy, Apply, Remembers;
      RepsSeen();
      var which := DecodeRepIndex(c, g, posState);
      if which == 4 {
        Arrived(c, ShortRep, g);
        ApplyShortRep(p, s, g);
        EmitShortRep(limit);
      } else {
        DecodeLongRep(c, g, s, limit, posState, which);
      }
    }

    lemma RepsSeen()
      requires Shape()
      ensures RepOk(rep0) && RepOk(rep1) && RepOk(rep2) && RepOk(rep3)
      ensures checkDicSize == 0 || checkDicSize == p.dicSize
      ensures checkDicSize == 0 ==> |out| <= p.dicSize && (p.Valid() ==> processedPos == |out|)
      ensures checkDicSize != 0 ==> |out| >= p.dicSize
      ensures state < 12 && processedPos == Wrap(|out|)
    {
      hide Wrap, Remembers;
    }

    /** Checks a new distance against what has been produced and writes the match. */
    method AcceptMatch(ghost g: Outcome, ghost s: Lz, limit: nat, len: nat, distance: nat) returns (res: Res)
      requires Fixed() && Shape() && remainLen == 0 && Room(limit) && Same(s)
      requires CoderOk() && g == Outcome(Match(len, distance), probs[..], CoderRc()) && len < 272
      modifies this`dicPos, this`out, this`processedPos, this`state, this`remainLen, dic
      modifies this`rep0, this`rep1, this`rep2, this`rep3
      ensures Valid() && remainLen < MATCH_SPEC_LEN_START
      ensures res.Ok? ==>
                && Apply(p, s, g) == Next(Abs()) && old(dicPos) < dicPos <= limit
                && (remainLen > 0 ==> dicPos == limit)
      ensures res.ErrorData? ==> Apply(p, s, g).DataError? || (dicPos == limit && Apply(p, s, g).Next?)
      ensures res.ErrorData? ==> out == old(out) && dicPos == old(dicPos)
      ensures |out| - dicPos == old(|out| - dicPos)
      ensures old(out) <= out
    {
      hide Wrap, Walking, Shape, CoderOk, Copy, Apply, Remembers;
      RepsSeen();
      ApplyMatch(p, s, g, len, distance);
      if checkDicSize == 0 {
        if distance >= processedPos {
          return ErrorData;
        }
      } else if distance >= checkDicSize {
        return ErrorData;
      }
      if limit == dicPos {
        return ErrorData;
      }
      EmitMatch(limit, len + MATCH_MIN_LEN, if state < 7 then 7 else 10, distance + 1, rep0, rep1, rep2);
      return Ok;
    }

    /** A match with a new distance, or the end marker. */
    method DecodeMatch(ghost c: Context, ghost g: Outcome, ghost s: Lz, limit: nat, posState: nat) returns (res: Res)
      requires Fixed() && Shape() && remainLen == 0 && Room(limit)
      requires Same(s) && posState == c.posState && state == c.state
      requires Walking(c, LenChoice(NewMatch), g)
      modifies this`range, this`code, this`buf, probs
      modifies this`dicPos, this`out, this`processedPos, this`state, this`remainLen, dic
      modifies this`rep0, this`rep1, this`rep2, this`rep3
      ensures Valid()
      ensures res.Ok? && remainLen < MATCH_SPEC_LEN_START ==>
        && Apply(p, s, g) == Next(Abs()) && old(dicPos) < dicPos <= limit && (remainLen > 0 ==> dicPos == limit)
      ensures res.Ok? && remainLen >= MATCH_SPEC_LEN_START ==>
        Apply(p, s, g) == Finished(Abs()) && out == old(out) && dicPos == old(dicPos)
      ensures res.ErrorData? ==> Apply(p, s, g).DataError? || (dicPos == limit && Apply(p, s, g).Next?)
      ensures res.ErrorData? ==> out == old(out) && dicPos == old(dicPos)
      ensures |out| - dicPos == old(|out| - dicPos)
      ensures old(out) <= out
    {
      hide Walking, Shape, CoderOk, Copy, Apply, Remembers;
      var len := DecodeLength(c, g, NewMatch, LEN_CODER, posState);
      var distance := DecodeDistance(c, g, len);
      if distance == WORD - 1 {
        Arrived(c, Marker(len), g);
        ApplyMarker(p, s, g);
        MarkEnd(len);
        return Ok;
      }
      Arrived(c, Match(len, distance), g);
      res := AcceptMatch(g, s, limit, len, distance);
    }

    method MarkEnd(len: nat)
      requires Shape()
      modifies this`remainLen
      ensures Shape() && remainLen == len + MATCH_SPEC_LEN_START
    {
      hide Remembers;
      remainLen := len + MATCH_SPEC_LEN_START;
    }

    /** The next symbol, as far as the input at hand shows it. */
    ghost function NextSymbol(): Option<Outcome>
      reads this, probs, dic
      requires Valid()
    {
      if Normalize(CoderRc()).None? then None
      else
        AbsValid();
        ContextValid(p, Norm(Abs()));
        RunSymbol(ContextOf(p, Norm(Abs())), probs[..], Normalize(CoderRc()).value, true)
    }

    ghost predicate MatchNext()
      reads this, probs, dic
      requires Valid()
    {
      NextSymbol().Some? && KindOf(NextSymbol().value.symbol) == MatchKind
    }

    lemma AskMatchReady(c: Context)
      ensures ValidPhase(c, AskMatch)
    {
    }

    lemma StartWalk() returns (c: Context, g: Outcome)
      requires Valid() && remainLen == 0 && NextSymbol().Some?
      ensures (KindOf(g.symbol) == MatchKind) == MatchNext()
      ensures Normalize(CoderRc()).Some? && Normalize(g.rc).Some?
      ensures Norm(Abs()).Valid(p) && c == ContextOf(p, Abs())
      ensures Walking(c, AskMatch, g)
      ensures Step(p, Norm(Abs())) == NormProgress(Apply(p, Abs(), g))
      ensures c.state == state && c.posState == LowBits(|out|, p.pb)
      ensures |g.rc.rest| <= |input| - buf
    {
      hide Shape, LitIndex, Copy, Advance, BitsLeft, ValidPhase, Ask, Run, Step, Apply;
      AbsValid();
      c := ContextOf(p, Abs());
      AskMatchReady(c);
      g := SymbolStart(p, Abs());
    }

    lemma WalkLeads(c: Context, ph: Phase, g: Outcome)
      requires Walking(c, ph, g) && Leads(ph).Some?
      ensures KindOf(g.symbol) == Leads(ph).value && CoderOk()
    {
      RunLeads(c, ph, probs[..], CoderRc(), true);
    }

    lemma EmptyRepIsError(s: Lz, g: Outcome)
      requires KindOf(g.symbol) == RepKind && s.out == []
      ensures Apply(p, s, g) == DataError
    {
    }

    method TestMatch(ghost c: Context, ghost g: Outcome, posState: nat) returns (bit: Bit)
      requires Walking(c, AskMatch, g) && state == c.state && posState == c.posState
      modifies this`range, this`code, this`buf, probs
      ensures CoderOk()
      ensures bit == 0 ==> Walking(c, Advance(c, AskMatch, 0), g) && KindOf(g.symbol) == LiteralKind
      ensures bit == 1 ==> Walking(c, AskRep, g)
    {
      hide Walking, CoderOk;
      bit := DecodeBit(c, AskMatch, g, IS_MATCH + 16 * state + posState);
      WalkOk(c, Advance(c, AskMatch, bit), g);
      if bit == 0 {
        WalkLeads(c, Advance(c, AskMatch, 0), g);
      }
    }

    method TestRep(ghost c: Context, ghost g: Outcome) returns (bit: Bit)
      requires Walking(c, AskRep, g) && state == c.state
      modifies this`range, this`code, this`buf, probs
      ensures CoderOk()
      ensures bit == 0 ==> Walking(c, LenChoice(NewMatch), g)
      ensures bit == 1 ==> Walking(c, AskG0, g) && KindOf(g.symbol) == RepKind
    {
      hide Walking, CoderOk;
      bit := DecodeBit(c, AskRep, g, IS_REP + state);
      WalkLeads(c, Advance(c, AskRep, bit), g);
    }

    lemma WalkOk(c: Context, ph: Phase, g: Outcome)
      requires Walking(c, ph, g)
      ensures CoderOk()
    {
    }

    /** The walk of one symbol and its effect, up to the limit. */
    method WalkSymbol(ghost c: Context, ghost g: Outcome, ghost s: Lz, limit: nat) returns (res: Res)
      requires Fixed() && Shape() && remainLen == 0 && Room(limit)
      requires Walking(c, AskMatch, g) && Same(s) && c == ContextOf(p, s)
      requires dicPos == limit ==> KindOf(g.symbol) == MatchKind
      modifies this`range, this`code, this`buf, probs
      modifies this`dicPos, this`out, this`processedPos, this`state, this`remainLen, dic
      modifies this`rep0, this`rep1, this`rep2, this`rep3
      ensures Valid()
      ensures res.Ok? && remainLen < MATCH_SPEC_LEN_START ==>
        && Apply(p, s, g) == Next(Abs()) && old(dicPos) < dicPos <= limit && (remainLen > 0 ==> dicPos == limit)
      ensures res.Ok? && remainLen >= MATCH_SPEC_LEN_START ==>
        Apply(p, s, g) == Finished(Abs()) && out == old(out) && dicPos == old(dicPos)
      ensures res.ErrorData? ==> Apply(p, s, g).DataError? || (old(dicPos) == limit && Apply(p, s, g).Next?)
      ensures |out| - dicPos == old(|out| - dicPos)
      ensures Room(limit)
      ensures dicPos >= old(dicPos)
      ensures old(out) <= out
    {
      hide Wrap, Walking, Shape, CoderOk, Apply, Abs, ContextOf, LowBits, Advance, KindOf, Remembers, RepOk;
      LiteralContext(s);
      RepsSeen();
      MaskedPos(p.pb);
      var posState := LowBits(processedPos, p.pb);
      var isMatch := TestMatch(c, g, posState);
      if isMatch == 0 {
        DecodeLiteral(c, g, s, limit);
        return Ok;
      }
      var isRep := TestRep(c, g);
      if isRep == 0 {
        res := DecodeMatch(c, g, s, limit, posState);
      } else {
        NothingYet();
        if checkDicSize == 0 && processedPos == 0 {
          EmptyRepIsError(s, g);
          return ErrorData;
        }
        DecodeRep(c, g, s, limit, posState);
        return Ok;
      }
    }

    /** One symbol, up to the limit: a step of the abstract machine. */
    method DecodeSymbol(limit: nat, ghost s0: Lz) returns (res: Res)
      requires Valid() && remainLen == 0 && Room(limit) && NextSymbol().Some?
      requires Normalize(CoderRc()).Some? && s0 == Norm(Abs()) && s0.Valid(p)
      requires dicPos == limit ==> MatchNext()
      modifies this`range, this`code, this`buf, probs
      modifies this`dicPos, this`out, this`processedPos, this`state, this`remainLen, dic
      modifies this`rep0, this`rep1, this`rep2, this`rep3
      ensures Valid()
      ensures res.Ok? ==> Normalize(CoderRc()).Some?
      ensures res.Ok? && remainLen < MATCH_SPEC_LEN_START ==>
        && Step(p, s0) == Next(Norm(Abs()))
        && old(dicPos) < dicPos <= limit && (remainLen > 0 ==> dicPos == limit)
      ensures res.Ok? && remainLen >= MATCH_SPEC_LEN_START ==>
        Step(p, s0) == Finished(Norm(Abs())) && dicPos == old(dicPos)
      ensures res.ErrorData? ==> Step(p, s0).DataError? || (old(dicPos) == limit && Step(p, s0).Next?)
      ensures |out| - dicPos == old(|out| - dicPos)
      ensures Room(limit)
      ensures dicPos >= old(dicPos)
      ensures res.Ok? ==> buf >= old(buf)
      ensures old(out) <= out
    {
      hide Walking, Shape, CoderOk, Copy, Step, ContextOf, NextSymbol, Apply, Run;
      StateSeen();
      ghost var s := Abs();
      ghost var c, g := StartWalk();
      ApplyCarries(p, s, g);
      res := WalkSymbol(c, g, s, limit);
    }

    lemma StateSeen()
      requires Valid()
      ensures buf <= |input| && range < WORD && code < WORD && range >= 0x1_0000 && p.lc <= 8
      ensures Pending() > 0 ==> 1 <= rep0 <= |out|
      ensures dicPos <= dic.Length == p.dicSize && p.Valid()
    {
    }

    /** Twenty bytes after the pending normalisation are enough for any symbol. */
    lemma InputEnough()
      requires Valid() && remainLen == 0
      requires |input| - buf >= REQUIRED_INPUT_MAX + 1 || (range >= TOP && |input| - buf >= REQUIRED_INPUT_MAX)
      ensures NextSymbol().Some?
    {
      hide Shape, Run, RunSymbol, LitIndex;
      AbsValid();
      var s := Norm(Abs());
      ContextValid(p, s);
      SymbolNeedsAtMostTwenty(ContextOf(p, s), s.probs, s.rc, true);
    }

    /** After `n` symbols from `s0` the machine is at `t`; the last one may be the end marker. */
    ghost predicate Reached(s0: Lz, n: nat, t: Lz)
      reads this, probs, dic
      requires p.Valid() && s0.Valid(p)
    {
      && Valid() && buf <= |input| && (Pending() > 0 ==> 1 <= rep0 <= |out|)
      && Normalize(CoderRc()).Some? && t == Norm(Abs())
      && StepsTo(s0, n, t, remainLen >= MATCH_SPEC_LEN_START)
    }

    ghost predicate StepsTo(s0: Lz, n: nat, t: Lz, done: bool)
      requires p.Valid() && s0.Valid(p)
    {
      hide Step;
      Steps(p, s0, n) == if done then Finished(t) else Next(t)
    }

    ghost predicate Fails(s0: Lz, n: nat)
      requires p.Valid() && s0.Valid(p)
    {
      hide Step;
      Steps(p, s0, n) == DataError
    }

    /** After `n` symbols there are more than `k` bytes of output. */
    ghost predicate Grows(s0: Lz, n: nat, k: nat)
      requires p.Valid() && s0.Valid(p)
    {
      hide Step;
      Steps(p, s0, n).Next? && |Steps(p, s0, n).s.out| > k
    }

    lemma GrowsOne(s0: Lz, n: nat, t: Lz)
      requires p.Valid() && s0.Valid(p) && StepsTo(s0, n, t, false)
      ensures t.Valid(p) && (Step(p, t).Next? ==> Grows(s0, n + 1, |t.out|))
    {
      hide Step;
      StepsOne(p, s0, n, t);
    }

    lemma ReachedStart()
      requires Valid() && range >= TOP
      ensures buf <= |input| && (Pending() > 0 ==> 1 <= rep0 <= |out|) && p.Valid() && Abs().Valid(p)
      ensures remainLen < MATCH_SPEC_LEN_START ==> Reached(Abs(), 0, Abs())
    {
      hide Shape, Step, Copy;
      StateSeen();
      AbsValid();
    }

    /** One more symbol. */
    method DecodeNext(limit: nat, ghost s0: Lz, ghost n: nat, ghost t: Lz) returns (res: Res, ghost t1: Lz)
      requires p.Valid() && s0.Valid(p) && Reached(s0, n, t)
      requires remainLen == 0 && Room(limit) && NextSymbol().Some?
      requires dicPos == limit ==> MatchNext()
      modifies this`range, this`code, this`buf, probs
      modifies this`dicPos, this`out, this`processedPos, this`state, this`remainLen, dic
      modifies this`rep0, this`rep1, this`rep2, this`rep3
      ensures Valid() && Room(limit)
      ensures res.Ok? ==> Reached(s0, n + 1, t1) && dicPos >= old(dicPos)
      ensures res.Ok? && remainLen < MATCH_SPEC_LEN_START ==>
            old(dicPos) < dicPos && (remainLen > 0 ==> dicPos == limit)
      ensures res.ErrorData? ==> Fails(s0, n + 1) || (old(dicPos) == limit && Grows(s0, n + 1, |old(out)|))
      ensures dicPos >= old(dicPos)
      ensures res.Ok? ==> buf >= old(buf)
      ensures old(out) <= out
      ensures |out| - dicPos == old(|out| - dicPos)
    {
      hide Step, Steps, NextSymbol, Shape, CoderOk, Copy;
      StepsOne(p, s0, n, t);
      GrowsOne(s0, n, t);
      res := DecodeSymbol(limit, t);
      t1 := t;
      if res.Ok? {
        StateSeen();
        t1 := Norm(Abs());
      }
    }

    /** Decodes symbols until the limit or `bufLimit` is reached; at least one. */
    method DecodeReal(limit: nat, bufLimit: int, ghost s0: Lz) returns (res: Res, ghost n: nat)
      requires Valid() && remainLen == 0 && Room(limit) && NextSymbol().Some?
      requires range >= TOP && s0 == Abs() && s0.Valid(p)
      requires dicPos == limit ==> MatchNext()
      requires bufLimit <= buf || bufLimit <= |input| - REQUIRED_INPUT_MAX
      modifies this`range, this`code, this`buf, probs
      modifies this`dicPos, this`out, this`processedPos, this`state, this`remainLen, dic
      modifies this`rep0, this`rep1, this`rep2, this`rep3
      ensures Valid() && Room(limit) && old(dicPos) <= dicPos
      ensures res.Ok? ==> range >= TOP && Reached(s0, n, Abs()) && buf >= old(buf)
      ensures res.Ok? && remainLen < MATCH_SPEC_LEN_START ==>
        (dicPos == limit || buf >= bufLimit) && old(dicPos) < dicPos && (remainLen > 0 ==> dicPos == limit)
      ensures res.ErrorData? ==> Fails(s0, n) || (old(dicPos) == limit && Grows(s0, n, |old(out)|))
      ensures old(out) <= out
      ensures |out| - dicPos == old(|out| - dicPos)
      ensures n >= 1
    {
      hide Reached, Fails, Grows, NextSymbol, MatchNext, Valid, Abs;
      ReachedStart();
      ghost var t;
      n := 1;
      res, t := DecodeNext(limit, s0, 0, s0);
      while res.Ok? && remainLen < MATCH_SPEC_LEN_START && dicPos < limit && buf < bufLimit
        invariant Valid() && Room(limit) && old(dicPos) <= dicPos && old(out) <= out
        invariant |out| - dicPos == old(|out| - dicPos)
        invariant n >= 1
        invariant res.Ok? ==> Reached(s0, n, t) && old(buf) <= buf
        invariant res.Ok? && remainLen < MATCH_SPEC_LEN_START ==>
              old(dicPos) < dicPos && (remainLen > 0 ==> dicPos == limit)
        invariant res.ErrorData? ==> Fails(s0, n) || (old(dicPos) == limit && Grows(s0, n, |old(out)|))
        decreases limit - dicPos, if remainLen < MATCH_SPEC_LEN_START && res.Ok? then 1 else 0
      {
        InputEnough();
        res, t := DecodeNext(limit, s0, n, t);
        n := n + 1;
      }
      if res.Ok? {
        FinishNormalize(s0, n, t);
      }
    }

    method FinishNormalize(ghost s0: Lz, ghost n: nat, ghost t: Lz)
      requires p.Valid() && s0.Valid(p) && Reached(s0, n, t)
      modifies this`range, this`code, this`buf
      ensures Valid() && range >= TOP && buf >= old(buf)
      ensures Reached(s0, n, Abs()) && Abs() == t
    {
      hide Shape, Copy, Steps;
      NormalizeRange();
    }

    // ----- The tail of a match, and runs of symbols.

    /** Between runs, the dictionary counts as filled exactly when it has been filled once. */
    ghost predicate Settled()
      reads this`checkDicSize, this`out
    {
      checkDicSize == 0 ==> |out| < p.dicSize
    }

    method CopyTail(len: nat)
      requires Fixed() && Remembers() && dicPos + len <= dic.Length
      requires 1 <= rep0 <= dic.Length && rep0 <= |out|
      modifies this`dicPos, this`out, dic
      ensures Remembers() && dicPos == old(dicPos) + len && out == Copy(old(out), rep0, len)
    {
      hide Remembers, Copy;
      ghost var before := out;
      var k := len;
      while k != 0
        invariant 0 <= k <= len && dicPos == old(dicPos) + len - k && |out| >= |before|
        invariant Remembers() && Copy(out, rep0, k) == Copy(before, rep0, len)
      {
        CopyStep(out, rep0, k);
        PutAgain((dicPos - rep0) + (if dicPos < rep0 then dic.Length else 0));
        k := k - 1;
      }
      CopyNone(out, rep0);
    }

    /** Writes what is left of a match, up to the limit. */
    method WriteRem(limit: nat)
      requires Fixed() && dicPos <= limit <= dic.Length
      requires remainLen != 0 ==> Shape() && Settled()
      modifies this`dicPos, this`out, this`processedPos, this`checkDicSize, this`remainLen, dic
      ensures old(remainLen) == 0 || old(remainLen) >= MATCH_SPEC_LEN_START ==>
        remainLen == old(remainLen) && dicPos == old(dicPos) && out == old(out) && dic[..] == old(dic[..])
        && processedPos == old(processedPos) && checkDicSize == old(checkDicSize)
      ensures 0 < old(remainLen) < MATCH_SPEC_LEN_START ==> Shape() && Settled() && remainLen < MATCH_SPEC_LEN_START
      ensures 0 < remainLen < MATCH_SPEC_LEN_START ==> dicPos == limit
      ensures Pending() > 0 ==> 1 <= rep0 <= |out|
      ensures Completed() == old(Completed())
      ensures old(dicPos) <= dicPos <= limit && |out| - dicPos == old(|out| - dicPos) && old(out) <= out
    {
      hide Copy, Remembers;
      if remainLen != 0 && remainLen < MATCH_SPEC_LEN_START {
        WriteTail(limit);
      }
    }

    ghost predicate Represents(s: Lz)
      reads this`out, this`state, this`rep0, this`rep1, this`rep2, this`rep3, this`remainLen
      reads this`range, this`code, this`buf, this`input, probs
    {
      buf <= |input| && (Pending() > 0 ==> 1 <= rep0 <= |out|) && Abs() == s
    }

    /** The tail of a match after a run: the abstract machine does not move. */
    method WriteRemRun(limit: nat, ghost t: Lz)
      requires Valid() && Settled() && dicPos <= limit <= dic.Length && Represents(t)
      modifies this`dicPos, this`out, this`processedPos, this`checkDicSize, this`remainLen, dic
      ensures Valid() && Settled() && Represents(t)
      ensures old(remainLen) == 0 || old(remainLen) >= MATCH_SPEC_LEN_START ==>
            remainLen == old(remainLen) && dicPos == old(dicPos)
      ensures 0 < old(remainLen) < MATCH_SPEC_LEN_START ==> remainLen < MATCH_SPEC_LEN_START
      ensures 0 < remainLen < MATCH_SPEC_LEN_START ==> dicPos == limit
      ensures old(dicPos) <= dicPos <= limit && |out| - dicPos == old(|out| - dicPos) && old(out) <= out
    {
      hide Copy, Remembers, RepOk, CoderOk;
      if remainLen != 0 && remainLen < MATCH_SPEC_LEN_START {
        WriteRem(limit);
      }
    }

    /** Counting `len` more bytes of output. */
    method CountTail(len: nat)
      requires Fixed() && Shape() && Settled() && len <= remainLen < MATCH_SPEC_LEN_START
      modifies this`processedPos, this`checkDicSize, this`remainLen
      ensures remainLen == old(remainLen) - len
      ensures processedPos == Wrap(|out| + len)
      ensures checkDicSize == 0 || checkDicSize == p.dicSize
      ensures if checkDicSize == 0 then |out| + len < p.dicSize else |out| + len >= p.dicSize
    {
      hide Wrap, Shape;
      RepsSeen();
      WrapAdd(|out|, len);
      if checkDicSize == 0 && p.dicSize - processedPos <= len {
        checkDicSize := p.dicSize;
      }
      processedPos := Wrap(processedPos + len);
      remainLen := remainLen - len;
    }

    method WriteTail(limit: nat)
      requires Fixed() && Shape() && Settled() && dicPos <= limit <= dic.Length
      requires 0 < remainLen < MATCH_SPEC_LEN_START && 1 <= rep0 <= |out|
      modifies this`dicPos, this`out, this`processedPos, this`checkDicSize, this`remainLen, dic
      ensures Shape() && Settled() && remainLen < MATCH_SPEC_LEN_START && (Pending() > 0 ==> 1 <= rep0 <= |out|)
      ensures Completed() == old(Completed())
      ensures 0 < remainLen ==> dicPos == limit
      ensures old(dicPos) <= dicPos <= limit && |out| - dicPos == old(|out| - dicPos) && old(out) <= out
    {
      hide Wrap, Remembers, Copy;
      RepsSeen();
      var len := remainLen;
      if limit - dicPos < len {
        len := limit - dicPos;
      }
      CopySplit(out, rep0, len, remainLen - len);
      CountTail(len);
      CopyNone(Copy(out, rep0, len), rep0);
      CopyTail(len);
    }

    lemma ReachedAdd(s0: Lz, n: nat, s: Lz, m: nat, t: Lz)
      requires p.Valid() && s0.Valid(p) && s.Valid(p) && StepsTo(s0, n, s, false)
      requires Reached(s, m, t)
      ensures Reached(s0, n + m, t)
    {
      hide Step, Shape, Copy, CoderOk;
      StepsAdd(p, s0, n, m);
    }

    lemma FailsAdd(s0: Lz, n: nat, s: Lz, m: nat)
      requires p.Valid() && s0.Valid(p) && s.Valid(p) && StepsTo(s0, n, s, false)
      requires Fails(s, m)
      ensures Fails(s0, n + m)
    {
      hide Step;
      StepsAdd(p, s0, n, m);
    }

    /** As far as the dictionary may be filled before its size starts to count. */
    method FirstLimit(limit: nat) returns (limit2: nat)
      requires Valid() && Settled() && dicPos <= limit <= dic.Length
      ensures dicPos <= limit2 <= limit && Room(limit2) && (limit2 == dicPos ==> limit == dicPos)
    {
      hide Wrap, Remembers;
      limit2 := limit;
      if checkDicSize == 0 {
        var rem := p.dicSize - processedPos;
        if limit - dicPos > rem {
          limit2 := dicPos + rem;
        }
      }
    }

    method NoteFilled(limit2: nat)
      requires Valid() && Room(limit2)
      modifies this`checkDicSize
      ensures Valid() && Settled()
    {
      hide Wrap, Remembers;
      if processedPos >= p.dicSize {
        checkDicSize := p.dicSize;
      }
    }

    lemma AbsReached(s0: Lz, n: nat) returns (t: Lz)
      requires Valid() && buf <= |input| && (Pending() > 0 ==> 1 <= rep0 <= |out|)
      requires p.Valid() && s0.Valid(p) && Reached(s0, n, Abs())
      ensures t == Abs() && StepsTo(s0, n, t, remainLen >= MATCH_SPEC_LEN_START)
    {
      hide StepsTo;
      t := Abs();
    }

    lemma ReachedAgain(s0: Lz, n: nat, t: Lz)
      requires Valid() && Represents(t) && range >= TOP
      requires p.Valid() && s0.Valid(p) && StepsTo(s0, n, t, remainLen >= MATCH_SPEC_LEN_START)
      ensures buf <= |input| && (Pending() > 0 ==> 1 <= rep0 <= |out|) && t == Abs() && Reached(s0, n, t)
    {
      hide StepsTo, Shape, Copy;
    }

    /** One round of the outer loop: a run of symbols and the tail of the last match. */
    method DecodeRound(limit: nat, bufLimit: int, ghost s0: Lz) returns (res: Res, ghost n: nat)
      requires Valid() && Settled() && remainLen == 0 && dicPos <= limit <= dic.Length && NextSymbol().Some?
      requires range >= TOP && s0 == Abs() && s0.Valid(p)
      requires dicPos == limit ==> MatchNext()
      requires bufLimit <= buf || bufLimit <= |input| - REQUIRED_INPUT_MAX
      modifies this`range, this`code, this`buf, probs
      modifies this`dicPos, this`out, this`processedPos, this`state, this`remainLen, this`checkDicSize, dic
      modifies this`rep0, this`rep1, this`rep2, this`rep3
      ensures Valid() && Settled() && dicPos <= limit
      ensures res.Ok? ==> range >= TOP && Reached(s0, n, Abs()) && buf >= old(buf)
      ensures res.Ok? && remainLen < MATCH_SPEC_LEN_START ==>
            old(dicPos) < dicPos && (remainLen > 0 ==> dicPos == limit)
      ensures res.ErrorData? ==> Fails(s0, n) || (old(dicPos) == limit && Grows(s0, n, |old(out)|))
      ensures |out| - dicPos == old(|out| - dicPos) && old(out) <= out && old(dicPos) <= dicPos
      ensures n >= 1
    {
      hide Reached, Fails, Grows, NextSymbol, MatchNext, Valid, Abs, StepsTo;
      var limit2 := FirstLimit(limit);
      res, n := DecodeReal(limit2, bufLimit, s0);
      if res.Ok? {
        StateSeen();
        ghost var t := AbsReached(s0, n);
        NoteFilled(limit2);
        WriteRemRun(limit, t);
        ReachedAgain(s0, n, t);
      } else {
        NoteFilled(limit2);
      }
    }

    /** Runs of symbols until the limit, `bufLimit`, or the end marker is reached. */
    method DecodeReal2(limit: nat, bufLimit: int, ghost s0: Lz) returns (res: Res, ghost n: nat)
      requires Valid() && Settled() && remainLen == 0 && dicPos <= limit <= dic.Length && NextSymbol().Some?
      requires range >= TOP && s0 == Abs() && s0.Valid(p)
      requires dicPos == limit ==> MatchNext()
      requires bufLimit <= buf || bufLimit <= |input| - REQUIRED_INPUT_MAX
      modifies this`range, this`code, this`buf, probs
      modifies this`dicPos, this`out, this`processedPos, this`state, this`remainLen, this`checkDicSize, dic
      modifies this`rep0, this`rep1, this`rep2, this`rep3
      ensures Valid() && Settled() && dicPos <= limit && remainLen <= MATCH_SPEC_LEN_START
      ensures res.Ok? ==> range >= TOP && Reached(s0, n, Abs()) && buf >= old(buf)
      ensures res.Ok? && remainLen < MATCH_SPEC_LEN_START ==>
            old(dicPos) < dicPos && (remainLen > 0 ==> dicPos == limit)
      ensures res.ErrorData? ==> Fails(s0, n) || (old(dicPos) == limit && Grows(s0, n, |old(out)|))
      ensures |out| - dicPos == old(|out| - dicPos) && old(out) <= out && old(dicPos) <= dicPos
      ensures n >= 1
    {
      hide Reached, Fails, Grows, NextSymbol, MatchNext, Valid, Abs, StepsTo;
      StateSeen();
      res, n := DecodeRound(limit, bufLimit, s0);
      StateSeen();
      while res.Ok? && dicPos < limit && buf < bufLimit && remainLen < MATCH_SPEC_LEN_START
        invariant Valid() && Settled() && dicPos <= limit
        invariant buf <= |input| && (Pending() > 0 ==> 1 <= rep0 <= |out|)
        invariant n >= 1
        invariant res.Ok? ==> range >= TOP && Reached(s0, n, Abs()) && buf >= old(buf)
        invariant res.Ok? && remainLen < MATCH_SPEC_LEN_START ==>
              old(dicPos) < dicPos && (remainLen > 0 ==> dicPos == limit)
        invariant res.ErrorData? ==> Fails(s0, n) || (old(dicPos) == limit && Grows(s0, n, |old(out)|))
        invariant |out| - dicPos == old(|out| - dicPos) && old(out) <= out && old(dicPos) <= dicPos
        decreases limit - dicPos, if res.Ok? && remainLen < MATCH_SPEC_LEN_START then 1 else 0
      {
        StateSeen();
        ghost var s := AbsReached(s0, n);
        AbsIsValid();
        InputEnough();
        ghost var m;
        res, m := DecodeRound(limit, bufLimit, s);
        if res.Ok? {
          StateSeen();
          ReachedAdd(s0, n, s, m, Abs());
        } else {
          StateSeen();
          FailsAdd(s0, n, s, m);
        }
        n := n + m;
      }
      if remainLen > MATCH_SPEC_LEN_START {
        if res.Ok? {
          StateSeen();
          ghost var t := AbsReached(s0, n);
          ClampMark();
          ReachedAgain(s0, n, t);
        } else {
          ClampMark();
        }
      }
    }

    lemma AbsIsValid()
      requires Valid() && range >= TOP
      ensures buf <= |input| && (Pending() > 0 ==> 1 <= rep0 <= |out|) && Abs().Valid(p)
    {
      hide Shape, Copy;
      StateSeen();
      AbsValid();
    }

    method ClampMark()
      requires Valid() && buf <= |input| && remainLen > MATCH_SPEC_LEN_START
      modifies this`remainLen
      ensures Valid() && remainLen == MATCH_SPEC_LEN_START && Represents(old(Abs()))
    {
      hide Remembers;
      remainLen := MATCH_SPEC_LEN_START;
    }

    // ----- The dry run.

    lemma StartDry() returns (c: Context, goal: Option<Outcome>)
      requires Valid() && remainLen == 0 && range >= TOP
      ensures buf <= |input| && c == ContextOf(p, Abs())
      ensures c.state == state && c.posState == LowBits(|out|, p.pb)
      ensures DryWalk(c, AskMatch, probs[..], input[buf..], Dry(range, code, 0), goal)
      ensures goal == None ==> NextSymbol() == None
      ensures goal.Some? ==> Normalize(goal.value.rc).Some? == NextSymbol().Some?
      ensures NextSymbol().Some? ==> goal.Some? && goal.value.symbol == NextSymbol().value.symbol
    {
      hide Shape, LitIndex, Copy, Advance, BitsLeft, ValidPhase, Ask, Run;
      AbsValid();
      c := ContextOf(p, Abs());
      AskMatchReady(c);
      ContextValid(p, Norm(Abs()));
      DryRunAgrees(c, probs[..], CoderRc());
      goal := Run(c, AskMatch, probs[..], CoderRc(), false);
      assert input[buf..][0..] == input[buf..];
    }

    /** The last normalisation of the dry run. */
    method DryEnd(ghost c: Context, ghost symbol: Symbol, src: seq<Byte>, d: Dry, ghost goal: Option<Outcome>)
      returns (ok: bool)
      requires DryWalk(c, Decoded(symbol), probs[..], src, d, goal)
      ensures goal.Some? && goal.value.symbol == symbol && ok == Normalize(goal.value.rc).Some?
    {
      hide Normalize;
      var d1;
      ok, d1 := CheckInput(src, d);
    }

    method DryLiteral(ghost c: Context, src: seq<Byte>, d: Dry, ghost goal: Option<Outcome>)
      returns (ok: bool, ghost byte: Byte, d1: Dry)
      requires Fixed() && Shape() && remainLen == 0 && buf <= |input| && c == ContextOf(p, Abs())
      requires DryWalk(c, Advance(c, AskMatch, 0), probs[..], src, d, goal)
      ensures !ok ==> goal == None
      ensures ok ==> DryWalk(c, Decoded(Literal(byte)), probs[..], src, d1, goal)
    {
      hide DryWalk, ContextOf, LitIndex, Shape;
      var prob := LiteralProb();
      LiteralContext(Abs());
      if state < 7 {
        ok, byte, d1 := DryPlainLiteral(c, probs, src, d, goal, prob);
      } else {
        OutputSeen();
        var matchByte := MatchByte();
        ok, byte, d1 := DryMatchedLiteral(c, probs, src, d, goal, prob, matchByte);
      }
    }

    /** Tells whether the input holds the whole next symbol, and of which kind it is,
        without changing anything. */
    method TryDummy() returns (res: DummyRes)
      requires Valid() && remainLen == 0 && range >= TOP
      ensures res.DummyError? <==> NextSymbol().None?
      ensures !res.DummyError? ==> res == DummyOf(KindOf(NextSymbol().value.symbol))
      ensures res.DummyMatch? <==> MatchNext()
    {
      hide Wrap, Shape, DryWalk, NextSymbol, Abs, ContextOf, Run, CoderOk, DryMatched, DryRepeated, LowBits, Normalize;
      ghost var c, goal := StartDry();
      RepsSeen();
      MaskedPos(p.pb);
      var src := input[buf..];
      var posState := LowBits(processedPos, p.pb);
      var ok, bit, d := CheckBit(c, AskMatch, probs, src, Dry(range, code, 0), goal, IS_MATCH + 16 * state + posState);
      if !ok {
        return DummyError;
      }
      if bit == 0 {
        res := DummyLiteralEnd(c, src, d, goal);
        return;
      }
      ok, bit, d := CheckBit(c, AskRep, probs, src, d, goal, IS_REP + state);
      if !ok {
        return DummyError;
      }
      if bit == 0 {
        var len;
        ok, len, d := DryLength(c, probs, src, d, goal, NewMatch, LEN_CODER, posState);
        if ok {
          ok, d := DryDistance(c, probs, src, d, goal, len);
        }
        if ok {
          ghost var symbol := MatchWitness(c, src, d, goal);
          ok := DryEnd(c, symbol, src, d, goal);
        }
        return if ok then DummyMatch else DummyError;
      }
      ok, d := DryRep(c, probs, src, d, goal, state, posState);
      if ok {
        ghost var symbol := RepeatWitness(c, src, d, goal);
        ok := DryEnd(c, symbol, src, d, goal);
      }
      return if ok then DummyRep else DummyError;
    }

    method DummyLiteralEnd(ghost c: Context, src: seq<Byte>, d: Dry, ghost goal: Option<Outcome>)
      returns (res: DummyRes)
      requires Fixed() && Shape() && remainLen == 0 && buf <= |input| && c == ContextOf(p, Abs())
      requires DryWalk(c, Advance(c, AskMatch, 0), probs[..], src, d, goal)
      ensures res == DummyError || res == DummyLit
      ensures goal == None ==> res == DummyError
      ensures goal.Some? ==>
            (res == DummyLit) == Normalize(goal.value.rc).Some? && KindOf(goal.value.symbol) == LiteralKind
    {
      hide Shape, DryWalk, Abs, ContextOf, Normalize;
      ghost var byte;
      var ok, d1;
      ok, byte, d1 := DryLiteral(c, src, d, goal);
      if ok {
        ok := DryEnd(c, Literal(byte), src, d1, goal);
        return if ok then DummyLit else DummyError;
      }
      return DummyError;
    }

    lemma MatchWitness(c: Context, src: seq<Byte>, d: Dry, goal: Option<Outcome>) returns (symbol: Symbol)
      requires DryMatched(c, probs[..], src, d, goal)
      ensures DryWalk(c, Decoded(symbol), probs[..], src, d, goal) && KindOf(symbol) == MatchKind
    {
      hide DryWalk;
      symbol :| DryWalk(c, Decoded(symbol), probs[..], src, d, goal) && KindOf(symbol) == MatchKind;
    }

    lemma RepeatWitness(c: Context, src: seq<Byte>, d: Dry, goal: Option<Outcome>) returns (symbol: Symbol)
      requires DryRepeated(c, probs[..], src, d, goal)
      ensures DryWalk(c, Decoded(symbol), probs[..], src, d, goal) && KindOf(symbol) == RepKind
    {
      hide DryWalk;
      symbol :| DryWalk(c, Decoded(symbol), probs[..], src, d, goal) && KindOf(symbol) == RepKind;
    }

    // ----- The decoder as a consumer of a stream that arrives in pieces.

    /** After `n` symbols of the stream `f` the machine is at `t`. */
    ghost predicate OnStream(f: seq<Byte>, n: nat, t: Lz, done: bool)
      requires p.Valid() && |f| >= RC_INIT_SIZE
    {
      hide Step, Initial;
      InitialValid(p, f);
      Steps(p, Initial(p, f), n) == if done then Finished(t) else Next(t)
    }

    /** The stream `f` has a data error after at most `n` symbols. */
    ghost predicate CorruptAt(f: seq<Byte>, n: nat)
      requires p.Valid() && |f| >= RC_INIT_SIZE
    {
      hide Step, Initial;
      InitialValid(p, f);
      Steps(p, Initial(p, f), n) == DataError
    }

    /** The first `n` symbols of the stream `f` make more than `k` bytes of output. */
    ghost predicate LongerAt(f: seq<Byte>, n: nat, k: nat)
      requires p.Valid() && |f| >= RC_INIT_SIZE
    {
      hide Step, Initial;
      InitialValid(p, f);
      Steps(p, Initial(p, f), n).Next? && |Steps(p, Initial(p, f), n).s.out| > k
    }

    /** The bytes that are held back do not contain the next symbol. */
    ghost predicate Hungry()
      reads this, probs, dic
      requires Valid() && range >= TOP
    {
      HeldValid(tempBuf);
      Step(p, AbsOn(tempBuf)).NeedInput?
    }

    lemma HeldValid(rest: seq<Byte>)
      requires Valid() && range >= TOP
      ensures p.Valid() && (Pending() > 0 ==> 1 <= rep0 <= |out|) && AbsOn(rest).Valid(p)
    {
      hide Remembers, Copy;
    }

    ghost predicate Fresh()
      reads this
    {
      && needInitState && out == [] && dicPos == 0 && remainLen == 0 && processedPos == 0 && checkDicSize == 0
        && count == 0
    }

    /** The decoder has started: it stands after `count` symbols of what it has been fed. */
    ghost predicate Running()
      reads this, probs, dic
    {
      && Valid() && Settled() && range >= TOP && remainLen <= MATCH_SPEC_LEN_START
      && !needFlush && !needInitState
      && |fed| >= RC_INIT_SIZE && fed[0] == 0
      && (HeldValid(tempBuf); OnStream(fed, count, AbsOn(tempBuf), remainLen == MATCH_SPEC_LEN_START))
      && (tempBuf != [] ==> remainLen != MATCH_SPEC_LEN_START && |tempBuf| < REQUIRED_INPUT_MAX && Hungry())
    }

    /** What every call of DecodeToDic keeps. */
    ghost predicate Session()
      reads this, probs, dic
    {
      && Fixed() && buf <= |input|
      && if needFlush then Fresh() && tempBuf == fed && |fed| < RC_INIT_SIZE
         else if needInitState then
           Fresh() && tempBuf == [] && |fed| == RC_INIT_SIZE && fed[0] == 0 && range == WORD - 1
             && code == HeaderCode(fed)
         else Running()
    }

    lemma FeedStream(f: seq<Byte>, n: nat, t: Lz, done: bool, more: seq<Byte>)
      requires p.Valid() && |f| >= RC_INIT_SIZE && OnStream(f, n, t, done)
      ensures OnStream(f + more, n, FedLz(t, more), done)
    {
      hide Step, Initial;
      InitialValid(p, f);
      InitialFed(p, f, more);
      StepsFed(p, Initial(p, f), n, more);
    }

    lemma JoinStream(f: seq<Byte>, n: nat, s: Lz, m: nat, t: Lz, done: bool)
      requires p.Valid() && |f| >= RC_INIT_SIZE && OnStream(f, n, s, false)
      requires s.Valid(p) && StepsTo(s, m, t, done)
      ensures OnStream(f, n + m, t, done)
    {
      hide Step, Initial;
      InitialValid(p, f);
      StepsAdd(p, Initial(p, f), n, m);
    }

    lemma JoinCorrupt(f: seq<Byte>, n: nat, s: Lz, m: nat)
      requires p.Valid() && |f| >= RC_INIT_SIZE && OnStream(f, n, s, false)
      requires s.Valid(p) && Fails(s, m)
      ensures CorruptAt(f, n + m)
    {
      hide Step, Initial;
      InitialValid(p, f);
      StepsAdd(p, Initial(p, f), n, m);
    }

    lemma JoinLonger(f: seq<Byte>, n: nat, s: Lz, m: nat, k: nat)
      requires p.Valid() && |f| >= RC_INIT_SIZE && OnStream(f, n, s, false)
      requires s.Valid(p) && Grows(s, m, k)
      ensures LongerAt(f, n + m, k)
    {
      hide Step, Initial;
      InitialValid(p, f);
      StepsAdd(p, Initial(p, f), n, m);
    }

    lemma LongerFed(f: seq<Byte>, n: nat, k: nat, more: seq<Byte>)
      requires p.Valid() && |f| >= RC_INIT_SIZE && LongerAt(f, n, k)
      ensures LongerAt(f + more, n, k)
    {
      hide Step, Initial;
      InitialValid(p, f);
      InitialFed(p, f, more);
      StepsFed(p, Initial(p, f), n, more);
    }

    lemma UnfeedStream(f: seq<Byte>, n: nat, t: Lz, done: bool, more: seq<Byte>)
      requires p.Valid() && |f| >= RC_INIT_SIZE && OnStream(f + more, n, FedLz(t, more), done)
      ensures OnStream(f, n, t, done)
    {
      hide Step, Initial;
      InitialValid(p, f);
      InitialFed(p, f, more);
      StepsUnfed(p, Initial(p, f), n, more);
      var r := Steps(p, Initial(p, f), n);
      SameFed(r.s, t, more);
    }

    constructor (props: Props)
      requires props.Valid()
      ensures p == props && Session() && fresh(probs) && fresh(dic)
      ensures fed == [] && out == [] && tempBuf == []
    {
      p := props;
      probs := new nat[props.NumProbs()];
      dic := new Byte[props.dicSize];
      input, buf, range, code := [], 0, 0, 0;
      dicPos, processedPos, checkDicSize, state := 0, 0, 0, 0;
      rep0, rep1, rep2, rep3, remainLen := 0, 0, 0, 0, 0;
      needFlush, needInitState, tempBuf := true, true, [];
      out, fed, count := [], [], 0;
    }

    /** LzmaDec_Init: back to the start of a stream. */
    method Init()
      requires Fixed() && buf <= |input|
      modifies this`dicPos, this`needFlush, this`remainLen, this`tempBuf, this`processedPos, this`checkDicSize
      modifies this`needInitState, this`out, this`fed, this`count
      ensures Session() && fed == [] && out == [] && tempBuf == []
    {
      hide Running;
      dicPos := 0;
      needFlush := true;
      remainLen := 0;
      tempBuf := [];
      processedPos := 0;
      checkDicSize := 0;
      needInitState := true;
      out, fed, count := [], [], 0;
    }

    method InitRc()
      requires |tempBuf| == RC_INIT_SIZE && tempBuf == fed && fed[0] == 0 && Fresh() && Fixed() && buf <= |input|
      modifies this`code, this`range, this`needFlush, this`tempBuf
      ensures Session() && !needFlush && needInitState && tempBuf == []
    {
      hide Running;
      code := HeaderCode(tempBuf);
      range := WORD - 1;
      needFlush := false;
      tempBuf := [];
    }

    method InitProbs()
      modifies probs
      ensures forall k :: 0 <= k < probs.Length ==> probs[k] == PROB_TOTAL / 2
    {
      var i := 0;
      while i < probs.Length
        invariant 0 <= i <= probs.Length
        invariant forall k :: 0 <= k < i ==> probs[k] == PROB_TOTAL / 2
      {
        probs[i] := PROB_TOTAL / 2;
        i := i + 1;
      }
    }

    /** All probabilities start in the middle, all distances at one. */
    method InitStateReal()
      requires Session() && !needFlush && needInitState
      modifies this`rep0, this`rep1, this`rep2, this`rep3, this`state, this`needInitState, probs
      ensures Session() && !needFlush && !needInitState && tempBuf == [] && remainLen == 0
    {
      hide Running, HeaderCode;
      InitProbs();
      rep0, rep1, rep2, rep3 := 1, 1, 1, 1;
      state := 0;
      FreshShape();
      StartOfStream();
      needInitState := false;
      StartRunning();
    }

    lemma StartRunning()
      requires Fixed() && buf <= |input| && Shape() && Settled() && remainLen == 0 && count == 0
      requires !needFlush && !needInitState && tempBuf == []
      requires |fed| == RC_INIT_SIZE && fed[0] == 0 && range == WORD - 1 && code < WORD
      requires forall k :: 0 <= k < probs.Length ==> probs[k] == PROB_TOTAL / 2
      requires OnStream(fed, 0, AbsOn([]), false)
      ensures Running()
    {
      hide Shape, OnStream, AbsOn, Hungry;
    }

    lemma FreshShape()
      requires Fixed() && Fresh() && state == 0 && rep0 == rep1 == rep2 == rep3 == 1
      ensures Shape() && Settled()
    {
    }

    lemma StartOfStream()
      requires Fixed() && buf <= |input| && out == [] && remainLen == 0 && state == 0
      requires rep0 == rep1 == rep2 == rep3 == 1
      requires |fed| == RC_INIT_SIZE && range == WORD - 1 && code == HeaderCode(fed)
      requires forall k :: 0 <= k < probs.Length ==> probs[k] == PROB_TOTAL / 2
      ensures AbsOn([]) == Initial(p, fed) && OnStream(fed, 0, AbsOn([]), false)
    {
      hide Step;
      assert probs[..] == Initial(p, fed).probs;
      assert fed[5..] == [];
      InitialValid(p, fed);
    }

    /** A round that went well moved on, or met the end marker. */
    ghost predicate Progressed(before: nat, limit: nat)
      reads this`dicPos, this`remainLen
    {
      && (remainLen == MATCH_SPEC_LEN_START || before < dicPos)
      && (0 < remainLen < MATCH_SPEC_LEN_START ==> dicPos == limit)
    }

    /** The stream has a data error that the symbols counted so far run into. */
    ghost predicate BadStream(f: seq<Byte>)
      reads this`count
      requires p.Valid()
    {
      |f| >= RC_INIT_SIZE && CorruptAt(f, count)
    }

    /** The symbols counted so far make more output than there is. */
    ghost predicate Longer(f: seq<Byte>)
      reads this`count, this`out
      requires p.Valid()
    {
      |f| >= RC_INIT_SIZE && LongerAt(f, count, |out|)
    }

    lemma RunningSeen()
      requires Running()
      ensures Valid() && Settled() && range >= TOP && buf <= |input| && p.Valid()
      ensures Pending() > 0 ==> 1 <= rep0 <= |out|
      ensures |fed| >= RC_INIT_SIZE && !needFlush && !needInitState
      ensures OnStream(fed, count, AbsOn(tempBuf), remainLen == MATCH_SPEC_LEN_START)
      ensures AbsOn(tempBuf).Valid(p)
    {
      hide Shape, OnStream, Copy, Hungry;
      HeldValid(tempBuf);
    }

    /** The decoder stands in a buffer, after `n` symbols of the stream `f` of which the rest
        of the buffer is the unread part. */
    ghost predicate Standing(f: seq<Byte>, n: nat)
      reads this, probs, dic
    {
      && Valid() && Settled() && range >= TOP && remainLen <= MATCH_SPEC_LEN_START && !needFlush && !needInitState
      && |f| >= RC_INIT_SIZE && f[0] == 0
      && (StateSeen(); OnStream(f, n, Abs(), remainLen == MATCH_SPEC_LEN_START))
    }

    /** Runs symbols from where the decoder stands. */
    method RunStanding(dicLimit: nat, bufLimit: int, ghost f: seq<Byte>) returns (res: Res)
      requires Standing(f, count) && remainLen == 0 && dicPos <= dicLimit <= dic.Length
      requires (StateSeen2(f, count); NextSymbol().Some? && (dicPos == dicLimit ==> MatchNext()))
      requires bufLimit <= buf || bufLimit <= |input| - REQUIRED_INPUT_MAX
      modifies this`range, this`code, this`buf, probs
      modifies this`dicPos, this`out, this`processedPos, this`state, this`remainLen, this`checkDicSize, dic
      modifies this`rep0, this`rep1, this`rep2, this`rep3, this`count
      ensures p.Valid()
      ensures res.Ok? ==> Standing(f, count) && Progressed(old(dicPos), dicLimit) && buf >= old(buf) && buf <= |input|
      ensures res.ErrorData? ==> BadStream(f) || (old(dicPos) == dicLimit && Longer(f))
      ensures dicPos <= dicLimit && |out| - dicPos == old(|out| - dicPos) && old(out) <= out
      ensures count > old(count)
    {
      hide Valid, Settled, OnStream, NextSymbol, MatchNext, Fails, Grows, Reached, StepsTo, CorruptAt, LongerAt;
      StateSeen();
      AbsIsValid();
      ghost var s0 := Abs();
      ghost var n;
      res, n := DecodeReal2(dicLimit, bufLimit, s0);
      StateSeen();
      if res.Ok? {
        ghost var t := AbsReached(s0, n);
        JoinStream(f, count, s0, n, t, remainLen == MATCH_SPEC_LEN_START);
      } else if Fails(s0, n) {
        JoinCorrupt(f, count, s0, n);
      } else {
        JoinLonger(f, count, s0, n, |old(out)|);
      }
      count := count + n;
    }

    lemma StateSeen2(f: seq<Byte>, n: nat)
      requires Standing(f, n)
      ensures Valid()
    {
      hide Valid, OnStream;
    }

    lemma StandingSeen(f: seq<Byte>)
      requires Standing(f, count)
      ensures Valid() && Settled() && range >= TOP && buf <= |input| && p.Valid() && |f| >= RC_INIT_SIZE && f[0] == 0
      ensures Pending() > 0 ==> 1 <= rep0 <= |out|
      ensures OnStream(f, count, Abs(), remainLen == MATCH_SPEC_LEN_START) && Abs().Valid(p)
      ensures remainLen <= MATCH_SPEC_LEN_START && !needFlush && !needInitState
    {
      hide Valid, OnStream, Abs;
      StateSeen();
      AbsIsValid();
    }

    /** Points `buf` into a buffer that holds the bytes kept back and then `more`. */
    method EnterBuffer(buffer: seq<Byte>, at: nat, ghost more: seq<Byte>)
      requires Running() && remainLen == 0 && at <= |buffer| && buffer[at..] == tempBuf + more
      modifies this`input, this`buf
      ensures Standing(fed + more, count) && input == buffer && buf == at
    {
      hide Shape, OnStream, Copy, Hungry, Settled;
      RunningSeen();
      FeedStream(fed, count, AbsOn(tempBuf), false, more);
      input, buf := buffer, at;
    }

    /** Keeps back what does not hold a whole symbol. */
    method StarveAt(ghost more: seq<Byte>)
      requires Standing(fed + more, count) && remainLen == 0
      requires (StandingSeen(fed + more); NextSymbol().None? && input[buf..] == tempBuf + more)
      requires |fed| >= RC_INIT_SIZE
      modifies this`tempBuf, this`fed
      ensures Running() && fed == old(fed) + more && tempBuf == input[buf..] && |tempBuf| < REQUIRED_INPUT_MAX
      ensures (RunningSeen(); Hungry())
    {
      hide Valid, OnStream, NextSymbol;
      StandingSeen(fed + more);
      if |input| - buf >= REQUIRED_INPUT_MAX {
        InputEnough();
      }
      NothingIsNeeded();
      tempBuf := input[buf..];
      fed := fed + more;
    }

    lemma NothingIsNeeded()
      requires Valid() && range >= TOP && remainLen == 0 && NextSymbol().None?
      ensures buf <= |input| && Abs().Valid(p) && Step(p, Abs()).NeedInput?
    {
      hide Shape, Copy, RunSymbol, Apply, ContextOf;
      AbsIsValid();
      ContextValid(p, Norm(Abs()));
    }

    /** Takes the consumed bytes into account; the rest of the buffer was not needed. */
    method LeaveBuffer(ghost f0: seq<Byte>, ghost taken: seq<Byte>, ghost left: seq<Byte>)
      requires |f0| >= RC_INIT_SIZE && Standing(f0 + taken + left, count)
      requires buf <= |input| && input[buf..] == left
      modifies this`tempBuf, this`fed
      ensures Running() && tempBuf == [] && fed == f0 + taken
    {
      hide Valid, OnStream;
      StandingSeen(f0 + taken + left);
      assert [] + left == left;
      UnfeedStream(f0 + taken, count, AbsOn([]), remainLen == MATCH_SPEC_LEN_START, left);
      tempBuf := [];
      fed := f0 + taken;
    }

    /** A decoder that could not find a symbol in what it was fed reads beyond it to find one. */
    lemma ReadsBeyond(f: seq<Byte>, more: seq<Byte>, n: nat, m: nat, s: Lz, t: Lz, done: bool)
      requires p.Valid() && |f| >= RC_INIT_SIZE && s.Valid(p) && Step(p, s).NeedInput?
      requires OnStream(f, n, s, false) && OnStream(f + more, m, t, done) && m > n
      ensures |t.rc.rest| < |more|
    {
      hide Step, Initial;
      InitialValid(p, f);
      InitialFed(p, f, more);
      StepsUnfed(p, Initial(p, f), m, more);
      StepsAdd(p, Initial(p, f), n, m - n);
    }

    /** Symbols from the caller's buffer, `src[pos..]`. */
    method TurnSrc(dicLimit: nat, src: seq<Byte>, pos: nat) returns (turn: Turn, pos1: nat)
      requires Running() && tempBuf == [] && remainLen == 0 && dicPos <= dicLimit <= dic.Length && pos <= |src|
      modifies this, probs, dic
      ensures p.Valid()
      ensures turn.Went? || turn.Starved? ==> Running() && pos <= pos1 <= |src| && fed == old(fed) + src[pos..pos1]
      ensures turn.Went? ==> tempBuf == [] && Progressed(old(dicPos), dicLimit)
      ensures turn.Starved? ==> pos1 == |src| && remainLen == 0 && dicPos == old(dicPos)
      ensures turn.Starved? ==> (RunningSeen(); Hungry())
      ensures turn.Bad? || turn.Unfinished? ==>
                BadStream(old(fed) + src[pos..]) || (old(dicPos) == dicLimit && Longer(old(fed) + src[pos..]))
      ensures dicPos <= dicLimit && |out| - dicPos == old(|out| - dicPos) && old(out) <= out
    {
      hide Valid, Settled, OnStream, AbsOn, NextSymbol, MatchNext, Hungry, BadStream, Longer, Running, Standing,
           Progressed;
      pos1 := pos;
      RunningSeen();
      ghost var f := fed + src[pos..];
      assert src[pos..] == [] + src[pos..];
      EnterBuffer(src, pos, src[pos..]);
      var bufLimit := pos;
      if |src| - pos < REQUIRED_INPUT_MAX || dicPos == dicLimit {
        StandingSeen(f);
        var dummyRes := TryDummy();
        if dummyRes.DummyError? {
          StarveAt(src[pos..]);
          return Starved, |src|;
        }
        if dicPos == dicLimit && !dummyRes.DummyMatch? {
          CountPeeked(f);
          return Unfinished, pos1;
        }
      } else {
        bufLimit := |src| - REQUIRED_INPUT_MAX;
        StandingSeen(f);
        InputEnough();
      }
      var res := RunStanding(dicLimit, bufLimit, f);
      if res.ErrorData? {
        return Bad, pos1;
      }
      pos1 := buf;
      SplitFedEnd(old(fed), src, pos, pos1);
      LeaveBuffer(old(fed), src[pos..pos1], src[pos1..]);
      return Went, pos1;
    }

    /** A symbol that the input holds, and that is not a match, is no end marker. */
    lemma PeekedGoesOn(f: seq<Byte>)
      requires Standing(f, count) && remainLen == 0
      requires (StateSeen2(f, count); NextSymbol().Some? && !MatchNext())
      ensures p.Valid() && (CorruptAt(f, count + 1) || LongerAt(f, count + 1, |out|))
    {
      hide Valid, Settled, OnStream, NextSymbol, MatchNext, CorruptAt, LongerAt, Step, Standing;
      StandingSeen(f);
      NextIsStep();
      StreamStep(f, count, Abs());
    }

    lemma NextIsStep()
      requires Valid() && remainLen == 0 && range >= TOP && NextSymbol().Some? && !MatchNext()
      ensures buf <= |input| && Abs().Valid(p) && |Abs().out| == |out|
      ensures Step(p, Abs()).Next? || Step(p, Abs()).DataError?
    {
      hide Shape, Copy, RunSymbol, Apply, ContextOf;
      AbsIsValid();
      ContextValid(p, Norm(Abs()));
      OnlyMatchesEnd(p, Abs(), NextSymbol().value);
    }

    lemma StreamStep(f: seq<Byte>, n: nat, s: Lz)
      requires p.Valid() && |f| >= RC_INIT_SIZE && OnStream(f, n, s, false) && s.Valid(p)
      ensures Step(p, s).Next? ==> LongerAt(f, n + 1, |s.out|)
      ensures Step(p, s).DataError? ==> CorruptAt(f, n + 1)
    {
      hide Step, Initial;
      InitialValid(p, f);
      StepsOne(p, Initial(p, f), n, s);
    }

    /** Counts the symbol that was looked at. */
    ghost method CountPeeked(f: seq<Byte>)
      requires Standing(f, count) && remainLen == 0
      requires (StateSeen2(f, count); NextSymbol().Some? && !MatchNext())
      modifies this`count
      ensures p.Valid() && (BadStream(f) || Longer(f))
    {
      hide Valid, Settled, OnStream, NextSymbol, MatchNext, CorruptAt, LongerAt, Standing;
      PeekedGoesOn(f);
      StandingSeen(f);
      count := count + 1;
    }

    ghost method CountPeekedIn(src: seq<Byte>, pos: nat, pos1: nat)
      requires pos <= pos1 <= |src| && Standing(fed + src[pos..pos1], count) && remainLen == 0
      requires (StateSeen2(fed + src[pos..pos1], count); NextSymbol().Some? && !MatchNext())
      modifies this`count
      ensures p.Valid() && (BadStream(fed + src[pos..]) || Longer(fed + src[pos..]))
    {
      hide Valid, Settled, OnStream, NextSymbol, MatchNext, Standing, BadStream, Longer;
      CountPeeked(fed + src[pos..pos1]);
      PeekedFed(fed + src[pos..pos1], src[pos1..]);
      SplitFedEnd(fed, src, pos, pos1);
    }

    lemma PeekedFed(f: seq<Byte>, more: seq<Byte>)
      requires p.Valid()
      ensures BadStream(f) ==> BadStream(f + more)
      ensures Longer(f) ==> Longer(f + more)
    {
      hide CorruptAt, LongerAt;
      if BadStream(f) {
        CorruptFed(f, count, more);
      }
      if Longer(f) {
        LongerFed(f, count, |out|, more);
      }
    }

    lemma CorruptFed(f: seq<Byte>, n: nat, more: seq<Byte>)
      requires p.Valid() && |f| >= RC_INIT_SIZE && CorruptAt(f, n)
      ensures CorruptAt(f + more, n)
    {
      hide Step, Initial;
      InitialValid(p, f);
      InitialFed(p, f, more);
      StepsFed(p, Initial(p, f), n, more);
    }

    /** Looks at the symbol that starts in the bytes kept back, where that is necessary: the input may end
        within it, or the output limit may have been reached. */
    method PeekTemp(dicLimit: nat, src: seq<Byte>, pos: nat, lookAhead: nat) returns (turn: Turn)
      requires pos + lookAhead <= |src| && |fed| >= RC_INIT_SIZE && dicPos <= dicLimit
      requires Standing(fed + src[pos..pos + lookAhead], count) && remainLen == 0
      requires input == tempBuf + src[pos..pos + lookAhead] && buf == 0
      requires |input| < REQUIRED_INPUT_MAX ==> pos + lookAhead == |src|
      modifies this`tempBuf, this`fed, this`count
      ensures p.Valid() && !turn.Bad?
      ensures turn.Went? ==> tempBuf == old(tempBuf) && fed == old(fed) && count == old(count)
      ensures turn.Went? ==> (StateSeen2(fed + src[pos..pos + lookAhead], count); NextSymbol().Some?
                              && (dicPos == dicLimit ==> MatchNext()))
      ensures turn.Starved? ==> pos + lookAhead == |src| && Running() && fed == old(fed) + src[pos..]
      ensures turn.Starved? ==> (RunningSeen(); Hungry())
      ensures turn.Unfinished? ==>
                dicPos == dicLimit && (BadStream(old(fed) + src[pos..]) || Longer(old(fed) + src[pos..]))
    {
      hide Valid, Settled, OnStream, NextSymbol, MatchNext, Hungry, BadStream, Longer, Standing, Running;
      var extra := src[pos..pos + lookAhead];
      StandingSeen(fed + extra);
      if |input| < REQUIRED_INPUT_MAX || dicPos == dicLimit {
        var dummyRes := TryDummy();
        if dummyRes.DummyError? {
          StarveAt(extra);
          return Starved;
        }
        if dicPos == dicLimit && !dummyRes.DummyMatch? {
          CountPeekedIn(src, pos, pos + lookAhead);
          return Unfinished;
        }
      } else {
        InputEnough();
      }
      return Went;
    }

    /** A symbol that starts in the bytes kept back, completed from `src[pos..]`. */
    method TurnTemp(dicLimit: nat, src: seq<Byte>, pos: nat) returns (turn: Turn, pos1: nat)
      requires Running() && tempBuf != [] && remainLen == 0 && dicPos <= dicLimit <= dic.Length && pos <= |src|
      modifies this, probs, dic
      ensures p.Valid()
      ensures turn.Went? || turn.Starved? ==> Running() && pos <= pos1 <= |src| && fed == old(fed) + src[pos..pos1]
      ensures turn.Went? ==> tempBuf == [] && Progressed(old(dicPos), dicLimit)
      ensures turn.Starved? ==> pos1 == |src| && remainLen == 0 && dicPos == old(dicPos)
      ensures turn.Starved? ==> (RunningSeen(); Hungry())
      ensures turn.Bad? || turn.Unfinished? ==>
                BadStream(old(fed) + src[pos..]) || (old(dicPos) == dicLimit && Longer(old(fed) + src[pos..]))
      ensures dicPos <= dicLimit && |out| - dicPos == old(|out| - dicPos) && old(out) <= out
    {
      hide Valid, Settled, OnStream, AbsOn, NextSymbol, MatchNext, Hungry, BadStream, Longer, Standing, Running,
           Progressed;
      pos1 := pos;
      RunningSeen();
      HungerSeen();
      var rem := |tempBuf|;
      var lookAhead := if REQUIRED_INPUT_MAX - rem < |src| - pos then REQUIRED_INPUT_MAX - rem else |src| - pos;
      var extra := src[pos..pos + lookAhead];
      ghost var s := AbsOn(tempBuf);
      ghost var n := count;
      EnterBuffer(tempBuf + extra, 0, extra);
      turn := PeekTemp(dicLimit, src, pos, lookAhead);
      if turn.Starved? {
        return turn, pos + lookAhead;
      }
      if turn.Unfinished? {
        return turn, pos1;
      }
      turn, pos1 := RunTemp(dicLimit, src, pos, lookAhead, rem, s, n);
    }

    /** Runs the symbol completed by `lookAhead` bytes and gives back what it did not need. */
    method RunTemp(dicLimit: nat, src: seq<Byte>, pos: nat, lookAhead: nat, rem: nat, ghost s: Lz, ghost n: nat)
      returns (turn: Turn, pos1: nat)
      requires pos + lookAhead <= |src| && rem == |tempBuf| && |fed| >= RC_INIT_SIZE && n == count
      requires Standing(fed + src[pos..pos + lookAhead], count) && input == tempBuf + src[pos..pos + lookAhead]
               && buf == 0
      requires remainLen == 0 && dicPos <= dicLimit <= dic.Length
      requires (StateSeen2(fed + src[pos..pos + lookAhead], count); NextSymbol().Some?
               && (dicPos == dicLimit ==> MatchNext()))
      requires p.Valid() && s.Valid(p) && Step(p, s).NeedInput? && OnStream(fed, n, s, false)
      modifies this, probs, dic
      ensures p.Valid() && (turn.Went? || turn.Bad?)
      ensures turn.Went? ==> Running() && pos <= pos1 <= |src| && fed == old(fed) + src[pos..pos1]
      ensures turn.Went? ==> tempBuf == [] && Progressed(old(dicPos), dicLimit)
      ensures turn.Bad? ==>
                BadStream(old(fed) + src[pos..]) || (old(dicPos) == dicLimit && Longer(old(fed) + src[pos..]))
      ensures dicPos <= dicLimit && |out| - dicPos == old(|out| - dicPos) && old(out) <= out
    {
      hide Valid, Settled, OnStream, AbsOn, NextSymbol, MatchNext, Hungry, BadStream, Longer, Standing, Running,
           Progressed,
           Step;
      ghost var f := fed + src[pos..pos + lookAhead];
      var res := RunStanding(dicLimit, 0, f);
      if res.ErrorData? {
        PeekedFed(f, src[pos + lookAhead..]);
        SplitFedEnd(old(fed), src, pos, pos + lookAhead);
        return Bad, pos;
      }
      ReadsBeyondHere(old(fed), src[pos..pos + lookAhead], n, s);
      pos1 := pos + buf - rem;
      SplitTemp(old(tempBuf), src, pos, lookAhead, buf);
      SplitFed(old(fed), src, pos, pos1, pos + lookAhead);
      LeaveBuffer(old(fed), src[pos..pos1], src[pos1..pos + lookAhead]);
      return Went, pos1;
    }

    lemma HungerSeen()
      requires Running() && tempBuf != []
      ensures |tempBuf| < REQUIRED_INPUT_MAX && remainLen != MATCH_SPEC_LEN_START
      ensures p.Valid() && (Pending() > 0 ==> 1 <= rep0 <= |out|) && AbsOn(tempBuf).Valid(p)
              && Step(p, AbsOn(tempBuf)).NeedInput?
    {
      hide Valid, OnStream, Step, AbsOn;
      HeldValid(tempBuf);
    }

    lemma ReadsBeyondHere(f: seq<Byte>, more: seq<Byte>, n: nat, s: Lz)
      requires Standing(f + more, count) && count > n && |f| >= RC_INIT_SIZE && p.Valid()
      requires s.Valid(p) && Step(p, s).NeedInput? && OnStream(f, n, s, false)
      ensures buf <= |input| && |input| - buf < |more|
    {
      hide Valid, OnStream, Step;
      StandingSeen(f + more);
      ReadsBeyond(f, more, n, count, s, Abs(), remainLen == MATCH_SPEC_LEN_START);
    }

    // ----- LzmaDec_DecodeToDic.

    /** The tail of a match left by the last call; the abstract machine does not move. */
    method FinishMatch(dicLimit: nat)
      requires Session() && dicPos <= dicLimit <= dic.Length
      modifies this`dicPos, this`out, this`processedPos, this`checkDicSize, this`remainLen, dic
      ensures Session() && (0 < remainLen < MATCH_SPEC_LEN_START ==> dicPos == dicLimit)
      ensures old(dicPos) <= dicPos <= dicLimit && |out| - dicPos == old(|out| - dicPos) && old(out) <= out
    {
      hide Shape, CoderOk, OnStream, Copy, Step, Remembers;
      SessionSeen();
      if remainLen != 0 && remainLen < MATCH_SPEC_LEN_START {
        RunningSeen();
        WriteRem(dicLimit);
      }
    }

    lemma SessionSeen()
      requires Session()
      ensures Fixed() && p.Valid() && buf <= |input| && (remainLen != 0 ==> Running())
      ensures !needFlush && !needInitState ==> Running()
      ensures remainLen <= MATCH_SPEC_LEN_START
      ensures needFlush ==> Fresh() && tempBuf == fed && |fed| < RC_INIT_SIZE
    {
      hide Valid, OnStream, Hungry;
    }

    /** Collects the five bytes that start the range coder. */
    method ReadHeader(src: seq<Byte>, pos: nat) returns (ok: bool, pos1: nat)
      requires Session() && needFlush && pos <= |src|
      modifies this`tempBuf, this`fed, this`code, this`range, this`needFlush
      ensures pos <= pos1 <= |src| && fed == old(fed) + src[pos..pos1]
      ensures needFlush ==> pos1 == |src| || (|fed| >= RC_INIT_SIZE && fed[0] != 0)
      ensures !ok ==> |fed| >= RC_INIT_SIZE && fed[0] != 0
      ensures ok ==> Session() && remainLen == 0 && (needFlush ==> pos1 == |src|)
    {
      hide Running;
      pos1 := pos;
      while pos1 < |src| && |tempBuf| < RC_INIT_SIZE
        invariant pos <= pos1 <= |src| && tempBuf == fed && |fed| <= RC_INIT_SIZE && needFlush
        invariant fed == old(fed) + src[pos..pos1] && Fresh() && Fixed() && buf <= |input|
      {
        tempBuf := tempBuf + [src[pos1]];
        fed := fed + [src[pos1]];
        pos1 := pos1 + 1;
      }
      ok := true;
      if |tempBuf| >= RC_INIT_SIZE {
        if tempBuf[0] != 0 {
          return false, pos1;
        }
        InitRc();
      }
    }

    /** What is known when the decoder stops with an error. */
    ghost predicate Reported(all: seq<Byte>, dicLimit: nat, finishEnd: bool)
      reads this, probs, dic
      requires p.Valid()
    {
      || (|all| >= RC_INIT_SIZE && all[0] != 0)
      || BadStream(all)
      || (Session() && fed <= all && remainLen == MATCH_SPEC_LEN_START && code != 0)
      || (finishEnd && dicPos == dicLimit && Longer(all))
    }

    /** A match in progress makes more output. */
    lemma PendingGoesOn(more: seq<Byte>)
      requires Running() && 0 < remainLen < MATCH_SPEC_LEN_START
      ensures p.Valid() && Longer(fed + more)
    {
      hide Valid, OnStream, Hungry, LongerAt;
      RunningSeen();
      CompletedIsLonger();
      StreamIsLonger(fed, count, AbsOn(tempBuf), |out|);
      LongerFed(fed, count, |out|, more);
    }

    lemma CompletedIsLonger()
      requires 0 < remainLen < MATCH_SPEC_LEN_START && 1 <= rep0 <= |out|
      ensures |Completed()| > |out|
    {
    }

    lemma StreamIsLonger(f: seq<Byte>, n: nat, s: Lz, k: nat)
      requires p.Valid() && |f| >= RC_INIT_SIZE && OnStream(f, n, s, false) && |s.out| > k
      ensures LongerAt(f, n, k)
    {
      hide Step, Initial;
      InitialValid(p, f);
    }

    /** The checks before a symbol: the header, the output limit, the initial state. */
    method Prepare(dicLimit: nat, src: seq<Byte>, pos: nat, finishEnd: bool)
      returns (stop: bool, res: Res, status: Status, pos1: nat)
      requires Session() && remainLen != MATCH_SPEC_LEN_START && pos <= |src| && dicPos <= dicLimit <= dic.Length
      requires remainLen > 0 ==> dicPos == dicLimit
      modifies this`tempBuf, this`fed, this`code, this`range, this`needFlush
      modifies this`rep0, this`rep1, this`rep2, this`rep3, this`state, this`needInitState, probs
      ensures p.Valid() && pos <= pos1 <= |src|
      ensures !stop ==> Running() && remainLen == 0 && (dicPos == dicLimit ==> finishEnd)
      ensures res.Ok? ==> Session() && fed == old(fed) + src[pos..pos1]
      ensures res.Ok? && stop ==> Stopped(status, dicLimit, finishEnd, pos1 == |src|)
      ensures res.ErrorData? ==> stop && Reported(old(fed) + src[pos..], dicLimit, finishEnd)
    {
      hide Running, Hungry, BadStream, Longer;
      res, status, stop, pos1 := Ok, NotSpecified, true, pos;
      SessionSeen();
      if needFlush {
        var ok;
        ok, pos1 := ReadHeader(src, pos);
        if !ok {
          return true, ErrorData, status, pos1;
        }
        if needFlush {
          return true, Ok, NeedsMoreInput, pos1;
        }
      }
      if dicPos >= dicLimit {
        if remainLen == 0 && code == 0 {
          return true, Ok, MaybeFinishedWithoutMark, pos1;
        }
        if !finishEnd {
          return true, Ok, NotFinished, pos1;
        }
        if remainLen != 0 {
          PendingGoesOn(src[pos1..]);
          return true, ErrorData, NotFinished, pos1;
        }
      }
      if needInitState {
        InitStateReal();
      }
      SessionSeen();
      stop := false;
    }

    /** One round of the main loop. */
    method DecodeTurn(dicLimit: nat, src: seq<Byte>, pos: nat, finishEnd: bool)
      returns (stop: bool, res: Res, status: Status, pos1: nat)
      requires Session() && remainLen != MATCH_SPEC_LEN_START && pos <= |src| && dicPos <= dicLimit <= dic.Length
      requires remainLen > 0 ==> dicPos == dicLimit
      modifies this, probs, dic
      ensures p.Valid()
      ensures dicPos <= dicLimit && |out| - dicPos == old(|out| - dicPos) && old(out) <= out
      ensures res.Ok? ==> Session() && pos <= pos1 <= |src| && fed == old(fed) + src[pos..pos1]
      ensures res.Ok? && !stop ==> Progressed(old(dicPos), dicLimit)
      ensures res.Ok? && stop ==> Stopped(status, dicLimit, finishEnd, pos1 == |src|)
      ensures res.ErrorData? ==> stop && Reported(old(fed) + src[pos..], dicLimit, finishEnd)
    {
      hide Running, Hungry, BadStream, Longer, Session, Fresh, Settled, Valid, Reported, Stopped;
      stop, res, status, pos1 := Prepare(dicLimit, src, pos, finishEnd);
      if stop {
        return;
      }
      SessionSeen();
      ghost var f := fed;
      var turn, pos2 := TurnAny(dicLimit, src, pos1);
      if turn.Bad? || turn.Unfinished? {
        SplitFedEnd(old(fed), src, pos, pos1);
        ReportedHere(old(fed) + src[pos..], dicLimit, finishEnd);
        return true, ErrorData, if turn.Bad? then NotSpecified else NotFinished, pos1;
      }
      SplitFed(old(fed), src, pos, pos1, pos2);
      SessionAgain();
      pos1 := pos2;
      if turn.Starved? {
        RunningSeen();
        StoppedHungry(dicLimit, finishEnd, pos1 == |src|);
        return true, Ok, NeedsMoreInput, pos1;
      }
    }

    lemma ReportedHere(all: seq<Byte>, dicLimit: nat, finishEnd: bool)
      requires p.Valid() && (BadStream(all) || (finishEnd && dicPos == dicLimit && Longer(all)))
      ensures Reported(all, dicLimit, finishEnd)
    {
      hide BadStream, Longer;
    }

    lemma StoppedHungry(dicLimit: nat, finishEnd: bool, allRead: bool)
      requires Session() && Running() && allRead && (RunningSeen(); Hungry())
      ensures Stopped(NeedsMoreInput, dicLimit, finishEnd, allRead)
    {
      hide Session, Running, Hungry;
      RunningSeen();
    }

    lemma SessionAgain()
      requires Running() && Fixed()
      ensures Session()
    {
      hide Valid, OnStream, Hungry;
      RunningSeen();
    }

    method TurnAny(dicLimit: nat, src: seq<Byte>, pos: nat) returns (turn: Turn, pos1: nat)
      requires Running() && remainLen == 0 && dicPos <= dicLimit <= dic.Length && pos <= |src|
      modifies this, probs, dic
      ensures p.Valid()
      ensures turn.Went? || turn.Starved? ==> Running() && pos <= pos1 <= |src| && fed == old(fed) + src[pos..pos1]
      ensures turn.Went? ==> tempBuf == [] && Progressed(old(dicPos), dicLimit)
      ensures turn.Starved? ==> pos1 == |src| && remainLen == 0 && dicPos == old(dicPos)
      ensures turn.Starved? ==> (RunningSeen(); Hungry())
      ensures turn.Bad? || turn.Unfinished? ==>
                BadStream(old(fed) + src[pos..]) || (old(dicPos) == dicLimit && Longer(old(fed) + src[pos..]))
      ensures dicPos <= dicLimit && |out| - dicPos == old(|out| - dicPos) && old(out) <= out
    {
      hide Running, BadStream, Longer, Hungry;
      if tempBuf == [] {
        turn, pos1 := TurnSrc(dicLimit, src, pos);
      } else {
        turn, pos1 := TurnTemp(dicLimit, src, pos);
      }
    }

    /** What each status tells the caller. */
    ghost predicate Stopped(status: Status, dicLimit: nat, finishEnd: bool, allRead: bool)
      reads this, probs, dic
      requires Session()
    {
      match status
      case NeedsMoreInput => allRead && (needFlush || (!needInitState && (SessionSeen(); RunningSeen(); Hungry())))
      case NotFinished => dicPos == dicLimit && !finishEnd
      case MaybeFinishedWithoutMark => dicPos == dicLimit && remainLen == 0 && !needFlush && code == 0
      case FinishedWithMark => !needFlush && !needInitState && remainLen == MATCH_SPEC_LEN_START && code == 0
      case NotSpecified => false
    }

    /** Decodes into the dictionary up to `dicLimit`, from as much of `src` as it needs. */
    method DecodeToDic(dicLimit: nat, src: seq<Byte>, finishEnd: bool) returns (res: Res, srcLen: nat, status: Status)
      requires Session() && dicPos <= dicLimit <= dic.Length
      modifies this, probs, dic
      ensures p.Valid()
      ensures dicPos <= dicLimit && |out| - dicPos == old(|out| - dicPos) && old(out) <= out
      ensures res.Ok? ==> Session() && srcLen <= |src| && fed == old(fed) + src[..srcLen]
      ensures res.Ok? ==> Stopped(status, dicLimit, finishEnd, srcLen == |src|)
      ensures res.ErrorData? ==> Reported(old(fed) + src, dicLimit, finishEnd)
    {
      hide Running, Hungry, BadStream, Longer, Session, Stopped, Reported;
      srcLen := 0;
      SessionSeen();
      FinishMatch(dicLimit);
      SessionSeen();
      status := NotSpecified;
      assert src[..0] == [];
      while remainLen != MATCH_SPEC_LEN_START
        invariant Session() && srcLen <= |src| && fed == old(fed) + src[..srcLen]
        invariant dicPos <= dicLimit && |out| - dicPos == old(|out| - dicPos) && old(out) <= out
        invariant 0 < remainLen < MATCH_SPEC_LEN_START ==> dicPos == dicLimit
        invariant remainLen <= MATCH_SPEC_LEN_START
        decreases if remainLen == MATCH_SPEC_LEN_START then 0 else 1, dicLimit - dicPos
      {
        var stop, pos1;
        stop, res, status, pos1 := DecodeTurn(dicLimit, src, srcLen, finishEnd);
        if res.ErrorData? {
          assert src[..srcLen] + src[srcLen..] == src;
          assert old(fed) + src[..srcLen] + src[srcLen..] == old(fed) + src;
          return;
        }
        assert src[..srcLen] + src[srcLen..pos1] == src[..pos1];
        srcLen := pos1;
        if stop {
          return;
        }
        SessionSeen();
      }
      res, status := EndMark(dicLimit, finishEnd, srcLen == |src|, old(fed) + src);
    }

    method EndMark(dicLimit: nat, finishEnd: bool, allRead: bool, ghost all: seq<Byte>)
      returns (res: Res, status: Status)
      requires Session() && remainLen == MATCH_SPEC_LEN_START && fed <= all
      ensures p.Valid()
      ensures res.Ok? ==> Stopped(status, dicLimit, finishEnd, allRead)
      ensures res.ErrorData? ==> Reported(all, dicLimit, finishEnd)
    {
      hide Running, Hungry, BadStream, Longer;
      SessionSeen();
      status := NotSpecified;
      if code == 0 {
        status := FinishedWithMark;
      }
      res := if code == 0 then Ok else ErrorData;
    }

    /** The end of a full dictionary is its start. */
    lemma FullIsStart()
      requires Remembers() && dicPos == dic.Length
      ensures forall d :: 1 <= d <= dic.Length && d <= |out| ==> dic[SlotOf(0, d)] == out[|out| - d]
    {
      forall d | 1 <= d <= dic.Length && d <= |out|
        ensures dic[SlotOf(0, d)] == out[|out| - d]
      {
        assert SlotOf(0, d) == SlotOf(dicPos, d);
      }
    }

    lemma StartRemembers()
      requires dicPos == 0 && dic.Length > 0
      requires forall d :: 1 <= d <= dic.Length && d <= |out| ==> dic[SlotOf(0, d)] == out[|out| - d]
      ensures Remembers()
    {
      hide SlotOf;
    }

    twostate lemma ShapeKept()
      requires old(Shape()) && Remembers()
      requires unchanged(this`out, this`state, this`rep0, this`rep1, this`rep2, this`rep3, this`remainLen)
      requires unchanged(this`processedPos, this`checkDicSize)
      ensures Shape()
    {
      hide Remembers;
    }

    lemma FullRuns()
      requires Session() && dicPos == dic.Length
      ensures Running() && Valid() && Settled() && Shape() && Fixed() && CoderOk() && Remembers() && dic.Length > 0
      ensures !needFlush && !needInitState && buf <= |input|
    {
      hide OnStream, Hungry, CoderOk, RepOk;
      SessionSeen();
    }

    lemma RunsOn()
      requires Running() && Fixed() && buf <= |input| && !needFlush && !needInitState
      ensures Session()
    {
      hide Running, Fixed;
    }

    /** The caller's turn of a full dictionary back to its start. */
    method WrapDic()
      requires Session() && dicPos == dic.Length
      modifies this`dicPos
      ensures Session() && dicPos == 0
    {
      hide OnStream, Step, CoderOk, AbsOn, RepOk, SlotOf, Hungry, Session, Running, Shape, Remembers, Valid, Fixed;
      FullRuns();
      FullIsStart();
      label Before:
      dicPos := 0;
      StartRemembers();
      ShapeKept@Before();
      HungryKept@Before();
      RunsOn();
    }

    /** The place in the dictionary has no part in what the bytes kept back hold. */
    twostate lemma HungryKept()
      requires old(Running()) && Settled() && Shape() && Fixed() && CoderOk()
      requires unchanged(this`out, this`state, this`rep0, this`rep1, this`rep2, this`rep3, this`remainLen)
      requires unchanged(this`range, this`code, this`tempBuf, this`fed, this`count, probs)
      requires unchanged(this`needFlush, this`needInitState)
      ensures Running()
    {
      hide OnStream, Step, CoderOk, AbsOn, RepOk, Remembers;
    }

    /** What lies below `dicPos` is the end of the output. */
    lemma LowerPart(at: nat, n: nat)
      requires Session() && dicPos <= |out| && at + n <= dicPos
      ensures dicPos <= dic.Length && dic.Length > 0
      ensures var base := |out| - dicPos; dic[at..at + n] == out[base + at..base + at + n]
    {
      hide OnStream, Hungry, CoderOk, Remembers;
      SessionSeen();
      if needFlush || needInitState {
        assert dic[at..at + n] == [];
      } else {
        RunRemembers();
        LowerRemembered(at, n);
      }
    }

    lemma RunRemembers()
      requires Running()
      ensures Remembers()
    {
      hide OnStream, Hungry, CoderOk, Remembers;
    }

    lemma LowerRemembered(at: nat, n: nat)
      requires Remembers() && dicPos <= |out| && at + n <= dicPos
      ensures dicPos <= dic.Length && dic.Length > 0
      ensures var base := |out| - dicPos; dic[at..at + n] == out[base + at..base + at + n]
    {
      var base := |out| - dicPos;
      var a, b := dic[at..at + n], out[base + at..base + at + n];
      forall k | 0 <= k < n
        ensures a[k] == b[k]
      {
        var d := dicPos - (at + k);
        assert SlotOf(dicPos, d) == at + k;
        assert dic[SlotOf(dicPos, d)] == out[|out| - d];
      }
    }
  }

  /** The same stream, fed to two decoders in any pieces and with any output limits, gives
      outputs of which one is the beginning of the other. */
  lemma ChunkingInvisible(a: LzmaDec, b: LzmaDec, more: seq<Byte>)
    requires a.Session() && b.Session() && a.p == b.p && b.fed == a.fed + more
    ensures a.out <= b.out || b.out <= a.out
  {
    hide LzmaDec.Running, Steps, Step, Initial;
    a.SessionSeen();
    b.SessionSeen();
    if !a.needFlush && !a.needInitState && !b.needFlush && !b.needInitState {
      StoodAt(a);
      StoodAt(b);
      InitialValid(a.p, a.fed);
      InitialValid(a.p, b.fed);
      RunsAgree(a.p, a.fed, more, a.count, b.count, a.AbsOn(a.tempBuf), b.AbsOn(b.tempBuf));
    }
  }

  lemma StoodAt(a: LzmaDec)
    requires a.Running()
    ensures a.p.Valid() && |a.fed| >= RC_INIT_SIZE && (a.Pending() > 0 ==> 1 <= a.rep0 <= |a.out|)
    ensures Initial(a.p, a.fed).Valid(a.p) && a.out <= a.AbsOn(a.tempBuf).out
    ensures
      var t := a.AbsOn(a.tempBuf);
      Steps(a.p, Initial(a.p, a.fed), a.count) == Next(t) || Steps(a.p, Initial(a.p, a.fed), a.count) == Finished(t)
  {
    hide Step, Initial, Copy, LzmaDec.Valid, LzmaDec.Hungry;
    a.RunningSeen();
    InitialValid(a.p, a.fed);
  }

  lemma SplitTemp(temp: seq<Byte>, src: seq<Byte>, pos: nat, n: nat, at: nat)
    requires pos + n <= |src| && |temp| <= at <= |temp| + n
    ensures (temp + src[pos..pos + n])[at..] == src[pos + at - |temp|..pos + n]
  {
  }

  lemma SplitFed(f: seq<Byte>, src: seq<Byte>, a: nat, b: nat, c: nat)
    requires a <= b <= c <= |src|
    ensures f + src[a..b] + src[b..c] == f + src[a..c]
  {
    assert src[a..b] + src[b..c] == src[a..c];
  }

  lemma SplitFedEnd(f: seq<Byte>, src: seq<Byte>, a: nat, b: nat)
    requires a <= b <= |src|
    ensures f + src[a..b] + src[b..] == f + src[a..]
  {
    assert src[a..b] + src[b..] == src[a..];
  }

  lemma SameFed(a: Lz, b: Lz, more: seq<Byte>)
    requires FedLz(a, more) == FedLz(b, more)
    ensures a == b
  {
    assert a.rc.rest == (a.rc.rest + more)[..|a.rc.rest|];
    assert b.rc.rest == (b.rc.rest + more)[..|b.rc.rest|];
  }

  function DummyOf(kind: Kind): DummyRes {
    match kind
    case LiteralKind => DummyLit
    case RepKind => DummyRep
    case MatchKind => DummyMatch
  }

  lemma CopyStep(out: seq<Byte>, distance: nat, n: nat)
    requires 1 <= distance <= |out| && n > 0
    ensures Copy(out, distance, n) == Copy(out + [out[|out| - distance]], distance, n - 1)
  {
  }

  lemma CopyNone(out: seq<Byte>, distance: nat)
    requires 1 <= distance <= |out|
    ensures Copy(out, distance, 0) == out
  {
  }

  /** The walk of the next symbol from a machine whose last normalisation is pending. */
  lemma SymbolStart(p: Props, s: Lz) returns (g: Outcome)
    requires p.Valid() && Normalize(s.rc).Some? && Norm(s).Valid(p) && s.rc.Valid() && s.rc.range >= 0x1_0000
    requires ContextOf(p, Norm(s)).Valid(|s.probs|) ==>
          RunSymbol(ContextOf(p, Norm(s)), s.probs, Norm(s).rc, true).Some?
    ensures ContextOf(p, s).Valid(|s.probs|) && Ready(ContextOf(p, s), AskMatch, s.probs)
    ensures Run(ContextOf(p, s), AskMatch, s.probs, s.rc, true) == Some(g)
    ensures Normalize(g.rc).Some? && |g.rc.rest| <= |s.rc.rest|
    ensures RunSymbol(ContextOf(p, Norm(s)), s.probs, Norm(s).rc, true).value.symbol == g.symbol
    ensures Step(p, Norm(s)) == NormProgress(Apply(p, s, g))
  {
    hide LitIndex, Copy, Advance, BitsLeft, Ask, Apply;
    ContextValid(p, Norm(s));
    var c := ContextOf(p, s);
    g := Run(c, AskMatch, s.probs, s.rc, true).value;
    RunKeepsCoder(c, AskMatch, s.probs, s.rc, true);
    ApplyNorm(p, s, g);
  }

  lemma CopyOne(out: seq<Byte>, distance: nat)
    requires 1 <= distance <= |out|
    ensures Copy(out, distance, 1) == out + [out[|out| - distance]]
  {
    assert Copy(out + [out[|out| - distance]], distance, 0) == out + [out[|out| - distance]];
  }

  /** The effect of a symbol keeps the coder the walk arrived with. */
  lemma ApplyCarries(p: Props, s: Lz, g: Outcome)
    ensures Apply(p, s, g).Next? ==> Apply(p, s, g).s.rc == g.rc
    ensures Apply(p, s, g).Finished? ==> Apply(p, s, g).s.rc == g.rc
  {
    hide Copy;
  }

  lemma OnlyMatchesEnd(p: Props, s: Lz, g: Outcome)
    ensures KindOf(g.symbol) != MatchKind ==> !Apply(p, s, g).Finished? && !Apply(p, s, g).NeedInput?
  {
    hide Copy;
  }

  lemma ApplyShortRep(p: Props, s: Lz, g: Outcome)
    requires g.symbol == ShortRep && 1 <= s.rep0 <= |s.out|
    ensures Apply(p, s, g)
         == Next(Lz(Copy(s.out, s.rep0, 1), if s.state < 7 then 9 else 11,
                    s.rep0, s.rep1, s.rep2, s.rep3, g.probs, g.rc))
  {
    hide Copy;
  }

  lemma ApplyMarker(p: Props, s: Lz, g: Outcome)
    ensures g.symbol.Marker? ==> Apply(p, s, g) == Finished(s.(probs := g.probs, rc := g.rc))
  {
    hide Copy;
  }

  lemma ApplyMatch(p: Props, s: Lz, g: Outcome, len: nat, distance: nat)
    requires g.symbol == Match(len, distance)
    ensures distance >= |s.out| || distance >= p.dicSize ==> Apply(p, s, g) == DataError
    ensures distance < |s.out| && distance < p.dicSize ==>
      Apply(p, s, g)
      == Next(Lz(Copy(s.out, distance + 1, len + MATCH_MIN_LEN), if s.state < 7 then 7 else 10,
                 distance + 1, s.rep0, s.rep1, s.rep2, g.probs, g.rc))
  {
    hide Copy;
  }

  lemma ApplyLongRep(p: Props, s: Lz, g: Outcome, which: nat, len: nat)
    requires g.symbol == LongRep(which, len) && s.out != []
    requires 1 <= Rotated(s, which).rep0 <= |s.out|
    ensures
      var u := Rotated(s, which);
      Apply(p, s, g)
      == Next(Lz(Copy(s.out, u.rep0, len + MATCH_MIN_LEN), if s.state < 7 then 8 else 11,
                 u.rep0, u.rep1, u.rep2, u.rep3, g.probs, g.rc))
  {
    hide Copy;
  }

  function NormProgress(r: Progress): Progress {
    match r
    case Next(s) => if Normalize(s.rc).Some? then Next(s.(rc := Normalize(s.rc).value)) else NeedInput
    case Finished(s) => if Normalize(s.rc).Some? then Finished(s.(rc := Normalize(s.rc).value)) else NeedInput
    case DataError => DataError
    case NeedInput => NeedInput
  }

  lemma ApplyNorm(p: Props, s: Lz, g: Outcome)
    requires Normalize(g.rc).Some? && Normalize(s.rc).Some?
    ensures Apply(p, Norm(s), g.(rc := Normalize(g.rc).value)) == NormProgress(Apply(p, s, g))
  {
    hide Normalize, Copy;
  }

  ghost function Norm(s: Lz): Lz
    requires Normalize(s.rc).Some?
  {
    s.(rc := Normalize(s.rc).value)
  }
}
