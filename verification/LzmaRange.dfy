/**
 The range coder of stage2/dec_lzma.c, and what it means to decode one symbol with it.

 `Run` decodes the rest of a symbol from a phase of the grammar. With `adapt` the probability
 of each consulted slot is updated, as the real decoder does; without it the table is only
 read, as the dry run does.
 */
module LzmaRange {
  import opened Words
  import opened LzmaGrammar

  const TOP := 0x100_0000
  const TOP_REAL := 16777216.0
  const PROB_TOTAL := 2048
  const PROB_MIN := 31
  const PROB_MAX := 2017
  const REQUIRED_INPUT_MAX := 20

  type Probs = seq<nat>

  /** Range, code, and the input not yet consumed. */
  datatype Rc = Rc(range: nat, code: nat, rest: seq<Byte>)
  {
    predicate Valid() {
      range < WORD && code < WORD
    }
  }

  function Normalize(rc: Rc): (r: Option<Rc>)
  {
    if rc.range >= TOP then Some(rc)
    else if rc.rest == [] then None
    else Some(Rc(rc.range * 256, (rc.code * 256 + rc.rest[0]) % WORD, rc.rest[1..]))
  }

  function BoundOf(range: nat, p: nat): nat {
    (range / PROB_TOTAL) * p
  }

  lemma BoundInRange(range: nat, p: nat)
    requires p <= PROB_TOTAL
    ensures BoundOf(range, p) <= range
  {
    assert (range / PROB_TOTAL) * p <= (range / PROB_TOTAL) * PROB_TOTAL;
  }

  function ModelBit(rc: Rc, p: nat): Bit {
    if rc.code < BoundOf(rc.range, p) then 0 else 1
  }

  function AfterModel(rc: Rc, p: nat): Rc {
    var bound := BoundOf(rc.range, p);
    if rc.code < bound then rc.(range := bound)
    else rc.(range := Max(rc.range - bound, 0), code := rc.code - bound)
  }

  function Adapted(p: nat, bit: Bit): nat {
    if bit == 0 then p + Max(PROB_TOTAL - p, 0) / 32 else p - p / 32
  }

  function Sub32(a: nat, b: nat): nat {
    (a - b) % WORD
  }

  /** The direct bit: the complement of the sign of `code - range / 2` as a 32-bit word. */
  function DirectBit(rc: Rc): Bit {
    if Sub32(rc.code, rc.range / 2) >= 0x8000_0000 then 0 else 1
  }

  function AfterDirect(rc: Rc): Rc {
    var half := rc.range / 2;
    Rc(half, if DirectBit(rc) == 0 then rc.code else Sub32(rc.code, half), rc.rest)
  }

  ghost predicate ValidProbs(probs: Probs) {
    forall s :: 0 <= s < |probs| ==> PROB_MIN <= probs[s] <= PROB_MAX
  }

  datatype Outcome = Outcome(symbol: Symbol, probs: Probs, rc: Rc)

  /** A phase is ready when the grammar and the tables it needs are in order. */
  ghost predicate Ready(c: Context, ph: Phase, probs: Probs) {
    c.Valid(|probs|) && ValidPhase(c, ph)
  }

  /** Decodes to the end of the symbol; None when the input runs out first. */
  function Run(c: Context, ph: Phase, probs: Probs, rc: Rc, adapt: bool): Option<Outcome>
    requires Ready(c, ph, probs)
    decreases BitsLeft(ph)
  {
    if ph.Decoded? then Some(Outcome(ph.result, probs, rc))
    else
      match Normalize(rc)
      case None => None
      case Some(n) =>
        AskInTable(c, ph, |probs|);
        match Ask(c, ph)
        case Direct =>
          AdvanceValid(c, ph, DirectBit(n), |probs|);
          Run(c, Advance(c, ph, DirectBit(n)), probs, AfterDirect(n), adapt)
        case Model(s) =>
          var bit := ModelBit(n, probs[s]);
          AdvanceValid(c, ph, bit, |probs|);
          Run(c, Advance(c, ph, bit), if adapt then probs[s := Adapted(probs[s], bit)]
            else probs, AfterModel(n, probs[s]), adapt)
  }

  /** One whole symbol with its final normalisation. */
  function RunSymbol(c: Context, probs: Probs, rc: Rc, adapt: bool): Option<Outcome>
    requires c.Valid(|probs|)
  {
    match Run(c, AskMatch, probs, rc, adapt)
    case None => None
    case Some(o) =>
      match Normalize(o.rc)
      case None => None
      case Some(n) => Some(o.(rc := n))
  }

  // ----- The two forms of the direct bit.

  /** The add-back form used by the decoder and the masked form used by the dry run agree
      on every range and code, well-formed or not. */
  lemma BranchFreeForms(code: nat, half: nat)
    requires code < WORD && half < 0x8000_0000
    ensures
      var diff := Sub32(code, half);
      var t := if diff >= 0x8000_0000 then WORD - 1 else 0;
      var kept := if diff >= 0x8000_0000 then 0 else half;
      (diff + (if t == 0 then 0 else half)) % WORD == Sub32(code, kept)
  {
  }

  /** On a well-formed coder both are the plain comparison. */
  lemma DirectBitIsComparison(rc: Rc)
    requires rc.Valid() && rc.code < rc.range
    ensures DirectBit(rc) == if rc.code >= rc.range / 2 then 1 else 0
    ensures AfterDirect(rc).code <= AfterDirect(rc).range
    ensures rc.range % 2 == 0 ==> AfterDirect(rc).code < AfterDirect(rc).range
  {
  }

  // ----- The probability invariant.

  lemma AdaptedStays(p: nat, bit: Bit)
    requires PROB_MIN <= p <= PROB_MAX
    ensures PROB_MIN <= Adapted(p, bit) <= PROB_MAX
  {
  }

  /** Decoding any number of bits keeps every probability in [31, 2017]. */
  lemma {:induction false} RunKeepsProbs(c: Context, ph: Phase, probs: Probs, rc: Rc, adapt: bool)
    requires Ready(c, ph, probs) && ValidProbs(probs)
    ensures Run(c, ph, probs, rc, adapt).Some? ==>
      var o := Run(c, ph, probs, rc, adapt).value;
      |o.probs| == |probs| && ValidProbs(o.probs) && ValidSymbol(o.symbol)
    decreases BitsLeft(ph)
  {
    if !ph.Decoded? && Normalize(rc).Some? {
      var n := Normalize(rc).value;
      AskInTable(c, ph, |probs|);
      match Ask(c, ph)
      case Direct =>
        AdvanceValid(c, ph, DirectBit(n), |probs|);
        RunKeepsProbs(c, Advance(c, ph, DirectBit(n)), probs, AfterDirect(n), adapt);
      case Model(s) =>
        var bit := ModelBit(n, probs[s]);
        AdaptedStays(probs[s], bit);
        AdvanceValid(c, ph, bit, |probs|);
        var probs1 := if adapt then probs[s := Adapted(probs[s], bit)] else probs;
        RunKeepsProbs(c, Advance(c, ph, bit), probs1, AfterModel(n, probs[s]), adapt);
    }
  }

  // ----- No slot is consulted twice in one symbol.

  ghost predicate AheadTail(coder: Coder, s: int) {
    coder.NewMatch? && POS_SLOT <= s < LEN_CODER
  }

  ghost predicate AheadLength(coder: Coder, from: int, s: int) {
    from <= s < coder.Start() + NUM_LEN_PROBS || AheadTail(coder, s)
  }

  ghost predicate AheadOldLength(s: int) {
    AheadLength(OldMatch(0), REP_LEN_CODER, s)
  }

  ghost predicate AheadLiteral(c: Context, s: int) {
    c.litBase <= s < c.litBase + LIT_SIZE
  }

  ghost predicate AheadG2(c: Context, s: int) {
    s == IS_REP_G2 + c.state || AheadOldLength(s)
  }

  ghost predicate AheadG1(c: Context, s: int) {
    s == IS_REP_G1 + c.state || AheadG2(c, s)
  }

  ghost predicate AheadLong(c: Context, s: int) {
    s == IS_REP0_LONG + 16 * c.state + c.posState || AheadOldLength(s)
  }

  ghost predicate AheadG0(c: Context, s: int) {
    s == IS_REP_G0 + c.state || AheadLong(c, s) || AheadG1(c, s)
  }

  ghost predicate AheadRep(c: Context, s: int) {
    s == IS_REP + c.state || AheadG0(c, s) || AheadLength(NewMatch, LEN_CODER, s)
  }

  /** The slots that may still be consulted from a phase on. */
  ghost predicate Ahead(c: Context, ph: Phase, s: int) {
    match ph
    case AskMatch => s == IS_MATCH + 16 * c.state + c.posState || AheadLiteral(c, s) || AheadRep(c, s)
    case PlainLiteral(symbol) => AheadLiteral(c, s) && c.litBase + symbol <= s
    case MatchedLiteral(_, _, symbol) => AheadLiteral(c, s) && (s - c.litBase) % 256 >= symbol
    case AskRep => AheadRep(c, s)
    case AskG0 => AheadG0(c, s)
    case AskLong => AheadLong(c, s)
    case AskG1 => AheadG1(c, s)
    case AskG2 => AheadG2(c, s)
    case LenChoice(coder) => AheadLength(coder, coder.Start(), s)
    case LenChoice2(coder) => AheadLength(coder, coder.Start() + 1, s)
    case LenTree(coder, base, _, _, i) => AheadLength(coder, base + i, s)
    case SlotTree(len, i) => SlotBase(len) + i <= s < LEN_CODER
    case SpecTree(_, posSlot, _, _, i) => SpecBase(posSlot) + i <= s < ALIGN
    case DirectBits(_, _, _) => ALIGN <= s < LEN_CODER
    case AlignTree(_, _, _, i) => ALIGN + i <= s < LEN_CODER
    case Decoded(_) => false
  }

  /** The slot asked for is ahead, and is behind for good once the bit is answered. */
  lemma NoSlotTwice(c: Context, ph: Phase, bit: Bit, numProbs: nat, s: int)
    requires c.Valid(numProbs) && ValidPhase(c, ph) && !ph.Decoded?
    ensures Ask(c, ph).Model? ==> Ahead(c, ph, Ask(c, ph).slot)
    ensures Ahead(c, Advance(c, ph, bit), s) ==> Ahead(c, ph, s) && !(Ask(c, ph).Model? && Ask(c, ph).slot == s)
  {
    hide Ahead, Ask, Advance, ValidPhase;
    match ph
    case MatchedLiteral(_, _, _) => NoSlotTwiceMatched(c, ph, bit, s);
    case LenTree(_, _, _, _, _) => NoSlotTwiceLength(c, ph, bit, s);
    case SlotTree(_, _) => NoSlotTwiceSlot(c, ph, bit, s);
    case SpecTree(_, _, _, _, _) => NoSlotTwiceSpec(c, ph, bit, s);
    case DirectBits(_, _, _) => NoSlotTwiceDirect(c, ph, bit, s);
    case AlignTree(_, _, _, _) => NoSlotTwicePlain(c, ph, bit, s);
    case PlainLiteral(_) => NoSlotTwicePlain(c, ph, bit, s);
    case LenChoice(_) => NoSlotTwicePlain(c, ph, bit, s);
    case LenChoice2(_) => NoSlotTwicePlain(c, ph, bit, s);
    case _ => NoSlotTwiceFlag(c, ph, bit, s);
  }

  ghost predicate IsFlag(ph: Phase) {
    ph.AskMatch? || ph.AskRep? || ph.AskG0? || ph.AskG1? || ph.AskG2? || ph.AskLong?
  }

  lemma NoSlotTwiceFlag(c: Context, ph: Phase, bit: Bit, s: int)
    requires IsFlag(ph) && c.state < 12 && c.posState < 16 && c.litBase >= LITERAL
    ensures Ahead(c, ph, Ask(c, ph).slot)
    ensures Ahead(c, Advance(c, ph, bit), s) ==> Ahead(c, ph, s) && Ask(c, ph).slot != s
  {
  }

  lemma NoSlotTwicePlain(c: Context, ph: Phase, bit: Bit, s: int)
    requires ph.AlignTree? || ph.PlainLiteral? || ph.LenChoice? || ph.LenChoice2?
    requires ValidPhase(c, ph) && c.posState < 16
    ensures Ahead(c, ph, Ask(c, ph).slot)
    ensures Ahead(c, Advance(c, ph, bit), s) ==> Ahead(c, ph, s) && Ask(c, ph).slot != s
  {
  }

  lemma NoSlotTwiceSpec(c: Context, ph: Phase, bit: Bit, s: int)
    requires ph.SpecTree? && ValidPhase(c, ph)
    ensures Ahead(c, ph, Ask(c, ph).slot)
    ensures Ahead(c, Advance(c, ph, bit), s) ==> Ahead(c, ph, s) && Ask(c, ph).slot != s
  {
    hide SpecBase;
    SpecSlots(ph.posSlot, ph.i);
  }

  lemma NoSlotTwiceDirect(c: Context, ph: Phase, bit: Bit, s: int)
    requires ph.DirectBits?
    ensures !Ask(c, ph).Model?
    ensures Ahead(c, Advance(c, ph, bit), s) ==> Ahead(c, ph, s)
  {
  }

  lemma NoSlotTwiceMatched(c: Context, ph: Phase, bit: Bit, s: int)
    requires ph.MatchedLiteral? && ValidPhase(c, ph)
    ensures Ahead(c, ph, Ask(c, ph).slot)
    ensures Ahead(c, Advance(c, ph, bit), s) ==> Ahead(c, ph, s) && Ask(c, ph).slot != s
  {
    var high := ph.offs + MatchBit(ph.offs, ph.matchByte);
    assert high == 0 || high == 256 || high == 512;
    assert (high + ph.symbol) % 256 == ph.symbol;
  }

  lemma NoSlotTwiceLength(c: Context, ph: Phase, bit: Bit, s: int)
    requires ph.LenTree? && ValidPhase(c, ph) && c.posState < 16
    ensures Ahead(c, ph, Ask(c, ph).slot)
    ensures Ahead(c, Advance(c, ph, bit), s) ==> Ahead(c, ph, s) && Ask(c, ph).slot != s
  {
    assert ph.coder.Start() + 2 <= ph.base && ph.base + ph.i < ph.coder.Start() + NUM_LEN_PROBS;
  }

  lemma NoSlotTwiceSlot(c: Context, ph: Phase, bit: Bit, s: int)
    requires ph.SlotTree? && ValidPhase(c, ph)
    ensures Ahead(c, ph, Ask(c, ph).slot)
    ensures Ahead(c, Advance(c, ph, bit), s) ==> Ahead(c, ph, s) && Ask(c, ph).slot != s
  {
    if 2 * ph.i + bit >= 64 {
      SlotDoneSlots(c, ph.len, 2 * ph.i + bit - 64, s);
    }
  }

  lemma SpecSlots(posSlot: nat, i: nat)
    requires 4 <= posSlot < 14 && i < SpecWidth(posSlot)
    ensures POS_SLOT <= SpecBase(posSlot) && SpecBase(posSlot) + i < ALIGN
    ensures SPEC_POS <= SpecBase(posSlot) + 1
  {
    assert (2 + posSlot % 2) * SpecWidth(posSlot) == 2 * SpecWidth(posSlot)
           || (2 + posSlot % 2) * SpecWidth(posSlot) == 3 * SpecWidth(posSlot);
  }

  lemma SlotDoneSlots(c: Context, len: nat, posSlot: nat, s: int)
    requires posSlot < 64
    ensures Ahead(c, SlotDone(len, posSlot), s) ==> SPEC_POS <= s < LEN_CODER
  {
    if 4 <= posSlot < 14 {
      SpecSlots(posSlot, 1);
    }
  }

  ghost predicate AgreeAhead(c: Context, ph: Phase, a: Probs, b: Probs) {
    |a| == |b| && forall s :: 0 <= s < |a| && Ahead(c, ph, s) ==> a[s] == b[s]
  }

  lemma AgreeAdvance(c: Context, ph: Phase, bit: Bit, a: Probs, b: Probs)
    requires Ready(c, ph, a) && !ph.Decoded? && AgreeAhead(c, ph, a, b) && Ask(c, ph).Model?
    requires 0 <= Ask(c, ph).slot < |a|
    ensures
      var s := Ask(c, ph).slot;
      a[s] == b[s] && AgreeAhead(c, Advance(c, ph, bit), a[s := Adapted(a[s], bit)], b)
  {
    NoSlotTwice(c, ph, bit, |a|, Ask(c, ph).slot);
    var ph1 := Advance(c, ph, bit);
    forall s | 0 <= s < |a| && Ahead(c, ph1, s)
      ensures a[Ask(c, ph).slot := Adapted(a[Ask(c, ph).slot], bit)][s] == b[s]
    {
      NoSlotTwice(c, ph, bit, |a|, s);
    }
  }

  lemma AgreeDirect(c: Context, ph: Phase, bit: Bit, a: Probs, b: Probs)
    requires Ready(c, ph, a) && !ph.Decoded? && AgreeAhead(c, ph, a, b) && Ask(c, ph).Direct?
    ensures AgreeAhead(c, Advance(c, ph, bit), a, b)
  {
    forall s | 0 <= s < |a| && Ahead(c, Advance(c, ph, bit), s)
      ensures a[s] == b[s]
    {
      NoSlotTwice(c, ph, bit, |a|, s);
    }
  }

  /** The same input gives the same symbol and leaves the same coder. */
  ghost predicate SameWalk(a: Option<Outcome>, b: Option<Outcome>) {
    a.Some? == b.Some? && (a.Some? ==> a.value.symbol == b.value.symbol && a.value.rc == b.value.rc)
  }

  lemma {:induction false} FrozenWalk(c: Context, ph: Phase, a: Probs, b: Probs, rc: Rc)
    requires Ready(c, ph, a) && AgreeAhead(c, ph, a, b)
    ensures SameWalk(Run(c, ph, a, rc, true), Run(c, ph, b, rc, false))
    decreases BitsLeft(ph)
  {
    if !ph.Decoded? && Normalize(rc).Some? {
      var n := Normalize(rc).value;
      AskInTable(c, ph, |a|);
      match Ask(c, ph)
      case Direct =>
        var bit := DirectBit(n);
        AdvanceValid(c, ph, bit, |a|);
        AgreeDirect(c, ph, bit, a, b);
        FrozenWalk(c, Advance(c, ph, bit), a, b, AfterDirect(n));
      case Model(s) =>
        var bit := ModelBit(n, a[s]);
        AdvanceValid(c, ph, bit, |a|);
        AgreeAdvance(c, ph, bit, a, b);
        FrozenWalk(c, Advance(c, ph, bit), a[s := Adapted(a[s], bit)], b, AfterModel(n, a[s]));
    }
  }

  /** A decoder that never updates its table sees, within one symbol, exactly what the
      adaptive decoder sees: the same end of input, the same symbol, the same coder. */
  lemma DryRunAgrees(c: Context, probs: Probs, rc: Rc)
    requires c.Valid(|probs|)
    ensures SameWalk(RunSymbol(c, probs, rc, true), RunSymbol(c, probs, rc, false))
  {
    FrozenWalk(c, AskMatch, probs, probs, rc);
  }

  // ----- One symbol needs at most twenty bytes.

  /** Upper bounds on the modelled and on the direct bits still to come. */
  function ModelsLeft(ph: Phase): nat
  {
    match ph
    case AskMatch => 22
    case PlainLiteral(symbol) => BitsTo(symbol, 256)
    case MatchedLiteral(_, _, symbol) => BitsTo(symbol, 256)
    case AskRep => 21
    case AskG0 => 13
    case AskG1 => 12
    case AskG2 => 11
    case AskLong => 11
    case LenChoice(coder) => TailModels(coder) + 10
    case LenChoice2(coder) => TailModels(coder) + 9
    case LenTree(coder, _, _, limit, i) => TailModels(coder) + BitsTo(i, limit)
    case SlotTree(_, i) => 4 + BitsTo(i, 64)
    case SpecTree(_, posSlot, _, mask, _) => BitsTo(mask, SpecWidth(posSlot))
    case DirectBits(_, _, left) => 4
    case AlignTree(_, _, mask, _) => BitsTo(mask, 16)
    case Decoded(_) => 0
  }

  function TailModels(coder: Coder): nat {
    if coder.NewMatch? then 10 else 0
  }

  function DirectsLeft(ph: Phase): nat
  {
    match ph
    case AskMatch => 26
    case AskRep => 26
    case LenChoice(coder) => if coder.NewMatch? then 26 else 0
    case LenChoice2(coder) => if coder.NewMatch? then 26 else 0
    case LenTree(coder, _, _, _, _) => if coder.NewMatch? then 26 else 0
    case SlotTree(_, i) => 26
    case DirectBits(_, _, left) => left
    case _ => 0
  }

  /** By how much bits can shrink the range: a modelled bit at most 67 times, a direct bit
      at most 2.025 times. */
  function Shrink(models: nat, directs: nat): (p: real)
    ensures p >= 1.0
    decreases models + directs
  {
    if directs > 0 then 2.025 * Shrink(models, directs - 1)
    else if models > 0 then 67.0 * Shrink(models - 1, 0)
    else 1.0
  }

  lemma ShrinkModel(models: nat, directs: nat)
    requires models > 0
    ensures Shrink(models, directs) == 67.0 * Shrink(models - 1, directs)
  {
    if directs > 0 {
      ShrinkModel(models, directs - 1);
    }
  }

  ghost function ShrinkOf(ph: Phase): real {
    Shrink(ModelsLeft(ph), DirectsLeft(ph))
  }

  lemma ShrinkMono(m1: nat, d1: nat, m2: nat, d2: nat)
    requires m1 <= m2 && d1 <= d2
    ensures Shrink(m1, d1) <= Shrink(m2, d2)
    decreases m2 - m1 + d2 - d1
  {
    if d1 < d2 {
      ShrinkMono(m1, d1, m2, d2 - 1);
    } else if m1 < m2 {
      ShrinkModel(m2, d2);
      ShrinkMono(m1, d1, m2 - 1, d2);
    }
  }

  /** Seven direct bits outweigh a modelled one, so the five modelled bits of a short
      distance cost less than the long form. */
  lemma SpecCheaper()
    ensures Shrink(5, 0) <= Shrink(4, 26)
  {
    assert Shrink(0, 6) >= 67.0;
    assert Shrink(4, 6) >= 67.0 * Shrink(4, 0);
    ShrinkMono(4, 6, 4, 26);
  }

  /** Each answered bit takes its share of the shrinkage. */
  lemma ShrinkAdvance(c: Context, ph: Phase, bit: Bit)
    requires ValidPhase(c, ph) && !ph.Decoded?
    ensures Ask(c, ph).Model? ==> ShrinkOf(ph) >= 67.0 * ShrinkOf(Advance(c, ph, bit))
    ensures Ask(c, ph).Direct? ==> ShrinkOf(ph) >= 2.025 * ShrinkOf(Advance(c, ph, bit))
  {
    var ph1 := Advance(c, ph, bit);
    if ph.DirectBits? {
      ShrinkMono(ModelsLeft(ph1), DirectsLeft(ph1), ModelsLeft(ph), DirectsLeft(ph) - 1);
    } else {
      ModelsPositive(c, ph);
      ShrinkModel(ModelsLeft(ph), DirectsLeft(ph));
      if ph.SlotTree? && ph1.SpecTree? {
        SpecCheaper();
        SpecBits(c, ph, bit);
        ShrinkMono(ModelsLeft(ph1), 0, 5, 0);
        ShrinkMono(4, 26, ModelsLeft(ph) - 1, 26);
      } else {
        ModelsAdvance(c, ph, bit);
        ShrinkMono(ModelsLeft(ph1), DirectsLeft(ph1), ModelsLeft(ph) - 1, DirectsLeft(ph));
      }
    }
  }

  lemma ModelsPositive(c: Context, ph: Phase)
    requires ValidPhase(c, ph) && !ph.Decoded? && !ph.DirectBits?
    ensures ModelsLeft(ph) > 0 && Ask(c, ph).Model?
    ensures ph.SlotTree? ==> ModelsLeft(ph) >= 5 && DirectsLeft(ph) == 26
  {
  }

  lemma SpecBits(c: Context, ph: Phase, bit: Bit)
    requires ph.SlotTree? && ValidPhase(c, ph) && Advance(c, ph, bit).SpecTree?
    ensures ModelsLeft(Advance(c, ph, bit)) <= 5 && DirectsLeft(Advance(c, ph, bit)) == 0
  {
  }

  lemma ModelsAdvance(c: Context, ph: Phase, bit: Bit)
    requires ValidPhase(c, ph) && !ph.Decoded? && !ph.DirectBits?
    requires !(ph.SlotTree? && Advance(c, ph, bit).SpecTree?)
    ensures ModelsLeft(Advance(c, ph, bit)) < ModelsLeft(ph)
    ensures DirectsLeft(Advance(c, ph, bit)) <= DirectsLeft(ph)
  {
    hide ValidPhase, Advance, ModelsLeft, DirectsLeft;
    match ph
    case SlotTree(_, _) => ModelsAdvanceSlot(c, ph, bit);
    case SpecTree(_, _, _, _, _) => ModelsAdvanceTree(c, ph, bit);
    case AlignTree(_, _, _, _) => ModelsAdvanceTree(c, ph, bit);
    case _ => ModelsAdvanceHead(c, ph, bit);
  }

  lemma ModelsAdvanceSlot(c: Context, ph: Phase, bit: Bit)
    requires ValidPhase(c, ph) && ph.SlotTree? && !Advance(c, ph, bit).SpecTree?
    ensures ModelsLeft(Advance(c, ph, bit)) < ModelsLeft(ph)
    ensures DirectsLeft(Advance(c, ph, bit)) <= DirectsLeft(ph)
  {
  }

  lemma ModelsAdvanceTree(c: Context, ph: Phase, bit: Bit)
    requires ValidPhase(c, ph) && (ph.SpecTree? || ph.AlignTree?)
    ensures ModelsLeft(Advance(c, ph, bit)) < ModelsLeft(ph)
    ensures DirectsLeft(Advance(c, ph, bit)) <= DirectsLeft(ph)
  {
    hide SpecBase;
  }

  lemma ModelsAdvanceHead(c: Context, ph: Phase, bit: Bit)
    requires ValidPhase(c, ph)
    requires !ph.SlotTree? && !ph.SpecTree? && !ph.AlignTree? && !ph.DirectBits? && !ph.Decoded?
    ensures ModelsLeft(Advance(c, ph, bit)) < ModelsLeft(ph)
    ensures DirectsLeft(Advance(c, ph, bit)) <= DirectsLeft(ph)
  {
    hide ValidPhase, Advance, ModelsLeft, DirectsLeft;
    if ph.PlainLiteral? || ph.MatchedLiteral? || ph.LenTree? {
      ModelsAdvanceBits(c, ph, bit);
    } else {
      ModelsAdvanceFlag(c, ph, bit);
    }
  }

  lemma ModelsAdvanceBits(c: Context, ph: Phase, bit: Bit)
    requires ValidPhase(c, ph) && (ph.PlainLiteral? || ph.MatchedLiteral? || ph.LenTree?)
    ensures ModelsLeft(Advance(c, ph, bit)) < ModelsLeft(ph)
    ensures DirectsLeft(Advance(c, ph, bit)) <= DirectsLeft(ph)
  {
  }

  lemma ModelsAdvanceFlag(c: Context, ph: Phase, bit: Bit)
    requires ValidPhase(c, ph)
    requires ph.AskMatch? || ph.AskRep? || ph.AskG0? || ph.AskLong? || ph.AskG1? || ph.AskG2? || ph.LenChoice?
             || ph.LenChoice2?
    ensures ModelsLeft(Advance(c, ph, bit)) < ModelsLeft(ph)
    ensures DirectsLeft(Advance(c, ph, bit)) <= DirectsLeft(ph)
  {
  }

  /** The range measured in units of the last byte that may still be read. */
  ghost function Stretched(range: nat, avail: nat): real
  {
    range as real * Pow256(avail)
  }

  function Pow256(n: nat): (p: real)
    ensures p >= 1.0
  {
    if n == 0 then 1.0 else 256.0 * Pow256(n - 1)
  }

  lemma Quotient(q: nat, p: nat)
    requires PROB_MIN <= p <= PROB_MAX
    ensures 31 * q <= q * p <= 2017 * q
  {
  }

  lemma ModelShrinks(rc: Rc, p: nat)
    requires rc.Valid() && TOP <= rc.range && PROB_MIN <= p <= PROB_MAX
    ensures 67 * AfterModel(rc, p).range >= rc.range
    ensures 0x1_0000 <= AfterModel(rc, p).range < WORD
    ensures AfterModel(rc, p).Valid() && AfterModel(rc, p).rest == rc.rest
  {
    Quotient(rc.range / PROB_TOTAL, p);
  }

  lemma DirectShrinks(rc: Rc)
    requires rc.Valid() && TOP <= rc.range
    ensures 81 * AfterDirect(rc).range >= 40 * rc.range
    ensures 0x1_0000 <= AfterDirect(rc).range
    ensures AfterDirect(rc).Valid() && AfterDirect(rc).rest == rc.rest
  {
  }

  ghost predicate Wide(rc: Rc, avail: nat, need: real) {
    && rc.Valid() && 0x1_0000 <= rc.range
    && avail <= |rc.rest|
    && Stretched(rc.range, avail) >= need
  }

  /** A coder with `avail` bytes left whose range is wide enough for the rest of the symbol. */
  ghost predicate Suffices(ph: Phase, rc: Rc, avail: nat) {
    Wide(rc, avail, TOP_REAL * ShrinkOf(ph))
  }

  lemma NarrowNeedsInput(range: nat, shrink: real)
    requires range < TOP && shrink >= 1.0
    ensures range as real < TOP_REAL * shrink
  {
  }

  lemma StretchedByte(range: nat, avail: nat)
    requires avail > 0
    ensures Stretched(range * 256, avail - 1) == Stretched(range, avail)
  {
    assert Pow256(avail) == 256.0 * Pow256(avail - 1);
    assert (range * 256) as real == range as real * 256.0;
  }

  lemma SufficesNormalize(ph: Phase, rc: Rc, avail: nat) returns (left: nat)
    requires Suffices(ph, rc, avail)
    ensures Normalize(rc).Some?
    ensures Normalize(rc).value.range >= TOP
    ensures Suffices(ph, Normalize(rc).value, left)
    ensures left <= avail && |rc.rest| - |Normalize(rc).value.rest| == avail - left
  {
    left := avail;
    if rc.range < TOP {
      NarrowNeedsInput(rc.range, ShrinkOf(ph));
      assert Stretched(rc.range, 0) == rc.range as real;
      StretchedByte(rc.range, avail);
      left := avail - 1;
    }
  }

  lemma ScaleDown(a: real, b: real, k: real, w: real, need: real, need1: real)
    requires k > 0.0 && k * b >= a && w >= 0.0 && a * w >= need && need >= k * need1
    ensures b * w >= need1
  {
    assert (k * b) * w >= a * w;
    assert k * (b * w) == (k * b) * w;
    assert k * (b * w - need1) >= 0.0;
  }

  lemma WideStep(rc: Rc, rc1: Rc, k: real, avail: nat, need: real, need1: real)
    requires Wide(rc, avail, need) && k > 0.0
    requires rc1.Valid() && 0x1_0000 <= rc1.range && rc1.rest == rc.rest
    requires k * rc1.range as real >= rc.range as real
    requires need >= k * need1
    ensures Wide(rc1, avail, need1)
  {
    ScaleDown(rc.range as real, rc1.range as real, k, Pow256(avail), need, need1);
  }

  lemma SufficesModel(c: Context, ph: Phase, rc: Rc, p: nat, bit: Bit, avail: nat)
    requires ValidPhase(c, ph) && !ph.Decoded? && Ask(c, ph).Model?
    requires Suffices(ph, rc, avail) && TOP <= rc.range && PROB_MIN <= p <= PROB_MAX
    ensures Suffices(Advance(c, ph, bit), AfterModel(rc, p), avail)
  {
    hide ShrinkOf, Advance, ValidPhase, AfterModel;
    ModelShrinks(rc, p);
    ShrinkAdvance(c, ph, bit);
    WideStep(rc, AfterModel(rc, p), 67.0, avail, TOP_REAL * ShrinkOf(ph), TOP_REAL * ShrinkOf(Advance(c, ph, bit)));
  }

  lemma SufficesDirect(c: Context, ph: Phase, rc: Rc, bit: Bit, avail: nat)
    requires ValidPhase(c, ph) && !ph.Decoded? && Ask(c, ph).Direct?
    requires Suffices(ph, rc, avail) && TOP <= rc.range
    ensures Suffices(Advance(c, ph, bit), AfterDirect(rc), avail)
  {
    hide ShrinkOf, Advance, ValidPhase, AfterDirect;
    DirectShrinks(rc);
    ShrinkAdvance(c, ph, bit);
    WideStep(rc, AfterDirect(rc), 2.025, avail, TOP_REAL * ShrinkOf(ph), TOP_REAL * ShrinkOf(Advance(c, ph, bit)));
  }

  lemma {:induction false} RunSuffices(c: Context, ph: Phase, probs: Probs, rc: Rc, adapt: bool, avail: nat)
    returns (left: nat)
    requires Ready(c, ph, probs) && ValidProbs(probs) && Suffices(ph, rc, avail)
    ensures Run(c, ph, probs, rc, adapt).Some?
    ensures
      var o := Run(c, ph, probs, rc, adapt).value;
      Suffices(Decoded(o.symbol), o.rc, left) && left <= avail && |rc.rest| - |o.rc.rest| == avail - left
    decreases BitsLeft(ph)
  {
    hide Suffices, Advance, ValidPhase;
    left := avail;
    if !ph.Decoded? {
      var mid := SufficesNormalize(ph, rc, avail);
      var n := Normalize(rc).value;
      AskInTable(c, ph, |probs|);
      match Ask(c, ph)
      case Direct =>
        var bit := DirectBit(n);
        AdvanceValid(c, ph, bit, |probs|);
        SufficesDirect(c, ph, n, bit, mid);
        left := RunSuffices(c, Advance(c, ph, bit), probs, AfterDirect(n), adapt, mid);
      case Model(s) =>
        var bit := ModelBit(n, probs[s]);
        AdaptedStays(probs[s], bit);
        AdvanceValid(c, ph, bit, |probs|);
        SufficesModel(c, ph, n, probs[s], bit, mid);
        var probs1 := if adapt then probs[s := Adapted(probs[s], bit)] else probs;
        left := RunSuffices(c, Advance(c, ph, bit), probs1, AfterModel(n, probs[s]), adapt, mid);
    }
  }

  lemma DirectLadder()
    ensures Shrink(0, 26) <= 92693807.0
  {
    assert Shrink(0, 7) <= 140.0;
    assert Shrink(0, 14) <= 19497.0;
    assert Shrink(0, 20) <= 1344314.0;
    assert Shrink(0, 22) <= 5512529.0;
    assert Shrink(0, 24) <= 22605000.0;
  }

  function ModelLadder(n: nat): real {
    if n == 0 then 92697000.0 else 67.0 * ModelLadder(n - 1)
  }

  lemma {:induction false} ShrinkLadder(n: nat)
    ensures Shrink(n, 26) <= ModelLadder(n)
  {
    if n == 0 {
      DirectLadder();
    } else {
      ShrinkModel(n, 26);
      ShrinkLadder(n - 1);
    }
  }

  lemma LadderTop()
    ensures ModelLadder(22) == 1382647072677713396309484960365632619198523633000.0
  {
    assert ModelLadder(6) == 8385220651919793000.0;
    assert ModelLadder(12) == 758513494302751958729371017000.0;
    assert ModelLadder(17) == 1024088112656446878673951628369823819000.0;
  }

  lemma BytesTop()
    ensures Pow256(20) == 1461501637330902918203684832716283019655932542976.0
  {
    assert Pow256(10) == 1208925819614629174706176.0;
  }

  lemma TwentyBytes()
    ensures Pow256(REQUIRED_INPUT_MAX) >= Shrink(22, 26)
  {
    ShrinkLadder(22);
    LadderTop();
    BytesTop();
  }

  lemma WideStart(rc: Rc, avail: nat, shrink: real)
    requires rc.Valid() && rc.range >= TOP && |rc.rest| >= avail
    requires Pow256(avail) >= shrink >= 0.0
    ensures Wide(rc, avail, TOP_REAL * shrink)
  {
    var r := rc.range as real;
    assert (r - TOP_REAL) * Pow256(avail) >= 0.0;
    assert r * Pow256(avail) >= TOP_REAL * Pow256(avail);
    assert TOP_REAL * Pow256(avail) >= TOP_REAL * shrink;
    assert Stretched(rc.range, avail) == r * Pow256(avail);
  }

  /** The bound behind the fast path: from any normalised range and any probabilities in
      [31, 2017], one symbol with its final normalisation reads at most twenty bytes. */
  lemma SymbolNeedsAtMostTwenty(c: Context, probs: Probs, rc: Rc, adapt: bool)
    requires c.Valid(|probs|) && ValidProbs(probs) && rc.Valid() && rc.range >= TOP
    requires |rc.rest| >= REQUIRED_INPUT_MAX
    ensures RunSymbol(c, probs, rc, adapt).Some?
    ensures |rc.rest| - |RunSymbol(c, probs, rc, adapt).value.rc.rest| <= REQUIRED_INPUT_MAX
  {
    hide Run, Pow256, Shrink;
    TwentyBytes();
    WideStart(rc, REQUIRED_INPUT_MAX, ShrinkOf(AskMatch));
    var left := RunSuffices(c, AskMatch, probs, rc, adapt, REQUIRED_INPUT_MAX);
    var o := Run(c, AskMatch, probs, rc, adapt).value;
    var end := SufficesNormalize(Decoded(o.symbol), o.rc, left);
  }

  // ----- Which kind of symbol a walk ends in.

  datatype Kind = LiteralKind | RepKind | MatchKind

  function KindOf(symbol: Symbol): Kind {
    match symbol
    case Literal(_) => LiteralKind
    case ShortRep => RepKind
    case LongRep(_, _) => RepKind
    case Match(_, _) => MatchKind
    case Marker(_) => MatchKind
  }

  /** The kind of symbol a phase leads to, once it is settled. */
  function Leads(ph: Phase): Option<Kind> {
    match ph
    case AskMatch => None
    case AskRep => None
    case PlainLiteral(_) => Some(LiteralKind)
    case MatchedLiteral(_, _, _) => Some(LiteralKind)
    case AskG0 => Some(RepKind)
    case AskG1 => Some(RepKind)
    case AskG2 => Some(RepKind)
    case AskLong => Some(RepKind)
    case LenChoice(coder) => Some(if coder.NewMatch? then MatchKind else RepKind)
    case LenChoice2(coder) => Some(if coder.NewMatch? then MatchKind else RepKind)
    case LenTree(coder, _, _, _, _) => Some(if coder.NewMatch? then MatchKind else RepKind)
    case Decoded(symbol) => Some(KindOf(symbol))
    case _ => Some(MatchKind)
  }

  lemma LeadsOn(c: Context, ph: Phase, bit: Bit)
    requires Leads(ph).Some? && !ph.Decoded?
    ensures Leads(Advance(c, ph, bit)) == Leads(ph)
  {
  }

  lemma {:induction false} RunLeads(c: Context, ph: Phase, probs: Probs, rc: Rc, adapt: bool)
    requires Ready(c, ph, probs) && Leads(ph).Some? && Run(c, ph, probs, rc, adapt).Some?
    ensures KindOf(Run(c, ph, probs, rc, adapt).value.symbol) == Leads(ph).value
    decreases BitsLeft(ph)
  {
    hide Advance, ValidPhase, BitsLeft, Ask;
    if !ph.Decoded? {
      var n := Normalize(rc).value;
      AskInTable(c, ph, |probs|);
      match Ask(c, ph)
      case Direct =>
        AdvanceValid(c, ph, DirectBit(n), |probs|);
        LeadsOn(c, ph, DirectBit(n));
        RunLeads(c, Advance(c, ph, DirectBit(n)), probs, AfterDirect(n), adapt);
      case Model(s) =>
        var bit := ModelBit(n, probs[s]);
        AdvanceValid(c, ph, bit, |probs|);
        LeadsOn(c, ph, bit);
        var probs1 := if adapt then probs[s := Adapted(probs[s], bit)] else probs;
        RunLeads(c, Advance(c, ph, bit), probs1, AfterModel(n, probs[s]), adapt);
    }
  }
}
