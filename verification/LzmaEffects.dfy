/** What LZMA symbols do, and what probabilities they use, said without the machine. */
module LzmaEffects {
  import opened Words
  import opened Arith
  import opened History
  import opened LzmaGrammar
  import opened LzmaRange
  import opened LzmaStream

  // ---- output and distances

  /** The output so far and the last four distances, the most recent one first. */
  datatype Plain = Plain(out: seq<Byte>, reps: seq<nat>)

  function PlainOf(s: Lz): Plain {
    Plain(s.out, [s.rep0, s.rep1, s.rep2, s.rep3])
  }

  /** The distance and the number of bytes that a symbol copies, and the distances kept afterwards. */
  ghost predicate Copies(a: Plain, symbol: Symbol, distance: nat, n: nat, reps: seq<nat>)
    requires |a.reps| == 4
  {
    match symbol
    case Literal(_) => false
    case Marker(_) => false
    case ShortRep => distance == a.reps[0] && n == 1 && reps == a.reps
    case LongRep(which, len) =>
      which < 4 && distance == a.reps[which] && n == len + 2
      && reps == [a.reps[which]] + a.reps[..which] + a.reps[which + 1..]
    case Match(len, d) => distance == d + 1 && n == len + 2 && reps == [d + 1] + a.reps[..3]
  }

  /** A literal appends its byte; the others append bytes each of which repeats the one a distance
      before it. */
  ghost predicate Effect(a: Plain, symbol: Symbol, b: Plain)
    requires |a.reps| == 4
  {
    if symbol.Literal? then b.out == a.out + [symbol.byte] && b.reps == a.reps
    else
      exists distance: nat, n: nat ::
        && Copies(a, symbol, distance, n, b.reps)
        && 1 <= distance <= |a.out| && |b.out| == |a.out| + n && a.out <= b.out
        && forall i :: |a.out| <= i < |b.out| ==> b.out[i] == b.out[i - distance]
  }

  lemma CopyRepeats(out: seq<Byte>, distance: nat, n: nat)
    requires 1 <= distance <= |out|
    ensures var o := Copy(out, distance, n);
            |o| == |out| + n && out <= o && forall i :: |out| <= i < |o| ==> o[i] == o[i - distance]
  {
    hide Copy;
    forall i | |out| <= i < |out| + n
      ensures Copy(out, distance, n)[i] == Copy(out, distance, n)[i - distance]
    {
      CopyPeriodic(out, distance, n, i);
    }
  }

  /** What the machine does with a symbol. */
  lemma ApplyEffect(p: Props, s: Lz, o: Outcome)
    requires ValidSymbol(o.symbol) && Apply(p, s, o).Next?
    ensures Effect(PlainOf(s), o.symbol, PlainOf(Apply(p, s, o).s))
  {
    hide Copy;
    var a, b := PlainOf(s), PlainOf(Apply(p, s, o).s);
    match o.symbol
    case Literal(_) =>
    case Marker(_) =>
    case ShortRep =>
      CopyRepeats(s.out, s.rep0, 1);
      assert Copies(a, o.symbol, s.rep0, 1, b.reps);
    case Match(len, d) =>
      CopyRepeats(s.out, d + 1, len + 2);
      assert a.reps[..3] == [s.rep0, s.rep1, s.rep2];
      assert Copies(a, o.symbol, d + 1, len + 2, b.reps);
    case LongRep(which, len) =>
      var d := a.reps[which];
      MovedToFront(s, which);
      CopyRepeats(s.out, d, len + 2);
      assert Copies(a, o.symbol, d, len + 2, b.reps);
  }

  lemma MovedToFront(s: Lz, which: nat)
    requires which < 4
    ensures var reps := [s.rep0, s.rep1, s.rep2, s.rep3];
            var t := Rotated(s, which);
            [t.rep0, t.rep1, t.rep2, t.rep3] == [reps[which]] + reps[..which] + reps[which + 1..]
  {
  }

  /** When the machine refuses a symbol: a distance beyond the output, a new one also beyond the
      dictionary. */
  lemma ApplyRefuses(p: Props, s: Lz, o: Outcome)
    requires ValidSymbol(o.symbol) && s.Valid(p)
    ensures var reps := [s.rep0, s.rep1, s.rep2, s.rep3];
            Apply(p, s, o).DataError? <==>
              match o.symbol
              case Literal(_) => false
              case Marker(_) => false
              case ShortRep => s.out == []
              case LongRep(which, _) => s.out == []
              case Match(_, d) => d + 1 > |s.out| || d + 1 > p.dicSize
    ensures Apply(p, s, o).Finished? <==> o.symbol.Marker?
    ensures !Apply(p, s, o).NeedInput?
  {
    hide Copy;
  }

  // ---- the state

  datatype Kind = Lit | New | Old | Single

  function KindIs(symbol: Symbol): Kind
    requires !symbol.Marker?
  {
    match symbol
    case Literal(_) => Lit
    case Match(_, _) => New
    case LongRep(_, _) => Old
    case ShortRep => Single
  }

  /** The kinds of the last four symbols, the most recent one first; literals before the start. */
  datatype Recent = Recent(a: Kind, b: Kind, c: Kind, d: Kind)

  function Later(r: Recent, k: Kind): Recent {
    Recent(k, r.a, r.b, r.c)
  }

  /** The state that belongs to a last symbol other than a literal, `long` if another one preceded it: which
      of the three kinds it was, a single byte counting as an old match behind another match. */
  function Tier(k: Kind, long: bool): nat
    requires !k.Lit?
  {
    if k.New? then 0 else if k.Old? || long then 1 else 2
  }

  /** The state as a function of the last four symbols: how many literals there were since the last match,
      up to three, and what that match was. */
  function StateOf(r: Recent): nat {
    if !r.a.Lit? then
      if r.b.Lit? then 7 + Tier(r.a, false) else 10 + Tier(r.a, true)
    else if !r.b.Lit? then 4 + Tier(r.b, !r.c.Lit?)
    else if !r.c.Lit? then 1 + Tier(r.c, !r.d.Lit?)
    else 0
  }

  /** After every symbol the state tells about the last four, however the stream began. */
  lemma StateFollows(p: Props, s: Lz, o: Outcome, r: Recent)
    requires s.state == StateOf(r) && Apply(p, s, o).Next?
    ensures Apply(p, s, o).s.state == StateOf(Later(r, KindIs(o.symbol)))
  {
    hide Copy;
  }

  lemma StateStarts(p: Props, fed: seq<Byte>)
    requires |fed| >= 5
    ensures Initial(p, fed).state == StateOf(Recent(Lit, Lit, Lit, Lit))
  {
  }

  // ---- the context of a symbol

  /** Two outputs select the same literal table exactly if they are equally long modulo 2^lp and their last
      bytes agree in the top lc bits; the position alone selects the other tables. */
  lemma SameTables(p: Props, a: Lz, b: Lz)
    requires p.Valid() && a.out != [] && b.out != []
    ensures var c, d := ContextOf(p, a), ContextOf(p, b);
            && (c.litBase == d.litBase <==>
                  && |a.out| % Pow2(p.lp) == |b.out| % Pow2(p.lp)
                  && a.out[|a.out| - 1] / Pow2(8 - p.lc) == b.out[|b.out| - 1] / Pow2(8 - p.lc))
            && (c.posState == d.posState <==> |a.out| % Pow2(p.pb) == |b.out| % Pow2(p.pb))
  {
    hide Digits;
    var x, y := HighBits(a.out[|a.out| - 1], 8 - p.lc), HighBits(b.out[|b.out| - 1], 8 - p.lc);
    TopBits(a.out[|a.out| - 1], p.lc);
    TopBits(b.out[|b.out| - 1], p.lc);
    DigitsApart(LowBits(|a.out|, p.lp), x, LowBits(|b.out|, p.lp), y, Pow2(p.lc));
  }

  lemma TopBits(x: Byte, lc: nat)
    requires lc <= 8
    ensures HighBits(x, 8 - lc) < Pow2(lc) && HighBits(x, 8 - lc) == x / Pow2(8 - lc)
  {
    Pow2Add(lc, 8 - lc);
    assert Pow2(8) == 256;
    DivBelow(x, Pow2(lc), Pow2(8 - lc));
  }

  lemma DigitsApart(a: nat, x: nat, b: nat, y: nat, base: nat)
    requires x < base && y < base
    ensures Digits(a, base, x) == Digits(b, base, y) <==> a == b && x == y
  {
    if Digits(a, base, x) == Digits(b, base, y) {
      var n := Digits(a, base, x);
      DivUnique(n, base, a, x);
      DivUnique(n, base, b, y);
    }
  }

  /** The byte that a literal is compared with lies the last distance back. */
  lemma MatchByteIs(p: Props, s: Lz)
    requires p.Valid() && s.Valid(p) && s.out != []
    ensures ContextOf(p, s).matchByte == s.out[|s.out| - s.rep0] && ContextOf(p, s).state == s.state
  {
  }

  // ---- adaptation

  /** A probability moves towards the bit that was seen, by a thirty-second of the way. */
  lemma AdaptedMoves(p: nat)
    requires p <= PROB_TOTAL
    ensures 32 * (Adapted(p, 0) - p) <= 2048 - p < 32 * (Adapted(p, 0) - p + 1)
    ensures 32 * (p - Adapted(p, 1)) <= p < 32 * (p - Adapted(p, 1) + 1)
  {
  }

  // ---- the slots

  /** What a modelled bit depends on. A literal's bit depends on its table, the bits before it and, as long as
      they agree with the byte compared, on the next bit of that byte; lengths are told apart by the kind of
      match and, the two short ranges, by position; the slot of a distance by the length up to three. */
  datatype Key =
    | Match(state: nat, posState: nat)
    | Rep(state: nat)
    | G0(state: nat)
    | G1(state: nat)
    | G2(state: nat)
    | Long(state: nat, posState: nat)
    | LiteralBit(base: nat, compared: nat, before: nat)
    | Choice(isNew: bool)
    | Choice2(isNew: bool)
    | Low(isNew: bool, posState: nat, before: nat)
    | Mid(isNew: bool, posState: nat, before: nat)
    | High(isNew: bool, before: nat)
    | Slot(length: nat, before: nat)
    | Footer(slot: nat, before: nat)
    | Align(before: nat)

  function KeyOf(c: Context, ph: Phase): Key
    requires !ph.Decoded? && !ph.DirectBits?
  {
    match ph
    case AskMatch => Key.Match(c.state, c.posState)
    case PlainLiteral(symbol) => LiteralBit(c.litBase, 0, symbol)
    case MatchedLiteral(offs, m, symbol) =>
      LiteralBit(c.litBase, if offs == 0 then 0 else if m / 128 % 2 == 1 then 2 else 1, symbol)
    case AskRep => Rep(c.state)
    case AskG0 => G0(c.state)
    case AskLong => Long(c.state, c.posState)
    case AskG1 => G1(c.state)
    case AskG2 => G2(c.state)
    case LenChoice(coder) => Choice(coder.NewMatch?)
    case LenChoice2(coder) => Choice2(coder.NewMatch?)
    case LenTree(coder, _, offset, _, i) =>
      if offset == 0 then Low(coder.NewMatch?, c.posState, i)
      else if offset == 8 then Mid(coder.NewMatch?, c.posState, i) else High(coder.NewMatch?, i)
    case SlotTree(len, i) => Slot(Min(len, 3), i)
    case SpecTree(_, posSlot, _, _, i) => Footer(posSlot, i)
    case AlignTree(_, _, _, i) => Align(i)
  }

  /** Where the slot of a key stands: number of the kind of table, and place in it. */
  function Band(k: Key): (n: nat)
    ensures n < 20
  {
    match k
    case Match(_, _) => 0
    case Rep(_) => 1
    case G0(_) => 2
    case G1(_) => 3
    case G2(_) => 4
    case Long(_, _) => 5
    case Slot(_, _) => 6
    case Footer(_, _) => 7
    case Align(_) => 8
    case Choice(isNew) => if isNew then 9 else 14
    case Choice2(isNew) => if isNew then 10 else 15
    case Low(isNew, _, _) => if isNew then 11 else 16
    case Mid(isNew, _, _) => if isNew then 12 else 17
    case High(isNew, _) => if isNew then 13 else 18
    case LiteralBit(_, _, _) => 19
  }

  function BandStart(n: nat): nat
    requires n < 20
  {
    [0, 192, 204, 216, 228, 240, 432, 688, 802, 818, 819, 820, 948, 1076, 1332, 1333, 1334, 1462, 1590, 1846][n]
  }

  /** Literal tables begin at whole multiples of their size. */
  ghost predicate Tidy(c: Context) {
    c.state < 12 && c.posState < 16 && c.litBase >= LITERAL && (c.litBase - LITERAL) % LIT_SIZE == 0
  }

  ghost predicate KeyOk(k: Key) {
    match k
    case Match(state, posState) => state < 12 && posState < 16
    case Rep(state) => state < 12
    case G0(state) => state < 12
    case G1(state) => state < 12
    case G2(state) => state < 12
    case Long(state, posState) => state < 12 && posState < 16
    case LiteralBit(base, compared, before) =>
      base >= LITERAL && (base - LITERAL) % LIT_SIZE == 0 && compared < 3 && before < 256
    case Low(_, posState, before) => posState < 16 && before < 8
    case Mid(_, posState, before) => posState < 16 && before < 8
    case High(_, before) => before < 256
    case Slot(length, before) => length < 4 && before < 64
    case Footer(slot, before) => 4 <= slot < 14 && 1 <= before < SpecWidth(slot)
    case Align(before) => before < 16
    case _ => true
  }

  /** The slot of a key, counted from the start of its tables. */
  function PlaceIn(k: Key): int {
    match k
    case Match(state, posState) => 16 * state + posState
    case Rep(state) => state
    case G0(state) => state
    case G1(state) => state
    case G2(state) => state
    case Long(state, posState) => 16 * state + posState
    case LiteralBit(base, compared, before) => base - LITERAL + 256 * compared + before
    case Choice(_) => 0
    case Choice2(_) => 0
    case Low(_, posState, before) => 8 * posState + before
    case Mid(_, posState, before) => 8 * posState + before
    case High(_, before) => before
    case Slot(length, before) => 64 * length + before
    case Footer(slot, before) => (2 + slot % 2) * SpecWidth(slot) - slot - 1 + before
    case Align(before) => before
  }

  lemma LengthPlace(c: Context, coder: Coder, base: nat, offset: nat, limit: nat, i: nat)
    requires Tidy(c) && ValidTree(c, coder, base, offset, limit) && 1 <= i < limit
    ensures var k := KeyOf(c, LenTree(coder, base, offset, limit, i));
            KeyOk(k) && base + i == BandStart(Band(k)) + PlaceIn(k)
  {
  }

  lemma MatchedPlace(c: Context, offs: nat, m: nat, i: nat)
    requires Tidy(c) && 1 <= i < 256 && (offs == 0 || offs == 256)
    ensures var k := KeyOf(c, MatchedLiteral(offs, m, i));
            KeyOk(k) && c.litBase + offs + MatchBit(offs, m) + i == BandStart(Band(k)) + PlaceIn(k)
  {
  }

  lemma SpecPlace(c: Context, len: nat, posSlot: nat, distance: nat, mask: nat, i: nat)
    requires 4 <= posSlot < 14 && ValidMask(mask, SpecWidth(posSlot)) && mask <= i < 2 * mask
    ensures var k := KeyOf(c, SpecTree(len, posSlot, distance, mask, i));
            KeyOk(k) && SpecBase(posSlot) + i == BandStart(Band(k)) + PlaceIn(k)
  {
  }

  lemma OtherPlace(c: Context, ph: Phase)
    requires ValidPhase(c, ph) && Tidy(c) && !ph.Decoded? && !ph.DirectBits?
    requires !ph.LenTree? && !ph.MatchedLiteral? && !ph.SpecTree?
    ensures var k := KeyOf(c, ph); KeyOk(k) && Ask(c, ph) == Model(BandStart(Band(k)) + PlaceIn(k))
  {
    hide SpecWidth, SpecBase, MatchBit, ValidTree;
  }

  lemma AskPlace(c: Context, ph: Phase)
    requires ValidPhase(c, ph) && Tidy(c) && !ph.Decoded? && !ph.DirectBits?
    ensures var k := KeyOf(c, ph); KeyOk(k) && Ask(c, ph) == Model(BandStart(Band(k)) + PlaceIn(k))
  {
    hide ValidTree, MatchBit, SpecBase, SpecWidth, KeyOf, KeyOk, BandStart, Band, PlaceIn;
    if ph.LenTree? {
      LengthPlace(c, ph.coder, ph.base, ph.offset, ph.limit, ph.i);
    } else if ph.MatchedLiteral? {
      MatchedPlace(c, ph.offs, ph.matchByte, ph.symbol);
    } else if ph.SpecTree? {
      SpecPlace(c, ph.len, ph.posSlot, ph.distance, ph.mask, ph.i);
    } else {
      OtherPlace(c, ph);
    }
  }

  /** Only the literal tables have no end of their own. */
  lemma InBand(k: Key)
    requires KeyOk(k)
    ensures 0 <= PlaceIn(k) && (Band(k) < 19 ==> BandStart(Band(k)) + PlaceIn(k) < BandStart(Band(k) + 1))
  {
    if k.Footer? {
      FooterInBand(k.slot, k.before);
    }
  }

  lemma FooterInBand(slot: nat, before: nat)
    requires KeyOk(Footer(slot, before))
    ensures 0 <= PlaceIn(Footer(slot, before)) < 114
  {
  }

  /** Where the digits of a slot stand: one behind the other. */
  function FooterStart(slot: nat): int {
    (2 + slot % 2) * SpecWidth(slot) - slot - 1
  }

  lemma FooterNext(slot: nat)
    requires 4 <= slot < 13
    ensures FooterStart(slot + 1) == FooterStart(slot) + SpecWidth(slot) - 1 && SpecWidth(slot) >= 2
  {
  }

  lemma {:induction false} FooterRises(s: nat, t: nat)
    requires 4 <= s < t < 14
    ensures FooterStart(t) >= FooterStart(s) + SpecWidth(s) - 1
    decreases t
  {
    hide FooterStart, SpecWidth;
    FooterNext(t - 1);
    if s < t - 1 {
      FooterRises(s, t - 1);
    }
  }

  lemma TablesApart(a: nat, x: nat, b: nat, y: nat)
    requires a % 768 == 0 && b % 768 == 0 && x < 768 && y < 768 && a + x == b + y
    ensures a == b && x == y
  {
  }

  lemma LiteralsTell(k: Key, l: Key)
    requires k.LiteralBit? && l.LiteralBit? && KeyOk(k) && KeyOk(l) && PlaceIn(k) == PlaceIn(l)
    ensures k == l
  {
    var x, y := 256 * k.compared + k.before, 256 * l.compared + l.before;
    assert k.compared <= 2 && l.compared <= 2;
    TablesApart(k.base - LITERAL, x, l.base - LITERAL, y);
  }

  lemma FooterPlaces(s: nat, i: nat, t: nat, j: nat)
    requires 4 <= s < 14 && 4 <= t < 14 && 1 <= i < SpecWidth(s) && 1 <= j < SpecWidth(t)
    requires FooterStart(s) + i == FooterStart(t) + j
    ensures s == t && i == j
  {
    hide FooterStart, SpecWidth;
    if s < t {
      FooterRises(s, t);
    } else if t < s {
      FooterRises(t, s);
    }
  }

  lemma FootersTell(k: Key, l: Key)
    requires k.Footer? && l.Footer? && KeyOk(k) && KeyOk(l) && PlaceIn(k) == PlaceIn(l)
    ensures k == l
  {
    hide SpecWidth;
    FooterPlaces(k.slot, k.before, l.slot, l.before);
  }

  lemma PlacesTell(k: Key, l: Key)
    requires KeyOk(k) && KeyOk(l) && Band(k) == Band(l) && PlaceIn(k) == PlaceIn(l)
    ensures k == l
  {
    if k.LiteralBit? {
      LiteralsTell(k, l);
    } else if k.Footer? {
      FootersTell(k, l);
    } else {
      OthersTell(k, l);
    }
  }

  lemma OthersTell(k: Key, l: Key)
    requires KeyOk(k) && KeyOk(l) && Band(k) == Band(l) && PlaceIn(k) == PlaceIn(l)
    requires !k.LiteralBit? && !k.Footer?
    ensures k == l
  {
    hide SpecWidth, KeyOk, PlaceIn;
    match k
    case Match(_, _) => assert l.Match?; PairTell(k, l);
    case Long(_, _) => assert l.Long?; PairTell(k, l);
    case Low(_, _, _) => assert l.Low? && l.isNew == k.isNew; TripleTell(k, l);
    case Mid(_, _, _) => assert l.Mid? && l.isNew == k.isNew; TripleTell(k, l);
    case Slot(_, _) => assert l.Slot?; SlotTell(k, l);
    case _ => SinglesTell(k, l);
  }

  lemma PairTell(k: Key, l: Key)
    requires KeyOk(k) && KeyOk(l) && PlaceIn(k) == PlaceIn(l)
    requires (k.Match? && l.Match?) || (k.Long? && l.Long?)
    ensures k == l
  {
  }

  lemma TripleTell(k: Key, l: Key)
    requires KeyOk(k) && KeyOk(l) && PlaceIn(k) == PlaceIn(l)
    requires (k.Low? && l.Low? && k.isNew == l.isNew) || (k.Mid? && l.Mid? && k.isNew == l.isNew)
    ensures k == l
  {
  }

  lemma SlotTell(k: Key, l: Key)
    requires KeyOk(k) && KeyOk(l) && PlaceIn(k) == PlaceIn(l) && k.Slot? && l.Slot?
    ensures k == l
  {
  }

  lemma SinglesTell(k: Key, l: Key)
    requires KeyOk(k) && KeyOk(l) && Band(k) == Band(l) && PlaceIn(k) == PlaceIn(l)
    requires !k.Match? && !k.Long? && !k.Low? && !k.Mid? && !k.Slot? && !k.LiteralBit? && !k.Footer?
    ensures k == l
  {
    hide SpecWidth, KeyOk, PlaceIn;
    match k
    case Rep(_) => assert l.Rep?; StateTells(k, l);
    case G0(_) => assert l.G0?; StateTells(k, l);
    case G1(_) => assert l.G1?; StateTells(k, l);
    case G2(_) => assert l.G2?; StateTells(k, l);
    case Choice(_) => assert l == k;
    case Choice2(_) => assert l == k;
    case High(_, _) => assert l.High? && l.isNew == k.isNew; BeforeTells(k, l);
    case Align(_) => assert l.Align?; BeforeTells(k, l);
  }

  lemma StateTells(k: Key, l: Key)
    requires PlaceIn(k) == PlaceIn(l)
    requires (k.Rep? && l.Rep?) || (k.G0? && l.G0?) || (k.G1? && l.G1?) || (k.G2? && l.G2?)
    ensures k == l
  {
    hide SpecWidth;
  }

  lemma BeforeTells(k: Key, l: Key)
    requires PlaceIn(k) == PlaceIn(l)
    requires (k.High? && l.High? && k.isNew == l.isNew) || (k.Align? && l.Align?)
    ensures k == l
  {
    hide SpecWidth;
  }

  /** Two bits share a probability exactly if they depend on the same. */
  lemma SlotsTell(c: Context, ph: Phase, d: Context, ps: Phase)
    requires ValidPhase(c, ph) && Tidy(c) && !ph.Decoded? && !ph.DirectBits?
    requires ValidPhase(d, ps) && Tidy(d) && !ps.Decoded? && !ps.DirectBits?
    ensures Ask(c, ph) == Ask(d, ps) <==> KeyOf(c, ph) == KeyOf(d, ps)
  {
    hide Ask, KeyOf, ValidPhase, PlaceIn, KeyOk, Band, BandStart;
    AskPlace(c, ph);
    AskPlace(d, ps);
    var k, l := KeyOf(c, ph), KeyOf(d, ps);
    InBand(k);
    InBand(l);
    if Ask(c, ph) == Ask(d, ps) {
      BandsTell(Band(k), Band(l), Ask(c, ph).slot);
      PlacesTell(k, l);
    }
  }

  lemma BandsTell(m: nat, n: nat, slot: int)
    requires m < 20 && BandStart(m) <= slot && (m < 19 ==> slot < BandStart(m + 1))
    requires n < 20 && BandStart(n) <= slot && (n < 19 ==> slot < BandStart(n + 1))
    ensures m == n
  {
    if m < n {
      BandsRise(m + 1, n);
    } else if n < m {
      BandsRise(n + 1, m);
    }
  }

  lemma {:induction false} BandsRise(m: nat, n: nat)
    requires m <= n < 20
    ensures BandStart(m) <= BandStart(n)
    decreases n
  {
    if m < n {
      BandsRise(m, n - 1);
      BandsNext(n - 1);
    }
  }

  lemma BandsNext(n: nat)
    requires n < 19
    ensures BandStart(n) <= BandStart(n + 1)
  {
  }

  /** The machine's contexts are of this kind. */
  lemma ContextTidy(p: Props, s: Lz)
    requires p.Valid() && s.Valid(p)
    ensures Tidy(ContextOf(p, s))
  {
    hide LitIndex, Pow2, Digits;
    var i := LitIndex(p, s.out);
    LitIndexBelow(p, s.out);
    Pow2Mono(p.lc + p.lp, 12);
    TwelveBits();
    Multiple(i);
    LowBelow(|s.out|, p.pb);
  }

  lemma TwelveBits()
    ensures Pow2(12) == 4096 && Pow2(4) == 16
  {
    assert Pow2(8) == 256 && Pow2(12) == 16 * Pow2(8);
  }

  lemma Multiple(i: nat)
    ensures LIT_SIZE * i % LIT_SIZE == 0
  {
  }

  lemma LowBelow(n: nat, pb: nat)
    requires pb <= 4
    ensures LowBits(n, pb) < 16
  {
    Pow2Mono(pb, 4);
    TwelveBits();
  }
}
