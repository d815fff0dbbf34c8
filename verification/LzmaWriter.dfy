/**
 A writer of LZMA streams, and the proof that the decoder's machine undoes it: every list of symbols that
 keeps to its output and dictionary has a stream from which just these symbols are decoded.
 */
module LzmaWriter {
  import opened Words
  import opened Arith
  import opened Bits
  import opened History
  import opened LzmaGrammar
  import opened LzmaRange
  import opened LzmaStream
  import opened LzmaSymbols
  import opened LzmaEffects

  // ---- the range coder, from its last bit back to its first

  /** A bit and its chance of being 0 in units of 1/2048, or a bit that is as likely as not. */
  datatype Mark = Modelled(p: nat, bit: Bit) | Even(bit: Bit)

  /** The part of the range that stands for a bit: a modelled 0 has the lower part in proportion. */
  function Part(range: nat, m: Mark): nat {
    match m
    case Modelled(p, bit) => if bit == 0 then range / 2048 * p else Max(range - range / 2048 * p, 0)
    case Even(_) => range / 2
  }

  /** Where that part begins. */
  function PartStart(range: nat, m: Mark): nat {
    match m
    case Modelled(p, bit) => if bit == 0 then 0 else range / 2048 * p
    case Even(bit) => if bit == 0 then 0 else range / 2
  }

  /** A range below 2^24 is given one more byte. */
  function Widened(range: nat): nat {
    if range < 0x100_0000 then 256 * range else range
  }

  function Narrowed(range: nat, code: nat, rest: seq<Byte>): Rc {
    if range < 0x100_0000 then Rc(range, code / 256, [code % 256] + rest) else Rc(range, code, rest)
  }

  /** The range left when all bits are written. */
  function Left(range: nat, marks: seq<Mark>): nat
    decreases |marks|
  {
    if marks == [] then range else Left(Part(Widened(range), marks[0]), marks[1..])
  }

  /** The coder in front of the bits, if it is to stand at `code` and `rest` behind them. */
  function Before(range: nat, marks: seq<Mark>, code: nat, rest: seq<Byte>): Rc
    decreases |marks|
  {
    if marks == [] then Rc(range, code, rest)
    else
      var n := Widened(range);
      var after := Before(Part(n, marks[0]), marks[1..], code, rest);
      Narrowed(range, PartStart(n, marks[0]) + after.code, after.rest)
  }

  lemma Renormalized(range: nat, code: nat, rest: seq<Byte>)
    requires 0x1_0000 <= range < WORD && code < Widened(range)
    ensures var rc := Narrowed(range, code, rest);
            rc.range == range && rc.code < range && Normalize(rc) == Some(Rc(Widened(range), code, rest))
    ensures TOP <= Widened(range) < WORD
  {
    if range < TOP {
      assert ([code % 256] + rest)[1..] == rest;
    }
  }

  /** A bit is read back from its part of the range, which is left for the bits behind it. */
  lemma ModelUndone(n: nat, p: nat, bit: Bit, after: Rc)
    requires TOP <= n < WORD && PROB_MIN <= p <= PROB_MAX
    requires after.range == Part(n, Modelled(p, bit)) && after.code < after.range
    ensures var rc := Rc(n, PartStart(n, Modelled(p, bit)) + after.code, after.rest);
            rc.code < n && ModelBit(rc, p) == bit && AfterModel(rc, p) == after
    ensures 0x1_0000 <= after.range < WORD
  {
    BoundInRange(n, p);
    ModelShrinks(Rc(n, PartStart(n, Modelled(p, bit)) + after.code, after.rest), p);
  }

  lemma EvenUndone(n: nat, bit: Bit, after: Rc)
    requires TOP <= n < WORD && after.range == n / 2 && after.code < after.range
    ensures var rc := Rc(n, PartStart(n, Even(bit)) + after.code, after.rest);
            rc.code < n && DirectBit(rc) == bit && AfterDirect(rc) == after
  {
  }

  lemma PartWide(n: nat, m: Mark)
    requires TOP <= n < WORD && (m.Modelled? ==> PROB_MIN <= m.p <= PROB_MAX)
    ensures 0x1_0000 <= Part(n, m) < WORD
  {
    if m.Modelled? {
      Quotient(n / PROB_TOTAL, m.p);
    }
  }

  // ---- the bits of a symbol with their probabilities

  function MarkOf(c: Context, ph: Phase, probs: Probs, bit: Bit): Mark
    requires Ready(c, ph, probs) && !ph.Decoded?
  {
    AskInTable(c, ph, |probs|);
    match Ask(c, ph)
    case Direct => Even(bit)
    case Model(slot) => Modelled(probs[slot], bit)
  }

  /** The probabilities when a bit is written. */
  function Taught(c: Context, ph: Phase, probs: Probs, bit: Bit): (t: Probs)
    requires Ready(c, ph, probs) && !ph.Decoded?
    ensures Ready(c, Advance(c, ph, bit), t) && BitsLeft(Advance(c, ph, bit)) < BitsLeft(ph)
  {
    hide Advance, BitsLeft, Ask, Adapted;
    AskInTable(c, ph, |probs|);
    AdvanceValid(c, ph, bit, |probs|);
    match Ask(c, ph)
    case Direct => probs
    case Model(slot) => probs[slot := Adapted(probs[slot], bit)]
  }

  function Marks(c: Context, ph: Phase, probs: Probs, bits: BitString): seq<Mark>
    requires Ready(c, ph, probs)
    decreases |bits|
  {
    hide Advance, Ask, Taught, MarkOf;
    if bits == [] || ph.Decoded? then []
    else [MarkOf(c, ph, probs, bits[0])]
         + Marks(c, Advance(c, ph, bits[0]), Taught(c, ph, probs, bits[0]), bits[1..])
  }

  function Learned(c: Context, ph: Phase, probs: Probs, bits: BitString): Probs
    requires Ready(c, ph, probs)
    decreases |bits|
  {
    hide Advance, Ask, Taught;
    if bits == [] || ph.Decoded? then probs
    else Learned(c, Advance(c, ph, bits[0]), Taught(c, ph, probs, bits[0]), bits[1..])
  }

  lemma TaughtValid(c: Context, ph: Phase, probs: Probs, bit: Bit)
    requires Ready(c, ph, probs) && !ph.Decoded? && ValidProbs(probs)
    ensures ValidProbs(Taught(c, ph, probs, bit))
    ensures MarkOf(c, ph, probs, bit).Modelled? ==> PROB_MIN <= MarkOf(c, ph, probs, bit).p <= PROB_MAX
  {
    hide Ask, Adapted;
    AskInTable(c, ph, |probs|);
    match Ask(c, ph)
    case Direct =>
    case Model(slot) => AdaptedStays(probs[slot], bit);
  }

  /** One bit of the decoder's walk. */
  lemma RunStep(c: Context, ph: Phase, probs: Probs, range: nat, bit: Bit, after: Rc)
    requires Ready(c, ph, probs) && !ph.Decoded? && ValidProbs(probs) && 0x1_0000 <= range < WORD
    requires after.range == Part(Widened(range), MarkOf(c, ph, probs, bit)) && after.code < after.range
    ensures var n := Widened(range);
            var rc := Narrowed(range, PartStart(n, MarkOf(c, ph, probs, bit)) + after.code, after.rest);
            && rc.range == range && rc.code < range
            && Run(c, ph, probs, rc, true) == Run(c, Advance(c, ph, bit), Taught(c, ph, probs, bit), after, true)
  {
    hide Advance, BitsLeft, Ask, Adapted, ValidPhase, ModelBit, AfterModel, DirectBit, AfterDirect, Part, PartStart,
         Normalize, Narrowed, Widened;
    var n := Widened(range);
    var m := MarkOf(c, ph, probs, bit);
    TaughtValid(c, ph, probs, bit);
    TopWidened(range);
    AskInTable(c, ph, |probs|);
    AdvanceValid(c, ph, bit, |probs|);
    match Ask(c, ph)
    case Direct =>
      EvenPart(n, bit);
      EvenUndone(n, bit, after);
      Renormalized(range, PartStart(n, m) + after.code, after.rest);
    case Model(slot) =>
      ModelUndone(n, probs[slot], bit, after);
      Renormalized(range, PartStart(n, m) + after.code, after.rest);
  }

  lemma EvenPart(n: nat, bit: Bit)
    ensures Part(n, Even(bit)) == n / 2
  {
  }

  lemma TopWidened(range: nat)
    requires 0x1_0000 <= range < WORD
    ensures TOP <= Widened(range) < WORD
  {
  }

  /** The decoder reads a symbol back and stands where it should. */
  lemma {:induction false} RunUndone(c: Context, ph: Phase, probs: Probs, range: nat, bits: BitString, symbol: Symbol,
                                     code: nat, rest: seq<Byte>)
    requires Ready(c, ph, probs) && ValidProbs(probs) && 0x1_0000 <= range < WORD
    requires Follow(c, ph, bits) == Some(Decoded(symbol))
    requires code < Left(range, Marks(c, ph, probs, bits))
    ensures var marks := Marks(c, ph, probs, bits);
            var rc := Before(range, marks, code, rest);
            && rc.range == range && rc.code < range
            && Run(c, ph, probs, rc, true)
               == Some(Outcome(symbol, Learned(c, ph, probs, bits), Rc(Left(range, marks), code, rest)))
    ensures 0x1_0000 <= Left(range, Marks(c, ph, probs, bits)) < WORD
    decreases |bits|
  {
    hide Advance, BitsLeft, Ask, ValidPhase, Part, PartStart, Narrowed, Widened, Normalize, MarkOf, Taught;
    if bits != [] {
      var bit := bits[0];
      var m := MarkOf(c, ph, probs, bit);
      var n := Widened(range);
      var probs1 := Taught(c, ph, probs, bit);
      var marks1 := Marks(c, Advance(c, ph, bit), probs1, bits[1..]);
      assert Marks(c, ph, probs, bits) == [m] + marks1;
      assert ([m] + marks1)[1..] == marks1;
      TaughtValid(c, ph, probs, bit);
      TopWidened(range);
      PartWide(n, m);
      RunUndone(c, Advance(c, ph, bit), probs1, Part(n, m), bits[1..], symbol, code, rest);
      RunStep(c, ph, probs, range, bit, Before(Part(n, m), marks1, code, rest));
    }
  }

  // ---- symbols

  /** What is known before a symbol is written; of the coder only the range counts. */
  ghost predicate Writable(p: Props, s: Lz) {
    p.Valid() && s.Valid(p)
  }

  function SymbolMarks(p: Props, s: Lz, symbol: Symbol): seq<Mark>
    requires Writable(p, s)
  {
    ContextValid(p, s);
    Marks(ContextOf(p, s), AskMatch, s.probs, SymbolBits(symbol))
  }

  /** The machine once it has read the symbol, its coder at `code` and `rest`. */
  function Behind(p: Props, s: Lz, symbol: Symbol, code: nat, rest: seq<Byte>): Progress
    requires Writable(p, s)
  {
    ContextValid(p, s);
    Apply(p, s, Outcome(symbol, Learned(ContextOf(p, s), AskMatch, s.probs, SymbolBits(symbol)),
                        Rc(Widened(Left(s.rc.range, SymbolMarks(p, s, symbol))), code, rest)))
  }

  /** The coder in front of the symbol. The last range is widened as well. */
  function InFront(p: Props, s: Lz, symbol: Symbol, code: nat, rest: seq<Byte>): Rc
    requires Writable(p, s)
  {
    var marks := SymbolMarks(p, s, symbol);
    var last := Narrowed(Left(s.rc.range, marks), code, rest);
    Before(s.rc.range, marks, last.code, last.rest)
  }

  lemma LeftWide(p: Props, s: Lz, symbol: Symbol)
    requires Writable(p, s) && ValidSymbol(symbol)
    ensures TOP <= Widened(Left(s.rc.range, SymbolMarks(p, s, symbol))) < WORD
    ensures 0x1_0000 <= Left(s.rc.range, SymbolMarks(p, s, symbol)) < WORD
  {
    hide Follow, Marks, SymbolBits, ContextOf, Before, Run, Learned, Left;
    ContextValid(p, s);
    var c := ContextOf(p, s);
    SymbolWalk(c, symbol);
    LeftPositive(c, AskMatch, s.probs, s.rc.range, SymbolBits(symbol));
    TopWidened(Left(s.rc.range, SymbolMarks(p, s, symbol)));
  }

  lemma {:induction false} LeftPositive(c: Context, ph: Phase, probs: Probs, range: nat, bits: BitString)
    requires Ready(c, ph, probs) && ValidProbs(probs) && 0x1_0000 <= range < WORD
    ensures 0x1_0000 <= Left(range, Marks(c, ph, probs, bits)) < WORD
    decreases |bits|
  {
    hide Advance, BitsLeft, Ask, ValidPhase, Part, Widened, MarkOf, Taught;
    if bits != [] && !ph.Decoded? {
      var m := MarkOf(c, ph, probs, bits[0]);
      var probs1 := Taught(c, ph, probs, bits[0]);
      var marks1 := Marks(c, Advance(c, ph, bits[0]), probs1, bits[1..]);
      assert ([m] + marks1)[1..] == marks1;
      TaughtValid(c, ph, probs, bits[0]);
      TopWidened(range);
      PartWide(Widened(range), m);
      LeftPositive(c, Advance(c, ph, bits[0]), probs1, Part(Widened(range), m), bits[1..]);
    }
  }

  /** The machine reads a symbol that was written, whatever follows it. */
  lemma StepUndone(p: Props, s: Lz, symbol: Symbol, code: nat, rest: seq<Byte>)
    requires Writable(p, s) && ValidSymbol(symbol)
    requires code < Widened(Left(s.rc.range, SymbolMarks(p, s, symbol)))
    ensures var rc := InFront(p, s, symbol, code, rest);
            && rc.range == s.rc.range && rc.code < rc.range && Writable(p, s.(rc := rc))
            && Step(p, s.(rc := rc)) == Behind(p, s, symbol, code, rest)
  {
    hide Follow, Marks, SymbolBits, ContextOf, Before, Run, Learned, Left, Apply, Narrowed, Normalize, Widened;
    ContextValid(p, s);
    var c := ContextOf(p, s);
    LeftWide(p, s, symbol);
    SymbolWalk(c, symbol);
    var marks := SymbolMarks(p, s, symbol);
    var range := Left(s.rc.range, marks);
    Renormalized(range, code, rest);
    var last := Narrowed(range, code, rest);
    RunUndone(c, AskMatch, s.probs, s.rc.range, SymbolBits(symbol), symbol, last.code, last.rest);
    var rc := InFront(p, s, symbol, code, rest);
    SameContext(p, s, rc);
    ApplyOther(p, s, rc, RunSymbol(c, s.probs, rc, true).value);
  }

  lemma SameContext(p: Props, s: Lz, rc: Rc)
    requires p.lc <= 8
    ensures ContextOf(p, s.(rc := rc)) == ContextOf(p, s)
  {
  }

  /** A symbol's effect does not depend on where the coder stood before it. */
  lemma ApplyOther(p: Props, s: Lz, rc: Rc, o: Outcome)
    ensures Apply(p, s.(rc := rc), o) == Apply(p, s, o)
  {
    hide Copy;
  }

  // ---- streams

  ghost predicate AllValid(symbols: seq<Symbol>) {
    forall i :: 0 <= i < |symbols| ==> ValidSymbol(symbols[i])
  }

  /** The machine after all symbols, or after the first that ends the stream or is refused; its coder has read
      everything. */
  function Ended(p: Props, s: Lz, symbols: seq<Symbol>): Progress
    requires Writable(p, s) && AllValid(symbols)
    decreases |symbols|
  {
    hide Behind, ValidSymbol;
    if symbols == [] then Next(s.(rc := Rc(s.rc.range, 0, [])))
    else
      match Behind(p, s, symbols[0], 0, [])
      case Next(t) => BehindValid(p, s, symbols[0]); Ended(p, t, symbols[1..])
      case other => other
  }

  lemma BehindValid(p: Props, s: Lz, symbol: Symbol)
    requires Writable(p, s) && ValidSymbol(symbol)
    ensures Behind(p, s, symbol, 0, []).Next? ==> Writable(p, Behind(p, s, symbol, 0, []).s)
    ensures Behind(p, s, symbol, 0, []).Next? ==>
          Behind(p, s, symbol, 0, []).s.rc == Rc(Widened(Left(s.rc.range, SymbolMarks(p, s, symbol))), 0, [])
    ensures !Behind(p, s, symbol, 0, []).NeedInput?
  {
    hide Learned, SymbolBits, ContextOf, Left, SymbolMarks, Copy, Widened, ValidSymbol, Apply;
    ContextValid(p, s);
    LeftWide(p, s, symbol);
    var probs := Learned(ContextOf(p, s), AskMatch, s.probs, SymbolBits(symbol));
    LearnedValid(ContextOf(p, s), AskMatch, s.probs, SymbolBits(symbol));
    var o := Outcome(symbol, probs, Rc(Widened(Left(s.rc.range, SymbolMarks(p, s, symbol))), 0, []));
    ApplyValid(p, s, o);
    ApplyCoder(p, s, o);
  }

  lemma ApplyCoder(p: Props, s: Lz, o: Outcome)
    ensures Apply(p, s, o).Next? ==> Apply(p, s, o).s.rc == o.rc
    ensures !Apply(p, s, o).NeedInput?
  {
    hide Copy;
  }

  lemma {:induction false} LearnedValid(c: Context, ph: Phase, probs: Probs, bits: BitString)
    requires Ready(c, ph, probs) && ValidProbs(probs)
    ensures var t := Learned(c, ph, probs, bits); |t| == |probs| && ValidProbs(t)
    decreases |bits|
  {
    hide Advance, BitsLeft, Ask, ValidPhase, Taught, MarkOf, ValidProbs;
    if bits != [] && !ph.Decoded? {
      TaughtValid(c, ph, probs, bits[0]);
      TaughtLength(c, ph, probs, bits[0]);
      LearnedValid(c, Advance(c, ph, bits[0]), Taught(c, ph, probs, bits[0]), bits[1..]);
    }
  }

  lemma TaughtLength(c: Context, ph: Phase, probs: Probs, bit: Bit)
    requires Ready(c, ph, probs) && !ph.Decoded?
    ensures |Taught(c, ph, probs, bit)| == |probs|
  {
    hide Advance, BitsLeft, Ask, Adapted;
    AskInTable(c, ph, |probs|);
  }

  /** The coder in front of all symbols. */
  function StreamOf(p: Props, s: Lz, symbols: seq<Symbol>): Rc
    requires Writable(p, s) && AllValid(symbols)
    decreases |symbols|
  {
    hide Behind, InFront, ValidSymbol;
    if symbols == [] then Rc(s.rc.range, 0, [])
    else
      match Behind(p, s, symbols[0], 0, [])
      case Next(t) =>
        BehindValid(p, s, symbols[0]);
        var after := StreamOf(p, t, symbols[1..]);
        InFront(p, s, symbols[0], after.code, after.rest)
      case _ => InFront(p, s, symbols[0], 0, [])
  }

  lemma EndedFirst(p: Props, s: Lz, symbols: seq<Symbol>)
    requires Writable(p, s) && AllValid(symbols)
    ensures symbols == [] ==> Ended(p, s, symbols) == Next(s.(rc := Rc(s.rc.range, 0, [])))
    ensures symbols != [] && Behind(p, s, symbols[0], 0, []).Next? ==>
          Writable(p, Behind(p, s, symbols[0], 0, []).s)
          && Ended(p, s, symbols) == Ended(p, Behind(p, s, symbols[0], 0, []).s, symbols[1..])
    ensures symbols != [] && !Behind(p, s, symbols[0], 0, []).Next? ==>
          Ended(p, s, symbols) == Behind(p, s, symbols[0], 0, [])
  {
    hide Behind, ValidSymbol;
    if symbols != [] {
      BehindValid(p, s, symbols[0]);
    }
  }

  /** A symbol ends the stream exactly if it is the marker. */
  lemma {:induction false} EndedMarked(p: Props, s: Lz, symbols: seq<Symbol>, len: nat)
    requires Writable(p, s) && AllValid(symbols) && len < 272 && Ended(p, s, symbols).Next?
    ensures AllValid(symbols + [Marker(len)])
    ensures var r := Ended(p, s, symbols + [Marker(len)]);
            r.Finished? && r.s.out == Ended(p, s, symbols).s.out && r.s.rc.code == 0 && r.s.rc.rest == []
    decreases |symbols|
  {
    hide Behind, Ended, Writable;
    EndedFirst(p, s, symbols);
    EndedFirst(p, s, symbols + [Marker(len)]);
    if symbols == [] {
      BehindMarker(p, s, len);
      assert symbols + [Marker(len)] == [Marker(len)];
    } else {
      assert (symbols + [Marker(len)])[1..] == symbols[1..] + [Marker(len)];
      EndedMarked(p, Behind(p, s, symbols[0], 0, []).s, symbols[1..], len);
    }
  }

  lemma BehindMarker(p: Props, s: Lz, len: nat)
    requires Writable(p, s)
    ensures var r := Behind(p, s, Marker(len), 0, []);
            r.Finished? && r.s.out == s.out && r.s.rc.code == 0 && r.s.rc.rest == []
  {
    hide Learned, SymbolBits, ContextOf, Left, SymbolMarks, Widened;
  }

  lemma BehindOther(p: Props, s: Lz, symbol: Symbol, code: nat, rest: seq<Byte>)
    requires Writable(p, s)
    ensures var a, b := Behind(p, s, symbol, 0, []), Behind(p, s, symbol, code, rest);
            && (a.Next? <==> b.Next?)
            && (a.Next? ==> b.s == a.s.(rc := Rc(a.s.rc.range, code, rest)))
  {
    hide Learned, SymbolBits, ContextOf, Left, SymbolMarks, Copy, Widened;
  }

  lemma {:induction false} StepsUndone(p: Props, s: Lz, symbols: seq<Symbol>)
    requires Writable(p, s) && AllValid(symbols)
    ensures var rc := StreamOf(p, s, symbols);
            && rc.range == s.rc.range && rc.code < rc.range && Writable(p, s.(rc := rc))
            && Steps(p, s.(rc := rc), |symbols|) == Ended(p, s, symbols)
    decreases |symbols|
  {
    hide Step, Behind, InFront, ValidSymbol, SymbolMarks, Left, Widened;
    if symbols != [] {
      var symbol := symbols[0];
      BehindValid(p, s, symbol);
      LeftWide(p, s, symbol);
      var b := Behind(p, s, symbol, 0, []);
      if b.Next? {
        StepsUndone(p, b.s, symbols[1..]);
        var after := StreamOf(p, b.s, symbols[1..]);
        BehindOther(p, s, symbol, after.code, after.rest);
        StepUndone(p, s, symbol, after.code, after.rest);
      } else {
        StepUndone(p, s, symbol, 0, []);
      }
    }
  }

  /** A run stops no sooner than its symbols do. */
  lemma {:induction false} StepsGoOn(p: Props, s: Lz, symbols: seq<Symbol>, n: nat)
    requires Writable(p, s) && AllValid(symbols) && n <= |symbols|
    requires AllValid(symbols[..n]) && Ended(p, s, symbols[..n]).Next?
    ensures var rc := StreamOf(p, s, symbols);
            Writable(p, s.(rc := rc)) && Steps(p, s.(rc := rc), n).Next?
    decreases n
  {
    hide Step, Behind, InFront, ValidSymbol, SymbolMarks, Left, Widened, Ended, Writable;
    StepsUndone(p, s, symbols);
    if n > 0 {
      var symbol := symbols[0];
      BehindValid(p, s, symbol);
      LeftWide(p, s, symbol);
      EndedFirst(p, s, symbols[..n]);
      EndedFirst(p, s, symbols);
      var b := Behind(p, s, symbol, 0, []);
      if b.Next? {
        assert symbols[..n][1..] == symbols[1..][..n - 1];
        StepsGoOn(p, b.s, symbols[1..], n - 1);
        StepsUndone(p, b.s, symbols[1..]);
        var after := StreamOf(p, b.s, symbols[1..]);
        BehindOther(p, s, symbol, after.code, after.rest);
        StepUndone(p, s, symbol, after.code, after.rest);
      }
    }
  }

  /** The decoder's machine before the first symbol. */
  function Unread(p: Props): Lz {
    Lz([], 0, 1, 1, 1, 1, seq(p.NumProbs(), i => 1024), Rc(0xFFFF_FFFF, 0, []))
  }

  lemma UnreadValid(p: Props)
    requires p.Valid()
    ensures Writable(p, Unread(p))
  {
    hide Pow2;
  }

  /** A stream: a zero byte, the first code word from its highest byte on, and the bytes shifted in later. */
  function FileOf(p: Props, symbols: seq<Symbol>): seq<Byte>
    requires p.Valid() && AllValid(symbols)
  {
    hide StreamOf, Writable;
    UnreadValid(p);
    var rc := StreamOf(p, Unread(p), symbols);
    [0, rc.code / 0x100_0000 % 256, rc.code / 0x1_0000 % 256, rc.code / 0x100 % 256, rc.code % 256] + rc.rest
  }

  lemma FourBytes(x: nat)
    requires x < WORD
    ensures 0x100_0000 * (x / 0x100_0000 % 256) + 0x1_0000 * (x / 0x1_0000 % 256) + 0x100 * (x / 0x100 % 256)
            + x % 256 == x
  {
    var a, b := x / 0x100, x / 0x1_0000;
    assert b == a / 0x100 && x / 0x100_0000 == b / 0x100;
  }

  /** The machine decodes a written stream to its symbols, with more input behind it or not. */
  lemma FileUndone(p: Props, symbols: seq<Symbol>, more: seq<Byte>)
    requires p.Valid() && AllValid(symbols)
    ensures var f := FileOf(p, symbols);
            && |f| >= 5 && Writable(p, Initial(p, f)) && Writable(p, Initial(p, f + more))
            && Steps(p, Initial(p, f), |symbols|) == Ended(p, Unread(p), symbols)
            && Steps(p, Initial(p, f + more), |symbols|) == FedProgress(Ended(p, Unread(p), symbols), more)
  {
    hide Steps, Ended, StreamOf;
    var rc := StreamOf(p, Unread(p), symbols);
    StepsUndone(p, Unread(p), symbols);
    FourBytes(rc.code);
    var f := FileOf(p, symbols);
    assert f[5..] == rc.rest;
    assert Initial(p, f) == Unread(p).(rc := rc);
    InitialFed(p, f, more);
    StepsFed(p, Initial(p, f), |symbols|, more);
    EndedNotShort(p, Unread(p), symbols);
  }

  lemma FileGoesOn(p: Props, symbols: seq<Symbol>, n: nat, more: seq<Byte>)
    requires p.Valid() && AllValid(symbols) && n <= |symbols| && Writable(p, Unread(p))
    requires AllValid(symbols[..n]) && Ended(p, Unread(p), symbols[..n]).Next?
    ensures var f := FileOf(p, symbols) + more;
            |f| >= 5 && Writable(p, Initial(p, f)) && Steps(p, Initial(p, f), n).Next?
  {
    hide Steps, Ended, StreamOf;
    var rc := StreamOf(p, Unread(p), symbols);
    StepsGoOn(p, Unread(p), symbols, n);
    StepsUndone(p, Unread(p), symbols);
    FourBytes(rc.code);
    var f := FileOf(p, symbols);
    assert f[5..] == rc.rest;
    assert Initial(p, f) == Unread(p).(rc := rc);
    InitialFed(p, f, more);
    StepsFed(p, Initial(p, f), n, more);
  }

  lemma {:induction false} EndedNotShort(p: Props, s: Lz, symbols: seq<Symbol>)
    requires Writable(p, s) && AllValid(symbols)
    ensures !Ended(p, s, symbols).NeedInput?
    decreases |symbols|
  {
    hide Behind, ValidSymbol;
    if symbols != [] {
      BehindValid(p, s, symbols[0]);
      if Behind(p, s, symbols[0], 0, []).Next? {
        EndedNotShort(p, Behind(p, s, symbols[0], 0, []).s, symbols[1..]);
      }
    }
  }

  // ---- what written symbols mean

  /** The effects of symbols, one after the other. */
  ghost predicate Effects(a: Plain, symbols: seq<Symbol>, b: Plain)
    decreases |symbols|
  {
    if symbols == [] then a == b
    else |a.reps| == 4 && exists m: Plain :: Effect(a, symbols[0], m) && Effects(m, symbols[1..], b)
  }

  /** Copies reach back into the output, and new ones no further than the dictionary. */
  ghost predicate Legal(p: Props, produced: nat, symbols: seq<Symbol>)
    decreases |symbols|
  {
    symbols == [] ||
    match symbols[0]
    case Literal(_) => Legal(p, produced + 1, symbols[1..])
    case ShortRep => produced > 0 && Legal(p, produced + 1, symbols[1..])
    case LongRep(_, len) => produced > 0 && Legal(p, produced + len + 2, symbols[1..])
    case Match(len, d) => d < produced && d < p.dicSize && Legal(p, produced + len + 2, symbols[1..])
    case Marker(_) => false
  }

  ghost function Length(symbol: Symbol): nat {
    match symbol
    case LongRep(_, len) => len + 2
    case Match(len, _) => len + 2
    case _ => 1
  }

  lemma FourReps(s: Lz)
    ensures |PlainOf(s).reps| == 4
  {
  }

  lemma BehindEffect(p: Props, s: Lz, symbol: Symbol)
    requires Writable(p, s) && ValidSymbol(symbol)
    ensures var b := Behind(p, s, symbol, 0, []);
            && |PlainOf(s).reps| == 4
            && (b.Next? ==> Effect(PlainOf(s), symbol, PlainOf(b.s)) && |b.s.out| == |s.out| + Length(symbol))
            && (b.Next? <==> Legal(p, |s.out|, [symbol]))
  {
    hide Learned, SymbolBits, ContextOf, Left, SymbolMarks, Widened, Apply, PlainOf;
    ContextValid(p, s);
    FourReps(s);
    var o := Outcome(symbol, Learned(ContextOf(p, s), AskMatch, s.probs, SymbolBits(symbol)),
                     Rc(Widened(Left(s.rc.range, SymbolMarks(p, s, symbol))), 0, []));
    ApplyLegal(p, s, o);
    if Behind(p, s, symbol, 0, []).Next? {
      ApplyEffect(p, s, o);
    }
  }

  lemma ApplyLegal(p: Props, s: Lz, o: Outcome)
    requires Writable(p, s) && ValidSymbol(o.symbol)
    ensures Apply(p, s, o).Next? <==> Legal(p, |s.out|, [o.symbol])
    ensures Apply(p, s, o).Next? ==> |Apply(p, s, o).s.out| == |s.out| + Length(o.symbol)
  {
    hide Copy;
    ApplyRefuses(p, s, o);
  }

  lemma LegalFirst(p: Props, produced: nat, symbols: seq<Symbol>)
    requires symbols != []
    ensures Legal(p, produced, symbols) <==>
              Legal(p, produced, [symbols[0]]) && Legal(p, produced + Length(symbols[0]), symbols[1..])
  {
    assert [symbols[0]][1..] == [];
  }

  lemma {:induction false} EndedIs(p: Props, s: Lz, symbols: seq<Symbol>)
    requires Writable(p, s) && AllValid(symbols)
    ensures Ended(p, s, symbols).Next? <==> Legal(p, |s.out|, symbols)
    ensures Ended(p, s, symbols).Next? ==> Effects(PlainOf(s), symbols, PlainOf(Ended(p, s, symbols).s))
    decreases |symbols|
  {
    hide Ended, Behind, ValidSymbol, Legal, Effect, Effects, PlainOf, Length, Writable;
    EndedFirst(p, s, symbols);
    if symbols != [] {
      BehindEffect(p, s, symbols[0]);
      LegalFirst(p, |s.out|, symbols);
      var b := Behind(p, s, symbols[0], 0, []);
      if b.Next? {
        EndedIs(p, b.s, symbols[1..]);
        if Ended(p, b.s, symbols[1..]).Next? {
          EffectsFirst(PlainOf(s), symbols, PlainOf(b.s), PlainOf(Ended(p, b.s, symbols[1..]).s));
        }
      }
    } else {
      LegalNone(p, |s.out|, symbols);
      NoEffects(s);
    }
  }

  lemma EffectsFirst(a: Plain, symbols: seq<Symbol>, m: Plain, b: Plain)
    requires symbols != [] && |a.reps| == 4 && Effect(a, symbols[0], m) && Effects(m, symbols[1..], b)
    ensures Effects(a, symbols, b)
  {
    hide Effect;
  }

  lemma NoEffects(s: Lz)
    ensures Effects(PlainOf(s), [], PlainOf(s.(rc := Rc(s.rc.range, 0, []))))
  {
  }

  lemma LegalNone(p: Props, produced: nat, symbols: seq<Symbol>)
    requires symbols == []
    ensures Legal(p, produced, symbols)
  {
  }

  /** Every legal list of symbols has a stream from which the machine decodes these symbols, with their effects
      on an empty output and four distances of 1. */
  lemma WrittenRead(p: Props, symbols: seq<Symbol>, more: seq<Byte>)
    requires p.Valid() && AllValid(symbols) && Legal(p, 0, symbols)
    ensures var f := FileOf(p, symbols) + more;
            && |f| >= 5 && Writable(p, Initial(p, f))
            && var r := Steps(p, Initial(p, f), |symbols|);
               r.Next? && r.s.rc.rest == more && Effects(Plain([], [1, 1, 1, 1]), symbols, PlainOf(r.s))
  {
    hide Steps, Ended, Legal, Effects, FileOf, Initial;
    FileUndone(p, symbols, more);
    EndedIs(p, Unread(p), symbols);
    EndedRest(p, Unread(p), symbols);
  }

  lemma {:induction false} EndedRest(p: Props, s: Lz, symbols: seq<Symbol>)
    requires Writable(p, s) && AllValid(symbols)
    ensures Ended(p, s, symbols).Next? ==> Ended(p, s, symbols).s.rc.rest == []
    decreases |symbols|
  {
    hide Behind, ValidSymbol;
    if symbols != [] {
      BehindValid(p, s, symbols[0]);
      if Behind(p, s, symbols[0], 0, []).Next? {
        EndedRest(p, Behind(p, s, symbols[0], 0, []).s, symbols[1..]);
      }
    }
  }

  function Literals(out: seq<Byte>): seq<Symbol> {
    seq(|out|, i requires 0 <= i < |out| => Literal(out[i]))
  }

  lemma {:induction false} LiteralsLegal(p: Props, produced: nat, out: seq<Byte>)
    ensures Legal(p, produced, Literals(out)) && AllValid(Literals(out))
    decreases |out|
  {
    if out != [] {
      LiteralsLegal(p, produced + 1, out[1..]);
      assert Literals(out)[1..] == Literals(out[1..]);
    }
  }

  lemma {:induction false} LiteralEffects(a: Plain, out: seq<Byte>, b: Plain)
    requires Effects(a, Literals(out), b)
    ensures b.out == a.out + out
    decreases |out|
  {
    if out == [] {
      assert a.out + out == a.out;
    } else {
      var m: Plain :| Effect(a, Literals(out)[0], m) && Effects(m, Literals(out)[1..], b);
      assert Literals(out)[1..] == Literals(out[1..]);
      LiteralEffects(m, out[1..], b);
      assert a.out + [out[0]] + out[1..] == a.out + out;
    }
  }

  /** Every sequence of bytes is the output of some stream. */
  lemma EveryOutput(p: Props, out: seq<Byte>) returns (f: seq<Byte>)
    requires p.Valid()
    ensures |f| >= 5 && Writable(p, Initial(p, f))
    ensures Steps(p, Initial(p, f), |out|).Next? && Steps(p, Initial(p, f), |out|).s.out == out
  {
    hide Steps, Ended, Legal, Effects, Initial, FileOf, AllValid;
    var symbols := Literals(out);
    LiteralsLegal(p, 0, out);
    f := FileOf(p, symbols) + [];
    WrittenRead(p, symbols, []);
    var u := Steps(p, Initial(p, f), |symbols|).s;
    LiteralEffects(Plain([], [1, 1, 1, 1]), out, PlainOf(u));
    assert [] + out == out;
  }
}
