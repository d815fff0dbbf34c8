/**
 What an LZMA stream decodes to: an abstract machine that appends to an unbounded output
 and reads from an input that may still grow. The decoder of LzmaDec.dfy, with its circular
 dictionary and its bounded buffers, is proved to run this machine.
 */
module LzmaStream {
  import opened Words
  import opened Arith
  import opened History
  import opened LzmaGrammar
  import opened LzmaRange

  datatype Props = Props(lc: nat, lp: nat, pb: nat, dicSize: nat)
  {
    ghost predicate Valid() {
      lc <= 8 && lp <= 4 && pb <= 4 && 4096 <= dicSize <= 0x8000_0000
    }

    function NumProbs(): nat {
      LITERAL + LIT_SIZE * Pow2(lc + lp)
    }
  }

  datatype Lz = Lz(out: seq<Byte>, state: nat, rep0: nat, rep1: nat, rep2: nat, rep3: nat, probs: Probs, rc: Rc)
  {
    ghost predicate Valid(p: Props) {
      && state < 12
      && (state >= 7 ==> out != [])
      && RepOk(p, rep0) && RepOk(p, rep1) && RepOk(p, rep2) && RepOk(p, rep3)
      && |probs| == p.NumProbs() && ValidProbs(probs)
      && rc.Valid() && rc.range >= TOP
    }

    /** A distance kept for reuse reaches back into the output and into the dictionary. */
    ghost predicate RepOk(p: Props, rep: nat) {
      1 <= rep <= p.dicSize && rep <= Max(1, |out|)
    }
  }

  function LitIndex(p: Props, out: seq<Byte>): nat
    requires p.lc <= 8
  {
    if out == [] then 0
    else Digits(LowBits(|out|, p.lp), Pow2(p.lc), HighBits(out[|out| - 1], 8 - p.lc))
  }

  function ContextOf(p: Props, s: Lz): Context
    requires p.lc <= 8
  {
    Context(s.state, LowBits(|s.out|, p.pb), LITERAL + LIT_SIZE * LitIndex(p, s.out),
            if 1 <= s.rep0 <= |s.out| then s.out[|s.out| - s.rep0] else 0)
  }

  datatype Progress = Next(s: Lz) | Finished(s: Lz) | DataError | NeedInput

  function LitState(state: nat): nat {
    if state < 4 then 0 else if state < 10 then state - 3 else state - 6
  }

  /** The effect of a decoded symbol. */
  function Apply(p: Props, s: Lz, o: Outcome): Progress
  {
    var t := s.(probs := o.probs, rc := o.rc);
    match o.symbol
    case Literal(b) => Next(t.(out := s.out + [b], state := LitState(s.state)))
    case ShortRep =>
      if !(1 <= s.rep0 <= |s.out|) then DataError
      else Next(t.(out := Copy(s.out, s.rep0, 1), state := if s.state < 7 then 9 else 11))
    case LongRep(which, len) =>
      if s.out == [] then DataError
      else
        var u := Rotated(t, which).(state := if s.state < 7 then 8 else 11);
        if !(1 <= u.rep0 <= |s.out|) then DataError
        else Next(u.(out := Copy(s.out, u.rep0, len + MATCH_MIN_LEN)))
    case Match(len, distance) =>
      if distance >= |s.out| || distance >= p.dicSize then DataError
      else Next(t.(rep3 := s.rep2, rep2 := s.rep1, rep1 := s.rep0, rep0 := distance + 1,
                   state := if s.state < 7 then 7 else 10,
                   out := Copy(s.out, distance + 1, len + MATCH_MIN_LEN)))
    case Marker(_) => Finished(t)
  }

  /** The reused distance moves to the front. */
  function Rotated(s: Lz, which: nat): Lz {
    if which == 0 then s
    else if which == 1 then s.(rep0 := s.rep1, rep1 := s.rep0)
    else if which == 2 then s.(rep0 := s.rep2, rep1 := s.rep0, rep2 := s.rep1)
    else s.(rep0 := s.rep3, rep1 := s.rep0, rep2 := s.rep1, rep3 := s.rep2)
  }

  /** One symbol of the stream. Symbols keep the machine in order; in particular every
      distance that is copied from reaches bytes already produced. */
  function Step(p: Props, s: Lz): (r: Progress)
    requires p.Valid() && s.Valid(p)
    ensures r.Next? ==> r.s.Valid(p) && |s.out| < |r.s.out| && s.out <= r.s.out
    ensures r.Finished? ==> r.s.Valid(p) && r.s.out == s.out
  {
    ContextValid(p, s);
    match RunSymbol(ContextOf(p, s), s.probs, s.rc, true)
    case None => NeedInput
    case Some(o) => SymbolValid(p, s); Apply(p, s, o)
  }

  /** `n` symbols of the stream. */
  function Steps(p: Props, s: Lz, n: nat): Progress
    requires p.Valid() && s.Valid(p)
    decreases n
  {
    hide RunSymbol, ContextOf, Apply;
    if n == 0 then Next(s)
    else
      match Step(p, s)
      case Next(t) => Steps(p, t, n - 1)
      case other => other
  }

  lemma LitIndexBelow(p: Props, out: seq<Byte>)
    requires p.Valid()
    ensures LitIndex(p, out) < Pow2(p.lc + p.lp)
  {
    hide Digits;
    if out != [] {
      var h := Pow2(p.lc);
      var prev := out[|out| - 1];
      Pow2Add(p.lc, 8 - p.lc);
      assert Pow2(8) == 256;
      DivBelow(prev, h, Pow2(8 - p.lc));
      Pow2Add(p.lp, p.lc);
      DigitBelow(LowBits(|out|, p.lp), HighBits(prev, 8 - p.lc), h, Pow2(p.lp));
      assert p.lc + p.lp == p.lp + p.lc;
    }
  }

  lemma ContextValid(p: Props, s: Lz)
    requires p.Valid() && s.Valid(p)
    ensures ContextOf(p, s).Valid(|s.probs|)
  {
    LitIndexBelow(p, s.out);
    assert LitIndex(p, s.out) + 1 <= Pow2(p.lc + p.lp);
    Pow2Mono(p.pb, 4);
    assert Pow2(4) == 16;
  }

  lemma ApplyValid(p: Props, s: Lz, o: Outcome)
    requires p.Valid() && s.Valid(p)
    requires |o.probs| == |s.probs| && ValidProbs(o.probs) && o.rc.Valid() && o.rc.range >= TOP
    ensures Apply(p, s, o).Next? ==>
          Apply(p, s, o).s.Valid(p) && |s.out| < |Apply(p, s, o).s.out| && s.out <= Apply(p, s, o).s.out
    ensures Apply(p, s, o).Finished? ==> Apply(p, s, o).s.Valid(p) && Apply(p, s, o).s.out == s.out
  {
    hide Copy;
  }

  lemma SymbolValid(p: Props, s: Lz)
    requires p.Valid() && s.Valid(p)
    requires ContextOf(p, s).Valid(|s.probs|)
    requires RunSymbol(ContextOf(p, s), s.probs, s.rc, true).Some?
    ensures
      var r := Apply(p, s, RunSymbol(ContextOf(p, s), s.probs, s.rc, true).value);
      && (r.Next? ==> r.s.Valid(p) && |s.out| < |r.s.out| && s.out <= r.s.out)
      && (r.Finished? ==> r.s.Valid(p) && r.s.out == s.out)
  {
    hide Run, ContextOf, Copy;
    var c := ContextOf(p, s);
    RunKeepsProbs(c, AskMatch, s.probs, s.rc, true);
    RunKeepsCoder(c, AskMatch, s.probs, s.rc, true);
    ApplyValid(p, s, RunSymbol(c, s.probs, s.rc, true).value);
  }

  /** The coder stays a pair of words wide enough to be normalised by one byte. */
  lemma {:induction false} RunKeepsCoder(c: Context, ph: Phase, probs: Probs, rc: Rc, adapt: bool)
    requires Ready(c, ph, probs) && ValidProbs(probs) && rc.Valid() && rc.range >= 0x1_0000
    ensures Run(c, ph, probs, rc, adapt).Some? ==>
      var o := Run(c, ph, probs, rc, adapt).value;
      o.rc.Valid() && o.rc.range >= 0x1_0000 && |o.rc.rest| <= |rc.rest|
    decreases BitsLeft(ph)
  {
    if !ph.Decoded? && Normalize(rc).Some? {
      var n := Normalize(rc).value;
      assert n.Valid() && n.range >= TOP;
      AskInTable(c, ph, |probs|);
      match Ask(c, ph)
      case Direct =>
        DirectShrinks(n);
        AdvanceValid(c, ph, DirectBit(n), |probs|);
        RunKeepsCoder(c, Advance(c, ph, DirectBit(n)), probs, AfterDirect(n), adapt);
      case Model(s) =>
        var bit := ModelBit(n, probs[s]);
        ModelShrinks(n, probs[s]);
        AdaptedStays(probs[s], bit);
        AdvanceValid(c, ph, bit, |probs|);
        var probs1 := if adapt then probs[s := Adapted(probs[s], bit)] else probs;
        RunKeepsCoder(c, Advance(c, ph, bit), probs1, AfterModel(n, probs[s]), adapt);
    }
  }

  // ----- More input does not change what was decoded from less.

  function Fed(rc: Rc, more: seq<Byte>): Rc {
    rc.(rest := rc.rest + more)
  }

  function FedLz(s: Lz, more: seq<Byte>): Lz {
    s.(rc := Fed(s.rc, more))
  }

  function FedProgress(r: Progress, more: seq<Byte>): Progress {
    match r
    case Next(s) => Next(FedLz(s, more))
    case Finished(s) => Finished(FedLz(s, more))
    case DataError => DataError
    case NeedInput => NeedInput
  }

  lemma NormalizeFed(rc: Rc, more: seq<Byte>)
    requires Normalize(rc).Some?
    ensures Normalize(Fed(rc, more)) == Some(Fed(Normalize(rc).value, more))
  {
    if rc.range < TOP {
      assert (rc.rest + more)[1..] == rc.rest[1..] + more;
    }
  }

  lemma AnswerFed(rc: Rc, p: nat, more: seq<Byte>)
    ensures ModelBit(Fed(rc, more), p) == ModelBit(rc, p)
    ensures AfterModel(Fed(rc, more), p) == Fed(AfterModel(rc, p), more)
    ensures DirectBit(Fed(rc, more)) == DirectBit(rc)
    ensures AfterDirect(Fed(rc, more)) == Fed(AfterDirect(rc), more)
  {
  }

  lemma {:induction false} RunFed(c: Context, ph: Phase, probs: Probs, rc: Rc, adapt: bool, more: seq<Byte>)
    requires Ready(c, ph, probs)
    requires Run(c, ph, probs, rc, adapt).Some?
    ensures
      var o := Run(c, ph, probs, rc, adapt).value;
      Run(c, ph, probs, Fed(rc, more), adapt) == Some(o.(rc := Fed(o.rc, more)))
    decreases BitsLeft(ph)
  {
    hide Advance, ValidPhase, Normalize, BitsLeft, Ask, ModelBit, AfterModel, DirectBit, AfterDirect;
    if !ph.Decoded? {
      var n := Normalize(rc).value;
      NormalizeFed(rc, more);
      AskInTable(c, ph, |probs|);
      match Ask(c, ph)
      case Direct =>
        AnswerFed(n, 0, more);
        AdvanceValid(c, ph, DirectBit(n), |probs|);
        RunFed(c, Advance(c, ph, DirectBit(n)), probs, AfterDirect(n), adapt, more);
      case Model(s) =>
        AnswerFed(n, probs[s], more);
        var bit := ModelBit(n, probs[s]);
        AdvanceValid(c, ph, bit, |probs|);
        var probs1 := if adapt then probs[s := Adapted(probs[s], bit)] else probs;
        RunFed(c, Advance(c, ph, bit), probs1, AfterModel(n, probs[s]), adapt, more);
    }
  }

  lemma RunSymbolFed(c: Context, probs: Probs, rc: Rc, more: seq<Byte>)
    requires c.Valid(|probs|) && RunSymbol(c, probs, rc, true).Some?
    ensures
      var o := RunSymbol(c, probs, rc, true).value;
      RunSymbol(c, probs, Fed(rc, more), true) == Some(o.(rc := Fed(o.rc, more)))
  {
    hide Run;
    RunFed(c, AskMatch, probs, rc, true, more);
    NormalizeFed(Run(c, AskMatch, probs, rc, true).value.rc, more);
  }

  lemma ApplyFed(p: Props, s: Lz, o: Outcome, more: seq<Byte>)
    ensures Apply(p, FedLz(s, more), o.(rc := Fed(o.rc, more))) == FedProgress(Apply(p, s, o), more)
  {
    hide Copy;
  }

  lemma StepFed(p: Props, s: Lz, more: seq<Byte>)
    requires p.Valid() && s.Valid(p)
    ensures FedLz(s, more).Valid(p)
    ensures !Step(p, s).NeedInput? ==> Step(p, FedLz(s, more)) == FedProgress(Step(p, s), more)
  {
    hide Run, RunSymbol, Apply, LitIndex;
    ContextValid(p, s);
    var c := ContextOf(p, s);
    match RunSymbol(c, s.probs, s.rc, true)
    case None =>
    case Some(o) =>
      RunSymbolFed(c, s.probs, s.rc, more);
      ApplyFed(p, s, o, more);
  }

  lemma {:induction false} StepsFed(p: Props, s: Lz, n: nat, more: seq<Byte>)
    requires p.Valid() && s.Valid(p)
    ensures FedLz(s, more).Valid(p)
    ensures !Steps(p, s, n).NeedInput? ==> Steps(p, FedLz(s, more), n) == FedProgress(Steps(p, s, n), more)
    decreases n
  {
    hide Step;
    StepFed(p, s, more);
    if n > 0 && Step(p, s).Next? {
      StepsFed(p, Step(p, s).s, n - 1, more);
    }
  }

  lemma {:induction false} StepsValid(p: Props, s: Lz, n: nat)
    requires p.Valid() && s.Valid(p)
    ensures Steps(p, s, n).Next? ==> Steps(p, s, n).s.Valid(p) && s.out <= Steps(p, s, n).s.out
    ensures Steps(p, s, n).Finished? ==> Steps(p, s, n).s.Valid(p) && s.out <= Steps(p, s, n).s.out
    decreases n
  {
    hide Step;
    if n > 0 && Step(p, s).Next? {
      StepsValid(p, Step(p, s).s, n - 1);
    } else {
    }
  }

  lemma {:induction false} StepsAdd(p: Props, s: Lz, n: nat, m: nat)
    requires p.Valid() && s.Valid(p) && Steps(p, s, n).Next?
    ensures Steps(p, s, n).s.Valid(p)
    ensures Steps(p, s, n + m) == Steps(p, Steps(p, s, n).s, m)
    decreases n
  {
    hide Step;
    if n > 0 {
      StepsAdd(p, Step(p, s).s, n - 1, m);
    }
  }

  lemma StepsOne(p: Props, s: Lz, n: nat, t: Lz)
    requires p.Valid() && s.Valid(p) && Steps(p, s, n) == Next(t)
    ensures t.Valid(p) && Steps(p, s, n + 1) == Step(p, t)
  {
    hide Step;
    StepsAdd(p, s, n, 1);
  }

  // ----- Input that was not consumed did not matter.

  lemma {:induction false} RunUnfed(c: Context, ph: Phase, probs: Probs, rc: Rc, adapt: bool, more: seq<Byte>)
    requires Ready(c, ph, probs) && ValidProbs(probs) && rc.Valid() && rc.range >= 0x1_0000
    requires Run(c, ph, probs, Fed(rc, more), adapt).Some?
    requires |Run(c, ph, probs, Fed(rc, more), adapt).value.rc.rest| >= |more|
    ensures Run(c, ph, probs, rc, adapt).Some?
    decreases BitsLeft(ph)
  {
    hide Advance, ValidPhase, Normalize, BitsLeft, Ask, ModelBit, AfterModel, DirectBit, AfterDirect;
    if !ph.Decoded? {
      NormalizeUnfed(rc, more);
      RunShrinks(c, ph, probs, Fed(rc, more), adapt);
      var n := Normalize(rc).value;
      AskInTable(c, ph, |probs|);
      match Ask(c, ph)
      case Direct =>
        AnswerFed(n, 0, more);
        DirectShrinks(n);
        AdvanceValid(c, ph, DirectBit(n), |probs|);
        RunUnfed(c, Advance(c, ph, DirectBit(n)), probs, AfterDirect(n), adapt, more);
      case Model(s) =>
        AnswerFed(n, probs[s], more);
        ModelShrinks(n, probs[s]);
        var bit := ModelBit(n, probs[s]);
        AdaptedStays(probs[s], bit);
        AdvanceValid(c, ph, bit, |probs|);
        var probs1 := if adapt then probs[s := Adapted(probs[s], bit)] else probs;
        RunUnfed(c, Advance(c, ph, bit), probs1, AfterModel(n, probs[s]), adapt, more);
    }
  }

  lemma NormalizeUnfed(rc: Rc, more: seq<Byte>)
    requires rc.Valid() && rc.range >= 0x1_0000
    ensures Normalize(rc).None? ==>
          rc.rest == [] && (Normalize(Fed(rc, more)).Some? ==> |Normalize(Fed(rc, more)).value.rest| < |more|)
    ensures Normalize(rc).Some? ==> Normalize(rc).value.Valid() && Normalize(rc).value.range >= TOP
    ensures Normalize(rc).Some? ==> Normalize(Fed(rc, more)) == Some(Fed(Normalize(rc).value, more))
  {
    if rc.range < TOP && rc.rest != [] {
      assert (rc.rest + more)[1..] == rc.rest[1..] + more;
    }
  }

  /** What a walk leaves is at most what its first normalisation left. */
  lemma RunShrinks(c: Context, ph: Phase, probs: Probs, rc: Rc, adapt: bool)
    requires Ready(c, ph, probs) && ValidProbs(probs) && rc.Valid() && rc.range >= 0x1_0000
    requires Run(c, ph, probs, rc, adapt).Some? && !ph.Decoded?
    ensures Normalize(rc).Some?
    ensures |Run(c, ph, probs, rc, adapt).value.rc.rest| <= |Normalize(rc).value.rest|
  {
    hide Advance, ValidPhase, BitsLeft, Ask, ModelBit, AfterModel, DirectBit, AfterDirect;
    var n := Normalize(rc).value;
    assert n.Valid() && n.range >= TOP;
    AskInTable(c, ph, |probs|);
    match Ask(c, ph)
    case Direct =>
      DirectShrinks(n);
      AdvanceValid(c, ph, DirectBit(n), |probs|);
      RunKeepsCoder(c, Advance(c, ph, DirectBit(n)), probs, AfterDirect(n), adapt);
    case Model(s) =>
      var bit := ModelBit(n, probs[s]);
      ModelShrinks(n, probs[s]);
      AdaptedStays(probs[s], bit);
      AdvanceValid(c, ph, bit, |probs|);
      var probs1 := if adapt then probs[s := Adapted(probs[s], bit)] else probs;
      RunKeepsCoder(c, Advance(c, ph, bit), probs1, AfterModel(n, probs[s]), adapt);
  }

  lemma RunSymbolUnfed(c: Context, probs: Probs, rc: Rc, more: seq<Byte>)
    requires c.Valid(|probs|) && ValidProbs(probs) && rc.Valid() && rc.range >= TOP
    requires RunSymbol(c, probs, Fed(rc, more), true).Some?
    ensures |RunSymbol(c, probs, Fed(rc, more), true).value.rc.rest| <= |Fed(rc, more).rest|
    ensures |RunSymbol(c, probs, Fed(rc, more), true).value.rc.rest| >= |more| ==> RunSymbol(c, probs, rc, true).Some?
  {
    hide Run;
    var o := Run(c, AskMatch, probs, Fed(rc, more), true).value;
    RunKeepsCoder(c, AskMatch, probs, Fed(rc, more), true);
    if |RunSymbol(c, probs, Fed(rc, more), true).value.rc.rest| >= |more| {
      RunUnfed(c, AskMatch, probs, rc, true, more);
      RunFed(c, AskMatch, probs, rc, true, more);
      RunKeepsCoder(c, AskMatch, probs, rc, true);
      NormalizeUnfed(Run(c, AskMatch, probs, rc, true).value.rc, more);
    }
  }

  /** The input left after a step. */
  function Leftover(r: Progress): seq<Byte> {
    match r
    case Next(s) => s.rc.rest
    case Finished(s) => s.rc.rest
    case _ => []
  }

  lemma ApplyLeftover(p: Props, s: Lz, o: Outcome)
    ensures Apply(p, s, o).Next? || Apply(p, s, o).Finished? ==> Leftover(Apply(p, s, o)) == o.rc.rest
    ensures !Apply(p, s, o).NeedInput?
  {
    hide Copy;
  }

  lemma StepUnfed(p: Props, s: Lz, more: seq<Byte>)
    requires p.Valid() && s.Valid(p)
    ensures FedLz(s, more).Valid(p)
    ensures |Leftover(Step(p, FedLz(s, more)))| <= |s.rc.rest| + |more|
    ensures
      var r := Step(p, FedLz(s, more));
      (r.Next? || r.Finished?) && |Leftover(r)| >= |more| ==>
        !Step(p, s).NeedInput? && r == FedProgress(Step(p, s), more)
  {
    hide Run, RunSymbol, Apply, LitIndex;
    ContextValid(p, s);
    var c := ContextOf(p, s);
    StepFed(p, s, more);
    match RunSymbol(c, s.probs, Fed(s.rc, more), true)
    case None =>
    case Some(o) =>
      RunSymbolUnfed(c, s.probs, s.rc, more);
      ApplyLeftover(p, FedLz(s, more), o);
      match RunSymbol(c, s.probs, s.rc, true) {
        case None =>
        case Some(o1) => ApplyLeftover(p, s, o1);
      }
  }

  lemma {:induction false} StepsLeftover(p: Props, s: Lz, n: nat)
    requires p.Valid() && s.Valid(p)
    ensures |Leftover(Steps(p, s, n))| <= |s.rc.rest|
    decreases n
  {
    hide Step;
    StepUnfed(p, s, []);
    assert FedLz(s, []) == s;
    if n > 0 && Step(p, s).Next? {
      StepsLeftover(p, Step(p, s).s, n - 1);
    }
  }

  /** A run that ends with at least `more` unread would have gone the same way without it. */
  lemma {:induction false} StepsUnfed(p: Props, s: Lz, n: nat, more: seq<Byte>)
    requires p.Valid() && s.Valid(p)
    ensures FedLz(s, more).Valid(p)
    ensures
      var r := Steps(p, FedLz(s, more), n);
      (r.Next? || r.Finished?) && |Leftover(r)| >= |more| ==>
        !Steps(p, s, n).NeedInput? && r == FedProgress(Steps(p, s, n), more)
    decreases n
  {
    hide Step;
    StepUnfed(p, s, more);
    var f := FedLz(s, more);
    if n > 0 {
      var r := Steps(p, f, n);
      if (r.Next? || r.Finished?) && |Leftover(r)| >= |more| {
        if Step(p, f).Next? {
          StepsLeftover(p, Step(p, f).s, n - 1);
          StepsUnfed(p, Step(p, s).s, n - 1, more);
        }
      }
    }
  }

  // ----- The stream from its header.

  /** The machine at the start of the stream `fed`, whose first five bytes start the coder. */
  function Initial(p: Props, fed: seq<Byte>): Lz
    requires |fed| >= 5
  {
    Lz([], 0, 1, 1, 1, 1, seq(p.NumProbs(), i => PROB_TOTAL / 2),
       Rc(WORD - 1, HeaderCode(fed), fed[5..]))
  }

  /** The code word stored big-endian after the leading zero byte. */
  function HeaderCode(fed: seq<Byte>): (code: nat)
    requires |fed| >= 5
    ensures code < WORD
  {
    0x100_0000 * (fed[1] as int) + 0x1_0000 * (fed[2] as int) + 0x100 * (fed[3] as int) + fed[4] as int
  }

  lemma InitialValid(p: Props, fed: seq<Byte>)
    requires p.Valid() && |fed| >= 5
    ensures Initial(p, fed).Valid(p)
  {
  }

  lemma InitialFed(p: Props, fed: seq<Byte>, more: seq<Byte>)
    requires |fed| >= 5
    ensures Initial(p, fed + more) == FedLz(Initial(p, fed), more)
  {
    assert (fed + more)[5..] == fed[5..] + more;
  }

  /** Two runs over the same stream, one of which has seen less of it, agree: the output of
      one is a prefix of the output of the other. */
  lemma RunsAgree(p: Props, fed: seq<Byte>, more: seq<Byte>, n: nat, m: nat, a: Lz, b: Lz)
    requires p.Valid() && |fed| >= 5
    requires Initial(p, fed).Valid(p) && Initial(p, fed + more).Valid(p)
    requires Steps(p, Initial(p, fed), n) == Next(a) || Steps(p, Initial(p, fed), n) == Finished(a)
    requires Steps(p, Initial(p, fed + more), m) == Next(b) || Steps(p, Initial(p, fed + more), m) == Finished(b)
    ensures a.out <= b.out || b.out <= a.out
  {
    hide Step, Steps, Initial;
    InitialFed(p, fed, more);
    StepsFed(p, Initial(p, fed), n, more);
    var s := Initial(p, fed + more);
    StepsAgree(p, s, n, m);
  }

  lemma StepsAgree(p: Props, s: Lz, n: nat, m: nat)
    requires p.Valid() && s.Valid(p)
    requires Steps(p, s, n).Next? || Steps(p, s, n).Finished?
    requires Steps(p, s, m).Next? || Steps(p, s, m).Finished?
    ensures Steps(p, s, n).s.out <= Steps(p, s, m).s.out || Steps(p, s, m).s.out <= Steps(p, s, n).s.out
  {
    hide Step, Steps;
    if n <= m {
      StepsGrow(p, s, n, m);
    } else {
      StepsGrow(p, s, m, n);
    }
  }

  lemma {:induction false} StepsGrow(p: Props, s: Lz, n: nat, m: nat)
    requires p.Valid() && s.Valid(p) && n <= m
    requires Steps(p, s, n).Next? || Steps(p, s, n).Finished?
    requires Steps(p, s, m).Next? || Steps(p, s, m).Finished?
    ensures Steps(p, s, n).s.out <= Steps(p, s, m).s.out
    decreases n
  {
    hide Step;
    if n == 0 {
      StepsValid(p, s, m);
    } else if Step(p, s).Next? {
      StepsGrow(p, Step(p, s).s, n - 1, m - 1);
    }
  }
}
