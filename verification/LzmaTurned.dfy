/**
 A stream on which reading goes wrong once the dictionary has been turned round: one byte 128 and
 then zeros, as many as the input lasts. With a code word that the first literal uses up, and zeros
 behind it, every later bit of the stream is zero.
 */
module LzmaTurned {
  import opened Words
  import opened LzmaGrammar
  import opened LzmaRange
  import opened LzmaStream
  import opened LzmaDecoder
  import opened LzmaHeader
  import opened LzmaRead

  ghost predicate AllZero(s: seq<Byte>) {
    forall i :: 0 <= i < |s| ==> s[i] == 0
  }

  /** The coder reads zeros from here on. */
  ghost predicate Quiet(rc: Rc) {
    rc.code == 0 && AllZero(rc.rest)
  }

  function Zeros(n: nat): (s: seq<Byte>)
    ensures |s| == n && AllZero(s)
  {
    seq(n, i => 0)
  }

  /** The literal that zero bits make of the bits before them. */
  function Fill(symbol: nat): Byte
    requires symbol > 0
    decreases 256 - symbol
  {
    if symbol < 256 then Fill(2 * symbol) else symbol % 256
  }

  /** A modelled bit of a quiet coder is zero, and leaves it quiet. */
  lemma QuietBit(rc: Rc, p: nat)
    requires rc.Valid() && rc.range >= 0x1_0000 && Quiet(rc) && PROB_MIN <= p <= PROB_MAX
    ensures Normalize(rc).Some? ==>
              var n := Normalize(rc).value;
              && n.Valid() && n.range >= TOP && ModelBit(n, p) == 0
              && AfterModel(n, p).Valid() && AfterModel(n, p).range >= 0x1_0000 && Quiet(AfterModel(n, p))
  {
    if Normalize(rc).Some? {
      var n := Normalize(rc).value;
      BoundFits(n.range, p);
    }
  }

  lemma BoundFits(range: nat, p: nat)
    requires TOP <= range < WORD && PROB_MIN <= p <= PROB_MAX
    ensures 0x1_0000 <= BoundOf(range, p) <= range
  {
    var q := range / PROB_TOTAL;
    assert q >= 8192;
    BoundInRange(range, p);
    assert q * p >= 8192 * p;
  }

  lemma Updated(probs: Probs, s: nat)
    requires ValidProbs(probs) && s < |probs|
    ensures ValidProbs(probs[s := Adapted(probs[s], 0)]) && ValidProbs(probs[s := Adapted(probs[s], 1)])
  {
    AdaptedStays(probs[s], 0);
    AdaptedStays(probs[s], 1);
  }

  lemma {:induction false} QuietLiteral(c: Context, symbol: nat, probs: Probs, rc: Rc)
    requires Ready(c, PlainLiteral(symbol), probs) && ValidProbs(probs)
    requires rc.Valid() && rc.range >= 0x1_0000 && Quiet(rc)
    ensures var o := Run(c, PlainLiteral(symbol), probs, rc, true);
            o.Some? ==> o.value.symbol == Literal(Fill(symbol)) && Quiet(o.value.rc)
    decreases 256 - symbol
  {
    hide Quiet, BoundOf, Normalize, ModelBit, AfterModel, Adapted, ValidProbs;
    var slot := c.litBase + symbol;
    SlotGood(probs, slot);
    QuietBit(rc, probs[slot]);
    if Normalize(rc).Some? {
      var n := Normalize(rc).value;
      Updated(probs, slot);
      if 2 * symbol < 256 {
        QuietLiteral(c, 2 * symbol, probs[slot := Adapted(probs[slot], 0)], AfterModel(n, probs[slot]));
      }
    }
  }

  lemma SlotGood(probs: Probs, s: nat)
    requires ValidProbs(probs) && s < |probs|
    ensures PROB_MIN <= probs[s] <= PROB_MAX
  {
  }

  /** A whole symbol read by a quiet coder is the literal zero. */
  lemma QuietSymbol(c: Context, probs: Probs, rc: Rc)
    requires c.Valid(|probs|) && ValidProbs(probs) && c.state < 7
    requires rc.Valid() && rc.range >= 0x1_0000 && Quiet(rc)
    ensures var o := RunSymbol(c, probs, rc, true);
            o.Some? ==> o.value.symbol == Literal(0) && Quiet(o.value.rc)
  {
    hide Quiet, BoundOf, Normalize, ModelBit, AfterModel, Adapted, ValidProbs;
    var slot := IS_MATCH + 16 * c.state + c.posState;
    SlotGood(probs, slot);
    QuietBit(rc, probs[slot]);
    FillOne();
    if Normalize(rc).Some? {
      var n := Normalize(rc).value;
      Updated(probs, slot);
      var adapted, after := probs[slot := Adapted(probs[slot], 0)], AfterModel(n, probs[slot]);
      QuietLiteral(c, 1, adapted, after);
      var o := Run(c, PlainLiteral(1), adapted, after, true);
      assert Run(c, AskMatch, probs, rc, true) == o;
      if o.Some? {
        QuietNormalize(o.value.rc);
      }
    }
  }

  lemma QuietNormalize(rc: Rc)
    requires Quiet(rc)
    ensures Normalize(rc).Some? ==> Quiet(Normalize(rc).value)
  {
  }

  lemma FillOne()
    ensures Fill(1) == 0 && Fill(3) == 128
  {
    assert Fill(256) == 0 && Fill(384) == 128;
    assert Fill(64) == Fill(128) == 0 && Fill(96) == Fill(192) == 128;
    assert Fill(16) == Fill(32) == 0 && Fill(24) == Fill(48) == 128;
    assert Fill(4) == Fill(8) == 0 && Fill(6) == Fill(12) == 128;
    assert Fill(2) == 0;
  }

  /** Between two literals of the stream. */
  ghost predicate Still(p: Props, t: Lz) {
    t.Valid(p) && t.state == 0 && Quiet(t.rc)
  }

  lemma StillStep(p: Props, t: Lz)
    requires p.Valid() && Still(p, t)
    ensures var r := Step(p, t);
            || (r.NeedInput? && |t.rc.rest| < REQUIRED_INPUT_MAX)
            || (r.Next? && Still(p, r.s) && r.s.out == t.out + [0] && |r.s.rc.rest| + REQUIRED_INPUT_MAX >= |t.rc.rest|)
  {
    hide Quiet, RunSymbol, LitIndex;
    ContextValid(p, t);
    var c := ContextOf(p, t);
    QuietSymbol(c, t.probs, t.rc);
    if |t.rc.rest| >= REQUIRED_INPUT_MAX {
      SymbolNeedsAtMostTwenty(c, t.probs, t.rc, true);
    }
  }

  // ---- the first symbol

  /** The code word is the bound of the first literal's first bit, which is one. */
  function Stream(n: nat): (f: seq<Byte>)
    ensures |f| == 5 + n && f[0] == 0 && f[5..] == Zeros(n)
  {
    [0, 0x3F, 0xFF, 0xFC, 0x00] + Zeros(n)
  }

  lemma FirstBounds()
    ensures BoundOf(WORD - 1, 1024) == 0x7FFF_FC00 && BoundOf(0x7FFF_FC00, 1024) == 0x3FFF_FC00
  {
  }

  lemma OneBit(c: Context, ph: Phase, probs: Probs, rc: Rc, s: nat, bit: Bit)
    requires Ready(c, ph, probs) && !ph.Decoded? && Ask(c, ph) == Model(s) && s < |probs|
    requires rc.range >= TOP && ModelBit(rc, probs[s]) == bit
    ensures Ready(c, Advance(c, ph, bit), probs)
    ensures Run(c, ph, probs, rc, true)
         == Run(c, Advance(c, ph, bit), probs[s := Adapted(probs[s], bit)], AfterModel(rc, probs[s]), true)
  {
    hide Ask, Advance, ValidPhase, Adapted, ModelBit, AfterModel;
    AdvanceValid(c, ph, bit, |probs|);
  }

  lemma FirstBits(c: Context, probs: Probs, rest: seq<Byte>)
    requires c.Valid(|probs|) && c.state == 0
    requires forall s :: 0 <= s < |probs| ==> probs[s] == 1024
    ensures var slot := c.posState;
            var probs1 := probs[slot := Adapted(1024, 0)];
            var probs2 := probs1[c.litBase + 1 := Adapted(1024, 1)];
            && Ready(c, AskMatch, probs) && Ready(c, PlainLiteral(3), probs2)
            && Run(c, AskMatch, probs, Rc(WORD - 1, 0x3FFF_FC00, rest), true)
               == Run(c, PlainLiteral(3), probs2, Rc(0x4000_0000, 0, rest), true)
            && ValidProbs(probs2)
  {
    hide Run, BoundOf, Adapted;
    var slot := c.posState;
    var rc0, rc1 := Rc(WORD - 1, 0x3FFF_FC00, rest), Rc(0x7FFF_FC00, 0x3FFF_FC00, rest);
    FirstBounds();
    OneBit(c, AskMatch, probs, rc0, slot, 0);
    var probs1 := probs[slot := Adapted(1024, 0)];
    assert probs1[c.litBase + 1] == 1024;
    OneBit(c, PlainLiteral(1), probs1, rc1, c.litBase + 1, 1);
    Updated(probs, slot);
    Updated(probs1, c.litBase + 1);
  }

  lemma FirstSymbol(c: Context, probs: Probs, rest: seq<Byte>)
    requires c.Valid(|probs|) && c.state == 0 && AllZero(rest)
    requires forall s :: 0 <= s < |probs| ==> probs[s] == 1024
    ensures var o := RunSymbol(c, probs, Rc(WORD - 1, 0x3FFF_FC00, rest), true);
            o.Some? ==> o.value.symbol == Literal(128) && Quiet(o.value.rc)
  {
    hide Run, ValidProbs, Adapted, Normalize;
    FirstBits(c, probs, rest);
    var probs2 := probs[c.posState := Adapted(1024, 0)][c.litBase + 1 := Adapted(1024, 1)];
    QuietLiteral(c, 3, probs2, Rc(0x4000_0000, 0, rest));
    FillOne();
    var o := Run(c, PlainLiteral(3), probs2, Rc(0x4000_0000, 0, rest), true);
    if o.Some? {
      QuietNormalize(o.value.rc);
    }
  }

  lemma FirstStep(p: Props, n: nat)
    requires p.Valid()
    ensures Initial(p, Stream(n)).Valid(p)
    ensures var r := Step(p, Initial(p, Stream(n)));
            || (r.NeedInput? && n < REQUIRED_INPUT_MAX)
            || (r.Next? && Still(p, r.s) && r.s.out == [128] && |r.s.rc.rest| + REQUIRED_INPUT_MAX >= n)
  {
    hide RunSymbol, LitIndex, Quiet;
    var s := Initial(p, Stream(n));
    InitialValid(p, Stream(n));
    ContextValid(p, s);
    var c := ContextOf(p, s);
    FirstSymbol(c, s.probs, Zeros(n));
    if n >= REQUIRED_INPUT_MAX {
      SymbolNeedsAtMostTwenty(c, s.probs, s.rc, true);
    }
  }

  /** The output after `k` symbols. */
  function Made(k: nat): seq<Byte> {
    if k == 0 then [] else [128] + Zeros(k - 1)
  }

  /** After `k` symbols, or when the input has run out. */
  ghost predicate At(p: Props, n: nat, k: nat, r: Progress) {
    || (r.NeedInput? && n < REQUIRED_INPUT_MAX * k)
    || (r.Next? && r.s.Valid(p) && r.s.out == Made(k) && |r.s.rc.rest| + REQUIRED_INPUT_MAX * k >= n
      && (k > 0 ==> Still(p, r.s)))
  }

  lemma {:induction false} StreamSteps(p: Props, n: nat, k: nat)
    requires p.Valid()
    ensures Initial(p, Stream(n)).Valid(p) && At(p, n, k, Steps(p, Initial(p, Stream(n)), k))
    decreases k
  {
    hide Step, Initial, Still, Stream;
    InitialValid(p, Stream(n));
    var s := Initial(p, Stream(n));
    FirstStep(p, n);
    if k == 0 {
      AtStart(p, n);
    } else if k == 1 {
      StepsFirst(p, s);
    } else {
      StreamSteps(p, n, k - 1);
      var r := Steps(p, s, k - 1);
      if r.Next? {
        StepsOne(p, s, k - 1, r.s);
        StillStep(p, r.s);
        assert Made(k - 1) + [0] == Made(k);
      } else {
        StepsStuck(p, s, k - 1);
      }
    }
  }

  lemma AtStart(p: Props, n: nat)
    requires p.Valid()
    ensures Initial(p, Stream(n)).Valid(p) && At(p, n, 0, Next(Initial(p, Stream(n))))
  {
    InitialValid(p, Stream(n));
  }

  lemma StepsFirst(p: Props, s: Lz)
    requires p.Valid() && s.Valid(p)
    ensures Steps(p, s, 1) == Step(p, s)
  {
    hide Step;
  }

  lemma {:induction false} StepsStuck(p: Props, s: Lz, k: nat)
    requires p.Valid() && s.Valid(p) && Steps(p, s, k).NeedInput?
    ensures Steps(p, s, k + 1).NeedInput?
    decreases k
  {
    hide Step;
    if k > 0 && Step(p, s).Next? {
      StepsStuck(p, Step(p, s).s, k - 1);
    }
  }

  lemma StreamSound(p: Props, n: nat)
    requires p.Valid()
    ensures Sound(p, Stream(n))
  {
    hide Steps, Initial, Made, Still, Stream;
    InitialValid(p, Stream(n));
    forall k: nat
      ensures Clean(Steps(p, Initial(p, Stream(n)), k))
    {
      StreamSteps(p, n, k);
    }
  }

  // ---- reading it

  /** Enough zeros for a dictionary and the longest match. */
  function Plenty(p: Props): nat {
    20 * (p.dicSize + 400)
  }

  /** The header announces as much output as is read below. */
  function HeaderOf(p: Props): Header {
    Header(p, p.dicSize + 2)
  }

  function File(p: Props): (f: seq<Byte>)
    requires HeaderOf(p).Valid()
    ensures |f| >= HEADER_SIZE && f[HEADER_SIZE..] == Stream(Plenty(p))
  {
    Encode(HeaderOf(p)) + Stream(Plenty(p))
  }

  /** What a decoder fed with the beginning of the stream has produced. */
  lemma OutputIs(r: LzmaReader, p: Props) returns (k: nat)
    requires r.Valid() && r.dec.p == p && HeaderOf(p).Valid() && r.file == File(p)
    requires !r.dec.needFlush && !r.dec.needInitState
    ensures r.dec.out <= Made(k) && k < |r.dec.out| + MATCH_SPEC_LEN_START && r.dec.remainLen != MATCH_SPEC_LEN_START
    ensures r.dec.fed == r.Stream() ==> Plenty(p) < REQUIRED_INPUT_MAX * (k + 1)
  {
    hide Steps, Initial, Still, LzmaDec.Valid, LzmaDec.Hungry, LzmaDec.OnStream, LzmaDec.Session, Sound, Stream, Made,
         Plenty;
    var d := r.dec;
    d.SessionSeen();
    d.RunningSeen();
    var f := r.Stream();
    var more := f[|d.fed|..];
    assert f == d.fed + more;
    k := d.count;
    d.FeedStream(d.fed, k, d.AbsOn(d.tempBuf), d.remainLen == MATCH_SPEC_LEN_START, more);
    StreamSteps(p, Plenty(p), k);
    StepsAre(d, f, k, FedLz(d.AbsOn(d.tempBuf), more), d.remainLen == MATCH_SPEC_LEN_START);
    MadeLength(k);
    CompletedLength(d);
    if d.fed == f {
      HeldShort(d);
    }
  }

  lemma MadeLength(k: nat)
    ensures |Made(k)| == k
  {
  }

  lemma StepsAre(d: LzmaDec, f: seq<Byte>, n: nat, t: Lz, done: bool)
    requires d.p.Valid() && |f| >= RC_INIT_SIZE && d.OnStream(f, n, t, done)
    ensures Steps(d.p, Initial(d.p, f), n) == if done then Finished(t) else Next(t)
  {
    hide Steps, Initial;
  }

  lemma CompletedLength(d: LzmaDec)
    requires d.remainLen <= MATCH_SPEC_LEN_START && (d.Pending() > 0 ==> 1 <= d.rep0 <= |d.out|)
    ensures d.out <= d.Completed() && |d.Completed()| < |d.out| + MATCH_SPEC_LEN_START
  {
  }

  lemma HeldShort(d: LzmaDec)
    requires d.Running()
    ensures |d.tempBuf| < REQUIRED_INPUT_MAX
  {
    hide LzmaDec.Valid, LzmaDec.Hungry, LzmaDec.OnStream;
  }

  /** The stream is not used up before its output is a good deal longer than the dictionary. */
  lemma MoreToCome(r: LzmaReader, p: Props)
    requires r.Valid() && p.Valid() && r.dec.p == p && HeaderOf(p).Valid() && r.file == File(p)
    requires |r.dec.out| <= p.dicSize + 2
    ensures !r.Exhausted()
  {
    hide LzmaDec.Session, Sound, Stream, Made, LzmaDec.Hungry, LzmaDec.Running;
    var d := r.dec;
    d.SessionSeen();
    if !d.needFlush && !d.needInitState {
      var k := OutputIs(r, p);
    } else {
      NotStarted(d);
    }
  }

  lemma NotStarted(d: LzmaDec)
    requires d.Session() && (d.needFlush || d.needInitState)
    ensures d.remainLen == 0 && d.out == [] && |d.fed| <= RC_INIT_SIZE
  {
    hide LzmaDec.Running;
  }

  lemma OutputBytes(r: LzmaReader, p: Props, i: nat)
    requires r.Valid() && r.dec.p == p && HeaderOf(p).Valid() && r.file == File(p) && i < |r.dec.out|
    ensures r.dec.out[i] == if i == 0 then 128 else 0
  {
    hide LzmaDec.Session, Sound, Stream, LzmaDec.Running;
    r.dec.SessionSeen();
    if r.dec.needFlush || r.dec.needInitState {
      NotStarted(r.dec);
    } else {
      var k := OutputIs(r, p);
      assert r.dec.out[i] == Made(k)[i];
    }
  }

  /** A reader of the file, not far behind the first round. */
  ghost predicate Early(r: LzmaReader, p: Props)
    reads r, r.inp, r.dec, r.dec.probs, r.dec.dic
  {
    r.Valid() && p.Valid() && r.dec.p == p && HeaderOf(p).Valid() && r.file == File(p) && |r.dec.out| <= p.dicSize + 2
  }

  /** A read there gets all it asks for, and finds 128 only at the start of the output. */
  method ReadEarly(r: LzmaReader, p: Props, len: nat) returns (data: seq<Byte>)
    requires Early(r, p) && len > 0 && r.Base() + len <= p.dicSize + 2
    modifies r, r.inp, r.dec, r.dec.probs, r.dec.dic
    ensures Early(r, p) && |data| == len && data[0] == (if old(r.Base()) == 0 then 128 else 0)
    ensures Found(r.dec.out, old(r.Base()), data) && old(r.dec.out) <= r.dec.out
    ensures r.Base() == old(r.Base()) <==> len <= p.dicSize
    ensures |r.dec.out| <= Max(|old(r.dec.out)|, old(r.Base()) + len)
  {
    hide LzmaDec.Session, Sound, Stream, File, LzmaReader.Exhausted, LzmaReader.Fixed, LzmaReader.Buffered, Found;
    ghost var base := r.Base();
    DicSize(r, p);
    data := r.Read(0, len);
    MoreToCome(r, p);
    FoundInside(r.dec.out, base, data);
    OutputBytes(r, p, base);
  }

  lemma DicSize(r: LzmaReader, p: Props)
    requires Early(r, p)
    ensures r.dec.dic.Length == p.dicSize
  {
    hide LzmaDec.Session, Sound, Stream, File;
    r.dec.SessionSeen();
  }

  /** Whatever a reader of this file has been asked before: what lies at the place `at` of the output
      begins with 128 only at the start of it. A read at position 0 finds what lies at `Base()`. */
  lemma FirstByteAt(r: LzmaReader, p: Props, at: nat, data: seq<Byte>)
    requires r.Valid() && r.dec.p == p && HeaderOf(p).Valid() && r.file == File(p)
    requires Found(r.dec.out, at, data) && data != []
    ensures data[0] == if at == 0 then 128 else 0
  {
    hide LzmaDec.Session, Sound, Stream, File, LzmaReader.Fixed, LzmaReader.Buffered, Found;
    FoundInside(r.dec.out, at, data);
    OutputBytes(r, p, at);
  }

  /** The first byte of the file is read twice, the second time after one byte more than the dictionary
      holds: 128 at first, then 0, which lies further on in the output. */
  method FirstByteTwice(p: Props)
    returns (r: LzmaReader, before: seq<Byte>, between: seq<Byte>, after: seq<Byte>)
    requires HeaderOf(p).Valid()
    ensures Open(File(p)) == Some(HeaderOf(p)) && r.Valid() && r.file == File(p) && r.dec.p == p
    ensures before == [128] && |between| == p.dicSize + 1 && after == [0]
    ensures Found(r.dec.out, 0, before) && Found(r.dec.out, 0, between) && Found(r.dec.out, r.Base(), after)
    ensures r.Base() > 0
  {
    hide LzmaDec.Session, Sound, Stream, File, Encode, LzmaReader.Valid, Found;
    FileOpens(p);
    StreamSound(p, Plenty(p));
    r := new LzmaReader(File(p), p);
    before := ReadEarly(r, p, 1);
    ghost var out := r.dec.out;
    between := ReadEarly(r, p, p.dicSize + 1);
    FoundLater(out, r.dec.out, 0, before);
    out := r.dec.out;
    after := ReadEarly(r, p, 1);
    FoundLater(out, r.dec.out, 0, before);
    FoundLater(out, r.dec.out, 0, between);
  }

  lemma FileOpens(p: Props)
    requires HeaderOf(p).Valid()
    ensures p.Valid() && Open(File(p)) == Some(HeaderOf(p))
  {
    hide Encode, Stream;
    OpenEncoded(HeaderOf(p), Stream(Plenty(p)));
    Divides(p.dicSize);
  }
}
