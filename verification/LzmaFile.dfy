/** Whole files: what is written with a header and a marked end is what the reader gives back. */
module LzmaFile {
  import opened Words
  import opened History
  import opened LzmaGrammar
  import opened LzmaRange
  import opened LzmaStream
  import opened LzmaDecoder
  import opened LzmaHeader
  import opened LzmaRead
  import opened LzmaEffects
  import opened LzmaWriter

  /** A stream of symbols and the end marker. */
  function Marked(p: Props, symbols: seq<Symbol>): seq<Byte>
    requires p.Valid() && AllValid(symbols)
  {
    FileOf(p, symbols + [Marker(0)])
  }

  /** The output of legal symbols. */
  ghost function OutputOf(p: Props, symbols: seq<Symbol>): Plain
    requires p.Valid() && AllValid(symbols) && Legal(p, 0, symbols)
  {
    hide Ended, Legal, Writable;
    UnreadValid(p);
    EndedIs(p, Unread(p), symbols);
    PlainOf(Ended(p, Unread(p), symbols).s)
  }

  ghost predicate Begins(p: Props, f: seq<Byte>, symbols: seq<Symbol>)
    requires p.Valid() && AllValid(symbols)
  {
    Marked(p, symbols) <= f
  }

  /** Every run over such a stream: symbol after symbol to the marker, and no further. */
  lemma MarkedSteps(p: Props, symbols: seq<Symbol>, f: seq<Byte>, n: nat)
    requires p.Valid() && AllValid(symbols) && Legal(p, 0, symbols) && Begins(p, f, symbols)
    ensures |f| >= 5 && f[0] == 0 && Writable(p, Initial(p, f))
    ensures var r := Steps(p, Initial(p, f), n);
            if n <= |symbols| then r.Next? && r.s.out <= OutputOf(p, symbols).out
            else r.Finished? && r.s.out == OutputOf(p, symbols).out && r.s.rc.code == 0
  {
    hide Steps, Ended, Legal, Writable, StreamOf, Initial;
    var all := symbols + [Marker(0)];
    var more := f[|Marked(p, symbols)|..];
    assert f == FileOf(p, all) + more;
    UnreadValid(p);
    EndedIs(p, Unread(p), symbols);
    EndedMarked(p, Unread(p), symbols, 0);
    FileUndone(p, all, more);
    assert all[..|symbols|] == symbols;
    FileGoesOn(p, all, |symbols|, more);
    var s := Initial(p, f);
    Prefix(p, s, n, |symbols|);
  }

  /** A run whose step behind the `k`-th is its last. */
  lemma Prefix(p: Props, s: Lz, n: nat, k: nat)
    requires Writable(p, s) && Steps(p, s, k).Next? && Steps(p, s, k + 1).Finished?
    ensures n > k ==> Steps(p, s, n) == Steps(p, s, k + 1)
    ensures n <= k ==> Steps(p, s, n).Next? && Steps(p, s, n).s.out <= Steps(p, s, k + 1).s.out
  {
    hide Step;
    if n > k {
      StepsAdd(p, s, k, 1);
      StepsAdd(p, s, k, n - k);
    } else {
      StillGoing(p, s, n, k);
      StepsGrow(p, s, n, k + 1);
    }
  }

  lemma {:induction false} StillGoing(p: Props, s: Lz, n: nat, k: nat)
    requires Writable(p, s) && Steps(p, s, k).Next? && n <= k
    ensures Steps(p, s, n).Next?
    decreases n
  {
    hide Step;
    if n > 0 {
      StillGoing(p, Step(p, s).s, n - 1, k - 1);
    }
  }

  /** A written stream holds no error. */
  lemma MarkedSound(p: Props, symbols: seq<Symbol>, f: seq<Byte>)
    requires p.Valid() && AllValid(symbols) && Legal(p, 0, symbols) && Begins(p, f, symbols)
    ensures Sound(p, f)
  {
    hide Steps, Legal, Lz.Valid, Initial, OutputOf, Begins;
    MarkedSteps(p, symbols, f, 0);
    forall n: nat
      ensures Clean(Steps(p, Initial(p, f), n))
    {
      MarkedSteps(p, symbols, f, n);
    }
  }

  /** What a decoder has made of a part of the stream. */
  lemma DecoderOutput(d: LzmaDec, symbols: seq<Symbol>, f: seq<Byte>)
    requires d.Session() && AllValid(symbols) && d.p.Valid() && Legal(d.p, 0, symbols) && Begins(d.p, f, symbols)
    requires d.fed <= f
    ensures d.out <= OutputOf(d.p, symbols).out
    ensures d.remainLen == MATCH_SPEC_LEN_START ==> d.out == OutputOf(d.p, symbols).out
    ensures d.fed == f && d.Stopped(NeedsMoreInput, d.dicPos, false, true) ==> d.out == OutputOf(d.p, symbols).out
  {
    hide LzmaDec.Running, Steps, Step, Initial, Legal, Writable, OutputOf, Begins, LzmaDec.Hungry, LzmaDec.Session;
    d.SessionSeen();
    MarkedSteps(d.p, symbols, f, 0);
    if !d.needFlush && !d.needInitState {
      RunningOutput(d, symbols, f);
    } else {
      NotStarted(d, f);
    }
  }

  lemma NotStarted(d: LzmaDec, f: seq<Byte>)
    requires d.Session() && (d.needFlush || d.needInitState) && |f| >= 5
    ensures d.out == [] && d.remainLen == 0
    ensures d.fed == f ==> !d.Stopped(NeedsMoreInput, d.dicPos, false, true)
  {
    hide LzmaDec.Running, LzmaDec.Hungry;
  }

  lemma RunningOutput(d: LzmaDec, symbols: seq<Symbol>, f: seq<Byte>)
    requires d.Session() && AllValid(symbols) && d.p.Valid() && Legal(d.p, 0, symbols) && Begins(d.p, f, symbols)
    requires d.fed <= f && d.Running()
    ensures d.out <= OutputOf(d.p, symbols).out
    ensures d.remainLen == MATCH_SPEC_LEN_START ==> d.out == OutputOf(d.p, symbols).out
    ensures d.fed == f && d.Stopped(NeedsMoreInput, d.dicPos, false, true) ==> d.out == OutputOf(d.p, symbols).out
  {
    hide LzmaDec.Running, Steps, Step, Initial, Legal, Writable, OutputOf, Begins, LzmaDec.Session, Copy;
    var p := d.p;
    d.RunningSeen();
    StoodAt(d);
    var t, done := d.AbsOn(d.tempBuf), d.remainLen == MATCH_SPEC_LEN_START;
    var more := f[|d.fed|..];
    assert f == d.fed + more;
    d.FeedStream(d.fed, d.count, t, done, more);
    OnSteps(d, f, d.count, FedLz(t, more), done);
    MarkedSteps(p, symbols, f, d.count);
    if !done && d.fed == f && d.Stopped(NeedsMoreInput, d.dicPos, false, true) {
      FedNothing(t, more);
      StepsOne(p, Initial(p, f), d.count, t);
      MarkedSteps(p, symbols, f, d.count + 1);
    }
  }

  lemma FedNothing(t: Lz, more: seq<Byte>)
    requires more == []
    ensures FedLz(t, more) == t
  {
  }

  lemma OnSteps(d: LzmaDec, f: seq<Byte>, n: nat, t: Lz, done: bool)
    requires d.p.Valid() && |f| >= RC_INIT_SIZE && d.OnStream(f, n, t, done)
    ensures Writable(d.p, Initial(d.p, f))
    ensures Steps(d.p, Initial(d.p, f), n) == if done then Finished(t) else Next(t)
  {
    hide Step, Initial;
    InitialValid(d.p, f);
  }

  /** Reading a file that was written gives the bytes of its output at the place asked for, all of them that
      there are. */
  method ReadWritten(h: Header, symbols: seq<Symbol>, tail: seq<Byte>, ufp: nat, len: nat)
    returns (data: seq<Byte>, ghost b: Plain)
    requires h.Valid() && AllValid(symbols) && Legal(h.props, 0, symbols)
    ensures Effects(Plain([], [1, 1, 1, 1]), symbols, b)
    ensures data == if ufp <= |b.out| then b.out[ufp..Min(ufp + len, |b.out|)] else []
  {
    hide Steps, Ended, Legal, Writable, Initial, OutputOf, Begins, Encode, Marked, Effects, LzmaDec.Session, Open;
    PropsValid(h);
    var stream := Marked(h.props, symbols) + tail;
    var file := Encode(h) + stream;
    OpenEncoded(h, stream);
    var p := Open(file).value.props;
    assert file[HEADER_SIZE..] == stream;
    b := OutputOf(p, symbols);
    OutputEffects(p, symbols);
    TailBegins(p, symbols, tail);
    MarkedSound(p, symbols, stream);
    var r := new LzmaReader(file, p);
    data := r.Read(ufp, len);
    DecoderOutput(r.dec, symbols, stream);
  }

  lemma TailBegins(p: Props, symbols: seq<Symbol>, tail: seq<Byte>)
    requires p.Valid() && AllValid(symbols)
    ensures Begins(p, Marked(p, symbols) + tail, symbols)
  {
    hide Marked;
  }

  lemma PropsValid(h: Header)
    requires h.Valid()
    ensures h.props.Valid()
  {
    Divides(h.props.dicSize);
  }

  lemma OutputEffects(p: Props, symbols: seq<Symbol>)
    requires p.Valid() && AllValid(symbols) && Legal(p, 0, symbols)
    ensures Effects(Plain([], [1, 1, 1, 1]), symbols, OutputOf(p, symbols))
  {
    hide Ended, Legal, Writable, Effects;
    UnreadValid(p);
    EndedIs(p, Unread(p), symbols);
  }
}
