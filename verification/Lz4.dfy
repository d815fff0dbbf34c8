/** Reading an LZ4 frame at any position through a sliding dictionary. */
module Lz4 {
  import opened Words
  import opened History
  import opened Slices

  const DIC_START: nat := 0x1_0000
  const DIC_SIZE: nat := 0x80_0000
  const INP_SIZE: nat := 0x80_0000
  const RAW_FLAG: nat := 0x8000_0000

  // ---- the meaning of a block: section by section, against an unbounded history

  /** One literal run and match: more to come, the end of the block, an error the decoder reports,
      or data for which nothing is promised. */
  datatype Sequence = More(rest: seq<Byte>, h: seq<Byte>) | End(h: seq<Byte>) | Bad | Unclear

  /** Length bytes: they are added up to the first that is not 255, or to the end of the data. */
  function LengthBytes(p: seq<Byte>, n: nat): (r: (nat, seq<Byte>))
    requires p != []
    ensures |r.1| < |p|
  {
    if p[0] == 255 && |p| > 1 then LengthBytes(p[1..], n + p[0]) else (n + p[0], p[1..])
  }

  function Word16(s: seq<Byte>, i: nat): nat
    requires i + 2 <= |s|
  {
    var b0: nat, b1: nat := s[i], s[i + 1];
    b0 + 0x100 * b1
  }

  /** Length of the match and what follows it. */
  function Matched(token: Byte, q: seq<Byte>): (r: (nat, seq<Byte>))
    requires token % 16 == 15 ==> q != []
    ensures |r.1| <= |q|
  {
    if token % 16 == 15 then LengthBytes(q, 15) else (token % 16, q)
  }

  /** The match half: offset, length bytes, copy. */
  function MatchPart(token: Byte, p: seq<Byte>, h: seq<Byte>): (s: Sequence)
    ensures s.More? ==> |s.rest| < |p|
  {
    if |p| < 2 then Unclear
    else
      var offset := Word16(p, 0);
      var q := p[2..];
      if token % 16 == 15 && q == [] then Unclear
      else if offset == 0 || offset > |h| then Unclear
      else
        var m := Matched(token, q);
        More(m.1, Copy(h, offset, m.0 + 4))
  }

  function OneSequence(p: seq<Byte>, h: seq<Byte>): (s: Sequence)
    ensures s.More? ==> |s.rest| < |p|
  {
    if p == [] then Bad
    else
      var (n, q) := if p[0] / 16 == 15 && |p| > 1 then LengthBytes(p[1..], 15) else (p[0] / 16, p[1..]);
      if |q| < n then Bad
      else if |q| == n then End(h + q)
      else MatchPart(p[0], q[n..], h + q[..n])
  }

  datatype Decoded = Done(h: seq<Byte>) | Failed | Unspecified

  /** A compressed block whose output keeps the history within `limit` bytes. */
  function Block(p: seq<Byte>, h: seq<Byte>, limit: nat): Decoded
    decreases |p|
  {
    match OneSequence(p, h)
    case Bad => Failed
    case Unclear => Unspecified
    case End(g) => if |g| <= limit then Done(g) else Unspecified
    case More(r, g) => if |g| <= limit then Block(r, g, limit) else Unspecified
  }

  // ---- the meaning of a frame

  /** `start` is where the first block lies, behind the word with its size; `checksum` says whether
      every block is followed by one. */
  datatype Frame = Frame(file: seq<Byte>, start: nat, blockMax: nat, checksum: bool) {
    predicate Valid() {
      4 <= start <= |file| && blockMax <= DIC_SIZE / 2
    }

    function Check(): nat {
      if checksum then 4 else 0
    }
  }

  function Word32(s: seq<Byte>, i: nat): nat
    requires i + 4 <= |s|
  {
    var b0: nat, b1: nat, b2: nat, b3: nat := s[i], s[i + 1], s[i + 2], s[i + 3];
    b0 + 0x100 * b1 + 0x1_0000 * b2 + 0x100_0000 * b3
  }

  /** Between two blocks: where the next one lies, its size word, and all output so far, which begins
      with 64K of zeros that matches may refer to. */
  datatype State = State(pos: nat, size: nat, h: seq<Byte>)

  datatype Turn = Go(s: State) | Stop | Lost

  datatype Outcome = Output(h: seq<Byte>) | Broken(h: seq<Byte>) | Unknown

  function Step(f: Frame, s: State): Turn {
    var n := s.size % RAW_FLAG;
    var after := s.pos + n + f.Check();
    if after + 4 > |f.file| || n + f.Check() + 4 > INP_SIZE then Lost
    else
      var data := f.file[s.pos..s.pos + n];
      var next := Word32(f.file, after);
      if s.size >= RAW_FLAG then
        if n > f.blockMax then Lost else Go(State(after + 4, next, s.h + data))
      else
        match Block(data, s.h, |s.h| + f.blockMax)
        case Failed => Stop
        case Unspecified => Lost
        case Done(g) => Go(State(after + 4, next, g))
  }

  function Run(f: Frame, s: State): (o: Outcome)
    decreases |f.file| - s.pos
  {
    if s.size == 0 then Output(s.h)
    else
      match Step(f, s)
      case Stop => Broken(s.h)
      case Lost => Unknown
      case Go(t) => if s.h <= t.h then Run(f, t) else Unknown
  }

  function Zeros(): (s: seq<Byte>)
    ensures |s| == DIC_START
  {
    seq(DIC_START, i => 0)
  }

  function First(f: Frame): State
    requires f.Valid()
  {
    State(f.start, Word32(f.file, f.start - 4), Zeros())
  }

  lemma {:induction false} RunGrows(f: Frame, s: State)
    ensures !Run(f, s).Unknown? ==> s.h <= Run(f, s).h
    decreases |f.file| - s.pos
  {
    hide Step;
    if s.size != 0 && Step(f, s).Go? && s.h <= Step(f, s).s.h {
      StepMoves(f, s);
      RunGrows(f, Step(f, s).s);
    }
  }

  lemma StepMoves(f: Frame, s: State)
    ensures Step(f, s).Go? ==> s.pos < Step(f, s).s.pos <= |f.file|
  {
    hide Block, Word32;
  }

  /** A block only adds to the output. */
  lemma {:induction false} BlockGrows(p: seq<Byte>, h: seq<Byte>, limit: nat)
    ensures Block(p, h, limit).Done? ==> h <= Block(p, h, limit).h && |Block(p, h, limit).h| <= limit
    decreases |p|
  {
    SequenceGrows(p, h);
    hide OneSequence;
    if OneSequence(p, h).More? {
      BlockGrows(OneSequence(p, h).rest, OneSequence(p, h).h, limit);
    }
  }

  lemma SequenceGrows(p: seq<Byte>, h: seq<Byte>)
    ensures OneSequence(p, h).More? || OneSequence(p, h).End? ==> h <= OneSequence(p, h).h
  {
    hide LengthBytes, Copy;
  }

  // ---- one step at a time

  lemma BlockStep(p: seq<Byte>, h: seq<Byte>, limit: nat)
    requires !Block(p, h, limit).Unspecified?
    ensures !OneSequence(p, h).Unclear?
    ensures OneSequence(p, h).Bad? ==> Block(p, h, limit) == Failed
    ensures OneSequence(p, h).End? ==> |OneSequence(p, h).h| <= limit && Block(p, h, limit) == Done(OneSequence(p, h).h)
    ensures OneSequence(p, h).More? ==>
              |OneSequence(p, h).h| <= limit
              && Block(p, h, limit) == Block(OneSequence(p, h).rest, OneSequence(p, h).h, limit)
  {
    hide OneSequence;
  }

  /** Length and place of the literals. */
  function Literals(p: seq<Byte>): (nat, seq<Byte>)
    requires p != []
  {
    if p[0] / 16 == 15 && |p| > 1 then LengthBytes(p[1..], 15) else (p[0] / 16, p[1..])
  }

  lemma SequenceStep(p: seq<Byte>, h: seq<Byte>)
    ensures p == [] ==> OneSequence(p, h) == Bad
    ensures p != [] ==>
              var (n, q) := Literals(p);
              && (|q| < n ==> OneSequence(p, h) == Bad)
              && (|q| == n ==> OneSequence(p, h) == End(h + q))
              && (|q| > n ==> OneSequence(p, h) == MatchPart(p[0], q[n..], h + q[..n]))
  {
    hide LengthBytes, MatchPart;
  }

  lemma MatchStep(token: Byte, p: seq<Byte>, h: seq<Byte>)
    requires !MatchPart(token, p, h).Unclear?
    ensures |p| >= 2 && 1 <= Word16(p, 0) <= |h| && Word16(p, 0) < DIC_START
    ensures token % 16 == 15 ==> p[2..] != []
    ensures var (n, r) := Matched(token, p[2..]); MatchPart(token, p, h) == More(r, Copy(h, Word16(p, 0), n + 4))
  {
    hide MatchPart, Matched, Copy, Word16;
    MatchKnown(token, p, h);
    WordBound(p);
    MatchIs(token, p, h);
  }

  lemma MatchKnown(token: Byte, p: seq<Byte>, h: seq<Byte>)
    requires !MatchPart(token, p, h).Unclear?
    ensures |p| >= 2 && 1 <= Word16(p, 0) <= |h| && (token % 16 == 15 ==> |p| > 2)
  {
    hide Matched, LengthBytes, Copy, Word16;
  }

  lemma MatchIs(token: Byte, p: seq<Byte>, h: seq<Byte>)
    requires |p| >= 2 && 1 <= Word16(p, 0) <= |h| && (token % 16 == 15 ==> |p| > 2)
    ensures var m := Matched(token, p[2..]); MatchPart(token, p, h) == More(m.1, Copy(h, Word16(p, 0), m.0 + 4))
  {
    hide Matched, LengthBytes, Copy, Word16;
  }

  lemma WordBound(p: seq<Byte>)
    requires |p| >= 2
    ensures Word16(p, 0) < DIC_START
  {
  }

  // ---- the dictionary

  /** The first `q` bytes of the dictionary are the history from position `base` to its end. */
  ghost predicate Holds(dic: seq<Byte>, h: seq<Byte>, base: nat, q: nat) {
    && |dic| == DIC_SIZE && DIC_START <= q <= DIC_SIZE && base + q == |h|
    && dic[..q] == h[base..]
  }

  lemma HoldsMore(dic: seq<Byte>, h: seq<Byte>, base: nat, q: nat, x: Byte)
    requires Holds(dic, h, base, q) && q < DIC_SIZE
    ensures Holds(dic[q := x], h + [x], base, q + 1)
  {
  }

  lemma HoldsAt(dic: seq<Byte>, h: seq<Byte>, base: nat, q: nat, d: nat)
    requires Holds(dic, h, base, q) && 1 <= d <= q
    ensures d <= |h| && dic[q - d] == h[|h| - d]
  {
    assert dic[..q][q - d] == h[base..][q - d];
  }

  lemma CopyStep(h: seq<Byte>, d: nat, n: nat)
    requires 1 <= d <= |h| && n > 0
    ensures Copy(h, d, n) == Copy(h + [h[|h| - d]], d, n - 1)
    ensures Copy(h, d, 0) == h
  {
  }

  /** The literal bytes, one by one. */
  method CopyLiterals(dic: array<Byte>, q0: nat, data: seq<Byte>, ghost h0: seq<Byte>, ghost base: nat) returns (q: nat)
    requires dic.Length == DIC_SIZE && Holds(dic[..], h0, base, q0) && q0 + |data| <= DIC_SIZE
    modifies dic
    ensures q == q0 + |data| && Holds(dic[..], h0 + data, base, q)
  {
    hide Holds;
    q := q0;
    var i := 0;
    assert h0 + data[..0] == h0;
    while i < |data|
      invariant 0 <= i <= |data| && q == q0 + i && Holds(dic[..], h0 + data[..i], base, q)
    {
      HoldsMore(dic[..], h0 + data[..i], base, q, data[i]);
      ghost var before := dic[..];
      dic[q] := data[i];
      assert dic[..] == before[q := data[i]];
      assert h0 + data[..i] + [data[i]] == h0 + data[..i + 1];
      q := q + 1;
      i := i + 1;
    }
    assert data[..i] == data;
  }

  /** The match, byte by byte, so that it may overlap what it extends. */
  method CopyMatch(dic: array<Byte>, q0: nat, offset: nat, n: nat, ghost h0: seq<Byte>, ghost base: nat)
    returns (q: nat)
    requires dic.Length == DIC_SIZE && Holds(dic[..], h0, base, q0) && q0 + n <= DIC_SIZE
    requires 1 <= offset <= q0 && offset <= |h0|
    modifies dic
    ensures q == q0 + n && Holds(dic[..], Copy(h0, offset, n), base, q)
  {
    hide Holds, Copy;
    q := q0;
    var counter := n;
    ghost var h := h0;
    while counter > 0
      invariant 0 <= counter <= n && q == q0 + (n - counter) && offset <= |h| && Holds(dic[..], h, base, q)
      invariant Copy(h, offset, counter) == Copy(h0, offset, n)
      decreases counter
    {
      HoldsAt(dic[..], h, base, q, offset);
      HoldsMore(dic[..], h, base, q, dic[q - offset]);
      CopyStep(h, offset, counter);
      ghost var before := dic[..];
      dic[q] := dic[q - offset];
      assert dic[..] == before[q := before[q - offset]];
      h := h + [h[|h| - offset]];
      q := q + 1;
      counter := counter - 1;
    }
    CopyStep(h, offset, 1);
  }

  /** The length bytes behind a token. */
  method ReadLength(p: seq<Byte>, i0: nat, n0: nat) returns (n: nat, i: nat)
    requires i0 < |p|
    ensures i0 < i <= |p| && LengthBytes(p[i0..], n0) == (n, p[i..])
  {
    n, i := n0, i0;
    var c: Byte := 255;
    while true
      invariant i0 <= i < |p| && LengthBytes(p[i0..], n0) == LengthBytes(p[i..], n)
      decreases |p| - i
    {
      c := p[i];
      assert p[i..][1..] == p[i + 1..];
      n := n + c;
      i := i + 1;
      if i == |p| || c != 255 {
        break;
      }
    }
  }

  datatype Progress = Continue | Finish | Fail

  /** One literal run and match. */
  method DecodeSequence(dic: array<Byte>, p: seq<Byte>, i0: nat, q0: nat, ghost h0: seq<Byte>, ghost base: nat)
    returns (r: Progress, i: nat, q: nat, ghost h: seq<Byte>)
    requires dic.Length == DIC_SIZE && Holds(dic[..], h0, base, q0) && i0 <= |p|
    requires var s := OneSequence(p[i0..], h0); !s.Unclear? && (s.More? || s.End? ==> |s.h| <= base + DIC_SIZE)
    modifies dic
    ensures i <= |p|
    ensures r.Fail? <==> OneSequence(p[i0..], h0).Bad?
    ensures r.Finish? ==> OneSequence(p[i0..], h0) == End(h)
    ensures r.Continue? ==> OneSequence(p[i0..], h0) == More(p[i..], h)
    ensures !r.Fail? ==> Holds(dic[..], h, base, q)
  {
    hide Holds, Copy, LengthBytes, OneSequence, MatchPart, Word16;
    q, h, i := q0, h0, i0;
    ghost var rest := p[i..];
    SequenceStep(rest, h);
    if i == |p| {
      return Fail, i, q, h;
    }
    var token := p[i];
    assert rest[1..] == p[i + 1..];
    i := i + 1;
    var litlen: nat := token / 16;
    if litlen == 15 && i < |p| {
      litlen, i := ReadLength(p, i, litlen);
    }
    assert Literals(rest) == (litlen, p[i..]);
    HoldsRoom(dic[..], h, base, q);
    if |p| - i < litlen || DIC_SIZE - q < litlen {
      assert |p| - i < litlen by {
        if |p| - i >= litlen {
          LiteralsFit(rest, h, base + DIC_SIZE);
        }
      }
      return Fail, i, q, h;
    }
    assert p[i..][..litlen] == p[i..i + litlen] && p[i..][litlen..] == p[i + litlen..];
    q := CopyLiterals(dic, q, p[i..i + litlen], h, base);
    h := h + p[i..i + litlen];
    i := i + litlen;
    if i == |p| {
      return Finish, i, q, h;
    }
    assert OneSequence(rest, h0) == MatchPart(token, p[i..], h);
    MatchStep(token, p[i..], h);
    i, q, h := DecodeMatch(dic, token, p, i, q, h, base);
    r := Continue;
  }

  /** The match half of a sequence. */
  method DecodeMatch(dic: array<Byte>, token: Byte, p: seq<Byte>, i0: nat, q0: nat, ghost h0: seq<Byte>,
                     ghost base: nat)
    returns (i: nat, q: nat, ghost h: seq<Byte>)
    requires dic.Length == DIC_SIZE && Holds(dic[..], h0, base, q0) && i0 <= |p|
    requires var s := MatchPart(token, p[i0..], h0); !s.Unclear? && |s.h| <= base + DIC_SIZE
    modifies dic
    ensures i <= |p| && Holds(dic[..], h, base, q) && MatchPart(token, p[i0..], h0) == More(p[i..], h)
  {
    hide Holds, Copy, LengthBytes, OneSequence, MatchPart, Word16;
    MatchStep(token, p[i0..], h0);
    assert p[i0..][2..] == p[i0 + 2..];
    WordAt(p, i0);
    var offset := Word16(p, i0);
    i := i0 + 2;
    var matlen: nat := token % 16;
    if matlen == 15 {
      matlen, i := ReadLength(p, i, matlen);
    }
    matlen := matlen + 4;
    HoldsRoom(dic[..], h0, base, q0);
    assert |Copy(h0, offset, matlen)| == |h0| + matlen;
    if DIC_SIZE - q0 < matlen {
      // the decoder's other data error, out of reach while blocks keep their announced size
      assert false;
    }
    q := CopyMatch(dic, q0, offset, matlen, h0, base);
    h := Copy(h0, offset, matlen);
  }

  /** Decompresses a block behind the history; false if its data end too early. */
  method DecodeBlock(dic: array<Byte>, p: seq<Byte>, dicPos: nat, ghost h0: seq<Byte>, ghost base: nat,
                     ghost limit: nat)
    returns (ok: bool, q: nat, ghost h: seq<Byte>)
    requires dic.Length == DIC_SIZE && Holds(dic[..], h0, base, dicPos)
    requires limit <= base + DIC_SIZE && !Block(p, h0, limit).Unspecified?
    modifies dic
    ensures ok <==> Block(p, h0, limit).Done?
    ensures ok ==> h == Block(p, h0, limit).h && Holds(dic[..], h, base, q)
  {
    hide Holds, Block, OneSequence;
    q, h := dicPos, h0;
    var i: nat := 0;
    var r := Continue;
    assert p[0..] == p;
    while r.Continue?
      invariant i <= |p|
      invariant !r.Fail? ==> Holds(dic[..], h, base, q)
      invariant r.Continue? ==> Block(p[i..], h, limit) == Block(p, h0, limit)
      invariant r.Finish? ==> Block(p, h0, limit) == Done(h)
      invariant r.Fail? ==> Block(p, h0, limit) == Failed
      decreases if r.Continue? then |p| - i + 1 else 0
    {
      BlockStep(p[i..], h, limit);
      r, i, q, h := DecodeSequence(dic, p, i, q, h, base);
    }
    ok := r.Finish?;
  }

  lemma HoldsRoom(dic: seq<Byte>, h: seq<Byte>, base: nat, q: nat)
    requires Holds(dic, h, base, q)
    ensures DIC_START <= q <= DIC_SIZE && base + q == |h|
  {
  }

  /** Literals that are there fit the limit of the sequence. */
  lemma LiteralsFit(p: seq<Byte>, h: seq<Byte>, limit: nat)
    requires p != [] && |Literals(p).1| >= Literals(p).0
    requires var s := OneSequence(p, h); !s.Unclear? && (s.More? || s.End? ==> |s.h| <= limit)
    ensures |h| + Literals(p).0 <= limit
  {
    hide LengthBytes, Copy, OneSequence, MatchPart;
    SequenceStep(p, h);
    var (n, q) := Literals(p);
    if |q| > n {
      MatchStep(p[0], q[n..], h + q[..n]);
    }
  }

  lemma WordAt(p: seq<Byte>, i: nat)
    requires i + 2 <= |p|
    ensures Word16(p[i..], 0) == Word16(p, i)
  {
  }

  // ---- the reader

  /** The frame header: the magic number, version 1, no reserved bits, and a content size. */
  function Open(file: seq<Byte>): (f: Option<Frame>)
    ensures f.Some? ==> f.value.Valid() && f.value.blockMax in {0x1_0000, 0x4_0000, 0x10_0000, 0x40_0000}
  {
    if |file| < 19 || Word32(file, 0) != 0x184D_2204 then None
    else
      var flg: nat, bd: nat := file[4], file[5];
      if flg / 0x40 != 1 || flg % 4 != 0 || bd / 0x80 != 0 || bd % 0x10 != 0 || flg / 8 % 2 == 0 || bd / 0x10 < 4 then
        None
      else
        BlockSizes(bd / 0x10);
        Some(Frame(file, 19, 0x100 * Pow2(2 * (bd / 0x10)), flg / 0x10 % 2 == 1))
  }

  /** Exactly these headers are accepted: the magic bytes, one of eight flag bytes, one of four block size
      bytes; and what they say. */
  lemma OpenExact(file: seq<Byte>)
    ensures Open(file).Some? <==>
              && |file| >= 19 && file[..4] == [0x04, 0x22, 0x4D, 0x18]
              && file[4] in {0x48, 0x4C, 0x58, 0x5C, 0x68, 0x6C, 0x78, 0x7C} && file[5] in {0x40, 0x50, 0x60, 0x70}
    ensures Open(file).Some? ==>
              var f := Open(file).value;
              && f.file == file && f.start == 19 && (f.checksum <==> file[4] in {0x58, 0x5C, 0x78, 0x7C})
              && f.blockMax == if file[5] == 0x40 then 0x1_0000 else if file[5] == 0x50 then 0x4_0000
                               else if file[5] == 0x60 then 0x10_0000 else 0x40_0000
  {
    hide Word32, Pow2;
    if |file| >= 19 {
      MagicBytes(file);
      FlagBytes(file[4], file[5]);
      EachSize();
    }
  }

  lemma MagicBytes(file: seq<Byte>)
    requires |file| >= 4
    ensures Word32(file, 0) == 0x184D_2204 <==> file[..4] == [0x04, 0x22, 0x4D, 0x18]
  {
    var b0: nat, b1: nat, b2: nat, b3: nat := file[0], file[1], file[2], file[3];
    if Word32(file, 0) == 0x184D_2204 {
      assert b3 == 0x18 && b2 == 0x4D && b1 == 0x22 && b0 == 0x04;
    }
  }

  lemma FlagBytes(flg: nat, bd: nat)
    requires flg < 256 && bd < 256
    ensures flg / 0x40 == 1 && flg % 4 == 0 && flg / 8 % 2 == 1 <==>
          flg in {0x48, 0x4C, 0x58, 0x5C, 0x68, 0x6C, 0x78, 0x7C}
    ensures bd / 0x80 == 0 && bd % 0x10 == 0 && bd / 0x10 >= 4 <==> bd in {0x40, 0x50, 0x60, 0x70}
    ensures flg in {0x48, 0x4C, 0x58, 0x5C, 0x68, 0x6C, 0x78, 0x7C} ==>
              (flg / 0x10 % 2 == 1 <==> flg in {0x58, 0x5C, 0x78, 0x7C})
  {
  }

  lemma EachSize()
    ensures Pow2(8) == 0x100 && Pow2(10) == 0x400 && Pow2(12) == 0x1000 && Pow2(14) == 0x4000
  {
    assert Pow2(8) == 0x100;
    assert Pow2(10) == 4 * Pow2(8) && Pow2(12) == 4 * Pow2(10) && Pow2(14) == 4 * Pow2(12);
  }

  lemma BlockSizes(k: nat)
    requires 4 <= k <= 7
    ensures 0x100 * Pow2(2 * k) in {0x1_0000, 0x4_0000, 0x10_0000, 0x40_0000}
  {
    hide Pow2;
    EachSize();
  }

  /** The bytes found at position `p` of the output, none if it is not that long. */
  ghost predicate Found(o: seq<Byte>, p: nat, data: seq<Byte>) {
    data == [] || (p + |data| <= |o| && data == o[p..p + |data|])
  }

  lemma FoundMore(o: seq<Byte>, p: nat, data: seq<Byte>, more: seq<Byte>)
    requires Found(o, p, data) && p + |data| + |more| <= |o| && more == o[p + |data|..p + |data| + |more|]
    ensures Found(o, p, data + more)
  {
    Glue(o, p, p + |data|, |more|);
  }

  /** At the start of a frame. */
  lemma StartHolds(dic: seq<Byte>)
    requires |dic| == DIC_SIZE && forall j :: 0 <= j < DIC_START ==> dic[j] == 0
    ensures Holds(dic, Zeros(), 0, DIC_START)
  {
    var z := Zeros();
    assert dic[..DIC_START] == z[0..];
  }

  /** The last 64K moved to the front are still the history. */
  lemma SlideHolds(dic: seq<Byte>, moved: seq<Byte>, h: seq<Byte>, base: nat, q: nat)
    requires Holds(dic, h, base, q) && |moved| == DIC_SIZE
    requires forall j :: 0 <= j < DIC_START ==> moved[j] == dic[q - DIC_START + j]
    ensures Holds(moved, h, base + (q - DIC_START), DIC_START)
  {
    forall j | 0 <= j < DIC_START
      ensures moved[..DIC_START][j] == h[base + (q - DIC_START)..][j]
    {
      assert dic[..q][q - DIC_START + j] == h[base..][q - DIC_START + j];
    }
  }

  lemma HoldsSlice(dic: seq<Byte>, h: seq<Byte>, base: nat, q: nat, a: nat, n: nat)
    requires Holds(dic, h, base, q) && a + n <= q
    ensures base + a + n <= |h| && dic[a..a + n] == h[base + a..base + a + n]
  {
    assert dic[a..a + n] == dic[..q][a..a + n] == h[base..][a..a + n];
  }

  lemma PrefixSlice(h: seq<Byte>, o: seq<Byte>, a: nat, n: nat)
    requires h <= o && a + n <= |h|
    ensures h[a..a + n] == o[a..a + n]
  {
  }

  lemma Grown(f: Frame, s: State)
    requires s.size != 0 && !Run(f, s).Unknown?
    ensures Step(f, s).Go? || Step(f, s).Stop?
    ensures Step(f, s).Stop? ==> Run(f, s) == Broken(s.h)
    ensures Step(f, s).Go? ==> Run(f, Step(f, s).s) == Run(f, s) && s.pos < Step(f, s).s.pos <= |f.file|
  {
    hide Step;
    StepMoves(f, s);
  }

  /** What one step reads and does. */
  lemma StepParts(f: Frame, s: State)
    requires !Step(f, s).Lost?
    ensures s.pos + s.size % RAW_FLAG + f.Check() + 4 <= |f.file|
    ensures s.size >= RAW_FLAG ==> s.size % RAW_FLAG <= f.blockMax
    ensures var n := s.size % RAW_FLAG;
            var data := f.file[s.pos..s.pos + n];
            var after := s.pos + n + f.Check();
            if s.size >= RAW_FLAG then Step(f, s) == Go(State(after + 4, Word32(f.file, after), s.h + data))
            else
              && !Block(data, s.h, |s.h| + f.blockMax).Unspecified?
              && (Block(data, s.h, |s.h| + f.blockMax).Failed? ==> Step(f, s) == Stop)
              && (Block(data, s.h, |s.h| + f.blockMax).Done? ==>
                    Step(f, s) == Go(State(after + 4, Word32(f.file, after), Block(data, s.h, |s.h| + f.blockMax).h)))
  {
    hide Block, Word32;
  }

  class Lz4Reader {
    const frame: Frame
    const dic: array<Byte>
    var dicPos: nat
    var dicFilePos: nat
    var nextBlockSize: nat
    var cfilepos: nat
    /** Everything decompressed so far, behind the 64K of zeros. */
    ghost var h: seq<Byte>

    ghost function Whole(): Outcome {
      if frame.Valid() then Run(frame, First(frame)) else Unknown
    }

    /** The dictionary holds the end of the output, and decoding can go on from here. */
    ghost predicate Valid()
      reads this, dic
    {
      && frame.Valid() && dic.Length == DIC_SIZE && !Whole().Unknown?
      && Holds(dic[..], h, dicFilePos, dicPos)
      && Run(frame, State(cfilepos, nextBlockSize, h)) == Whole()
    }

    constructor (f: Frame)
      requires f.Valid() && !Run(f, First(f)).Unknown?
      ensures frame == f && Valid() && fresh(dic)
    {
      hide Run, Holds, Zeros, Word32;
      frame := f;
      dic := new Byte[DIC_SIZE](_ => 0);
      dicPos, dicFilePos := DIC_START, 0;
      nextBlockSize, cfilepos := Word32(f.file, f.start - 4), f.start;
      h := Zeros();
      new;
      StartHolds(dic[..]);
    }

    /** Back to the first block. */
    method Reset()
      requires Valid()
      modifies this, dic
      ensures Valid() && dicFilePos == 0
    {
      hide Run, Holds, Zeros;
      nextBlockSize, cfilepos := Word32(frame.file, frame.start - 4), frame.start;
      dicPos, dicFilePos := DIC_START, 0;
      forall j | 0 <= j < DIC_START {
        dic[j] := 0;
      }
      h := Zeros();
      StartHolds(dic[..]);
    }

    /** Makes room for a block; the last 64K stay. */
    method Slide(outSkip0: nat) returns (outSkip: nat)
      requires Valid() && outSkip0 >= dicPos
      modifies this`dicPos, this`dicFilePos, dic
      ensures Valid()
      ensures dicPos + frame.blockMax <= DIC_SIZE && dicFilePos + outSkip == old(dicFilePos) + outSkip0
    {
      hide Run, First, Holds;
      HoldsRoom(dic[..], h, dicFilePos, dicPos);
      outSkip := outSkip0;
      if dicPos + frame.blockMax > DIC_SIZE {
        var src := dicPos - DIC_START;
        ghost var was := dic[..];
        forall j | 0 <= j < DIC_START {
          dic[j] := dic[src + j];
        }
        SlideHolds(was, dic[..], h, dicFilePos, dicPos);
        dicPos, dicFilePos, outSkip := DIC_START, dicFilePos + src, outSkip - src;
      }
    }

    /** Reads and decompresses the next block; false if its data end too early. */
    method NextBlock(outSkip0: nat) returns (ok: bool, outSkip: nat)
      requires Valid() && nextBlockSize != 0 && outSkip0 >= dicPos
      modifies this, dic
      ensures ok ==> Valid() && old(cfilepos) < cfilepos <= |frame.file|
      ensures ok ==> dicFilePos + outSkip == old(dicFilePos) + outSkip0
      ensures !ok ==> Whole() == Broken(old(h))
    {
      hide Run, First, Holds, Block, Step, Word32;
      ghost var s := State(cfilepos, nextBlockSize, h);
      Grown(frame, s);
      StepParts(frame, s);
      var n := nextBlockSize % RAW_FLAG;
      var raw := nextBlockSize >= RAW_FLAG;
      outSkip := Slide(outSkip0);
      HoldsRoom(dic[..], h, dicFilePos, dicPos);
      var inp := frame.file[cfilepos..cfilepos + n];
      var after := cfilepos + n + frame.Check();
      cfilepos, nextBlockSize := after + 4, Word32(frame.file, after);
      if raw {
        dicPos := CopyLiterals(dic, dicPos, inp, h, dicFilePos);
        h := h + inp;
        ok := true;
      } else {
        ghost var g;
        var q;
        ok, q, g := DecodeBlock(dic, inp, dicPos, h, dicFilePos, |h| + frame.blockMax);
        dicPos, h := q, g;
      }
    }

    /** The slice of the output at `ufilepos`, from wherever the last call stopped. */
    method Read(ufilepos: nat, len: nat) returns (data: seq<Byte>, err: bool)
      requires Valid()
      modifies this, dic
      ensures |data| <= len && Found(Whole().h, DIC_START + ufilepos, data)
      ensures |data| < len ==> |Whole().h| <= DIC_START + ufilepos + |data|
      ensures err <==> Whole().Broken? && |data| < len
      ensures !err ==> Valid()
    {
      hide First, Holds, Run, Found;
      if ufilepos + DIC_START < dicFilePos {
        Reset();
      }
      ghost var p := DIC_START + ufilepos;
      var outSkip: nat := ufilepos + DIC_START - dicFilePos;
      data, err := [], false;
      NothingFound(Whole().h, p);
      while |data| < len && !err
        invariant |data| <= len && Found(Whole().h, p, data)
        invariant !err ==> Valid() && dicFilePos + outSkip == p + |data|
        invariant err ==> Whole().Broken? && |data| < len && |Whole().h| <= p + |data|
        decreases if err then 0 else |frame.file| + 1 - Min(cfilepos, |frame.file|)
      {
        RunGrows(frame, State(cfilepos, nextBlockSize, h));
        HoldsRoom(dic[..], h, dicFilePos, dicPos);
        if outSkip < dicPos {
          var cur: nat := Min(dicPos - outSkip, len - |data|);
          HoldsSlice(dic[..], h, dicFilePos, dicPos, outSkip, cur);
          PrefixSlice(h, Whole().h, p + |data|, cur);
          FoundMore(Whole().h, p, data, dic[..][outSkip..outSkip + cur]);
          data := data + dic[outSkip..outSkip + cur];
          outSkip := outSkip + cur;
          if |data| == len {
            break;
          }
        }
        if nextBlockSize == 0 {
          RunEnds(frame, State(cfilepos, nextBlockSize, h));
          break;
        }
        var ok;
        ok, outSkip := NextBlock(outSkip);
        err := !ok;
      }
    }
  }

  lemma NothingFound(o: seq<Byte>, p: nat)
    ensures Found(o, p, [])
  {
  }

  lemma RunEnds(f: Frame, s: State)
    requires s.size == 0
    ensures Run(f, s) == Output(s.h)
  {
  }
}
