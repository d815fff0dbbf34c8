/** Writing LZ4 frames: what the reader of Lz4.dfy makes of the bytes that the format puts down. */
module Lz4Format {
  import opened Words
  import opened History
  import opened Lz4

  /** Literals, and a match of `extra` bytes more than four behind them. */
  datatype Piece = Piece(lits: seq<Byte>, distance: nat, extra: nat) {
    predicate Valid(h: seq<Byte>) {
      1 <= distance < 0x1_0000 && distance <= |h| + |lits|
    }
  }

  /** The history after a piece: literals are appended, and the match copies what lies its distance back. */
  function Grown(x: Piece, h: seq<Byte>): (g: seq<Byte>)
    requires x.Valid(h)
    ensures h <= g
  {
    Copy(h + x.lits, x.distance, x.extra + 4)
  }

  /** What is left of a length behind its first 15: a byte 255 for every 255, and the rest. */
  function LengthCode(m: nat): (s: seq<Byte>)
    ensures s != []
  {
    if m < 255 then [m] else [255] + LengthCode(m - 255)
  }

  function LengthTail(n: nat): seq<Byte> {
    if n < 15 then [] else LengthCode(n - 15)
  }

  function PieceBytes(x: Piece): seq<Byte> {
    [16 * Min(|x.lits|, 15) + Min(x.extra, 15)] + LengthTail(|x.lits|) + x.lits
    + [x.distance % 0x100, x.distance / 0x100 % 0x100] + LengthTail(x.extra)
  }

  /** The literals that end a block. */
  function LastBytes(lits: seq<Byte>): seq<Byte> {
    [16 * Min(|lits|, 15)] + LengthTail(|lits|) + lits
  }

  lemma {:induction false} LengthUndone(m: nat, n: nat, more: seq<Byte>)
    ensures LengthBytes(LengthCode(m) + more, n) == (n + m, more)
    decreases m
  {
    var p := LengthCode(m) + more;
    if m < 255 {
      assert p[1..] == more;
    } else {
      assert p[1..] == LengthCode(m - 255) + more;
      LengthUndone(m - 255, n + 255, more);
    }
  }

  lemma TokenParts(a: nat, b: nat)
    requires a <= 15 && b <= 15
    ensures 16 * a + b < 256 && (16 * a + b) / 16 == a && (16 * a + b) % 16 == b
  {
  }

  lemma LiteralsUndone(n: nat, low: nat, q: seq<Byte>)
    requires low <= 15
    ensures 16 * Min(n, 15) + low < 256
    ensures Literals([16 * Min(n, 15) + low] + LengthTail(n) + q) == (n, q)
  {
    hide LengthBytes, LengthCode;
    TokenParts(Min(n, 15), low);
    var p: seq<Byte> := [16 * Min(n, 15) + low] + LengthTail(n) + q;
    assert p[1..] == LengthTail(n) + q;
    if n >= 15 {
      LengthUndone(n - 15, 15, q);
    } else {
      assert p[1..] == q;
    }
  }

  lemma MatchUndone(token: Byte, x: Piece, more: seq<Byte>, h: seq<Byte>)
    requires x.Valid(h) && token % 16 == Min(x.extra, 15)
    ensures MatchPart(token, [x.distance % 0x100, x.distance / 0x100 % 0x100] + LengthTail(x.extra) + more, h + x.lits)
         == More(more, Copy(h + x.lits, x.distance, x.extra + 4))
  {
    hide LengthBytes, LengthCode, Copy;
    var p: seq<Byte> := [x.distance % 0x100, x.distance / 0x100 % 0x100] + LengthTail(x.extra) + more;
    assert p[2..] == LengthTail(x.extra) + more;
    if x.extra >= 15 {
      LengthUndone(x.extra - 15, 15, more);
    } else {
      assert p[2..] == more;
    }
  }

  /** Literals and a match written down are decoded again, whatever follows them. */
  lemma PieceUndone(x: Piece, more: seq<Byte>, h: seq<Byte>)
    requires x.Valid(h)
    ensures OneSequence(PieceBytes(x) + more, h) == More(more, Copy(h + x.lits, x.distance, x.extra + 4))
  {
    hide LengthTail, MatchPart, OneSequence, Literals, Copy;
    var n, low := |x.lits|, Min(x.extra, 15);
    TokenParts(Min(n, 15), low);
    var token: Byte := 16 * Min(n, 15) + low;
    var rest: seq<Byte> := [x.distance % 0x100, x.distance / 0x100 % 0x100] + LengthTail(x.extra) + more;
    var q := x.lits + rest;
    var p := PieceBytes(x) + more;
    assert p == [token] + LengthTail(n) + q;
    LiteralsUndone(n, low, q);
    SequenceStep(p, h);
    assert q[n..] == rest && q[..n] == x.lits;
    MatchUndone(token, x, more, h);
  }

  lemma LastUndone(lits: seq<Byte>, h: seq<Byte>)
    ensures OneSequence(LastBytes(lits), h) == End(h + lits)
  {
    hide LengthTail, OneSequence, Literals;
    LiteralsUndone(|lits|, 0, lits);
    SequenceStep(LastBytes(lits), h);
  }

  // ---- blocks

  /** Every match copies from what there is. */
  ghost predicate Sensible(pieces: seq<Piece>, h: seq<Byte>)
    decreases |pieces|
  {
    pieces != [] ==> pieces[0].Valid(h) && Sensible(pieces[1..], Grown(pieces[0], h))
  }

  ghost function Expand(pieces: seq<Piece>, h: seq<Byte>): (g: seq<Byte>)
    requires Sensible(pieces, h)
    ensures h <= g
    decreases |pieces|
  {
    if pieces == [] then h else Expand(pieces[1..], Grown(pieces[0], h))
  }

  function BlockBytes(pieces: seq<Piece>, last: seq<Byte>): (s: seq<Byte>)
    ensures s != []
  {
    if pieces == [] then LastBytes(last) else PieceBytes(pieces[0]) + BlockBytes(pieces[1..], last)
  }

  /** A block written down is decoded again. */
  lemma {:induction false} BlockUndone(pieces: seq<Piece>, last: seq<Byte>, h: seq<Byte>, limit: nat)
    requires Sensible(pieces, h) && |Expand(pieces, h) + last| <= limit
    ensures Block(BlockBytes(pieces, last), h, limit) == Done(Expand(pieces, h) + last)
    decreases |pieces|
  {
    hide OneSequence, PieceBytes, LastBytes, Grown;
    if pieces == [] {
      LastUndone(last, h);
    } else {
      PieceGrown(pieces[0], BlockBytes(pieces[1..], last), h);
      BlockUndone(pieces[1..], last, Grown(pieces[0], h), limit);
    }
  }

  lemma PieceGrown(x: Piece, more: seq<Byte>, h: seq<Byte>)
    requires x.Valid(h)
    ensures OneSequence(PieceBytes(x) + more, h) == More(more, Grown(x, h))
  {
    hide OneSequence, PieceBytes;
    PieceUndone(x, more, h);
  }

  function PiecesBytes(pieces: seq<Piece>): seq<Byte> {
    if pieces == [] then [] else PieceBytes(pieces[0]) + PiecesBytes(pieces[1..])
  }

  /** The block ends where a sequence should begin, or within the literals that one announces. */
  ghost predicate CutShort(tail: seq<Byte>) {
    || tail == []
    || exists n: nat, low: nat, lits: seq<Byte> :: Announced(tail, n, low, lits) && |lits| < n
  }

  /** A token, its length bytes for `n` literals, and the bytes behind them. */
  ghost predicate Announced(tail: seq<Byte>, n: nat, low: nat, lits: seq<Byte>) {
    low <= 15 && tail == [16 * Min(n, 15) + low] + LengthTail(n) + lits
  }

  /** A block that is cut short behind any number of good sequences is refused. */
  lemma {:induction false} CutRefused(pieces: seq<Piece>, tail: seq<Byte>, h: seq<Byte>, limit: nat)
    requires Sensible(pieces, h) && |Expand(pieces, h)| <= limit && CutShort(tail)
    ensures Block(PiecesBytes(pieces) + tail, h, limit) == Failed
    decreases |pieces|
  {
    hide OneSequence, PieceBytes, Grown, CutShort;
    if pieces == [] {
      assert PiecesBytes(pieces) + tail == tail;
      CutBad(tail, h);
    } else {
      var more := PiecesBytes(pieces[1..]) + tail;
      assert PiecesBytes(pieces) + tail == PieceBytes(pieces[0]) + more;
      PieceGrown(pieces[0], more, h);
      CutRefused(pieces[1..], tail, Grown(pieces[0], h), limit);
    }
  }

  lemma CutBad(tail: seq<Byte>, h: seq<Byte>)
    requires CutShort(tail)
    ensures OneSequence(tail, h) == Bad
  {
    hide LengthTail, OneSequence, Literals;
    if tail == [] {
      NoSequence(h);
    } else {
      var n: nat, low: nat, lits: seq<Byte> :| Announced(tail, n, low, lits) && |lits| < n;
      LiteralsUndone(n, low, lits);
      ShortBad(tail, n, lits, h);
    }
  }

  lemma ShortBad(p: seq<Byte>, n: nat, lits: seq<Byte>, h: seq<Byte>)
    requires p != [] && Literals(p) == (n, lits) && |lits| < n
    ensures OneSequence(p, h) == Bad
  {
    hide LengthBytes, MatchPart;
  }

  lemma NoSequence(h: seq<Byte>)
    ensures OneSequence([], h) == Bad
  {
  }

  // ---- frames

  datatype Chunk = Raw(data: seq<Byte>) | Packed(pieces: seq<Piece>, last: seq<Byte>)

  ghost predicate Fits(c: Chunk, h: seq<Byte>, f: Frame) {
    match c
    case Raw(data) => |data| <= f.blockMax && |data| + f.Check() + 4 <= INP_SIZE
    case Packed(pieces, last) =>
      && Sensible(pieces, h) && |Expand(pieces, h) + last| <= |h| + f.blockMax
      && |BlockBytes(pieces, last)| + f.Check() + 4 <= INP_SIZE
  }

  /** The output after a chunk. */
  ghost function After(c: Chunk, h: seq<Byte>, f: Frame): (g: seq<Byte>)
    requires Fits(c, h, f)
    ensures h <= g
  {
    match c
    case Raw(data) => h + data
    case Packed(pieces, last) => Expand(pieces, h) + last
  }

  /** Four bytes, the lowest first. */
  function Four(n: nat): (s: seq<Byte>)
    requires n < WORD
    ensures |s| == 4
  {
    [n % 0x100, n / 0x100 % 0x100, n / 0x1_0000 % 0x100, n / 0x100_0000]
  }

  lemma FourUndone(n: nat, s: seq<Byte>, i: nat)
    requires n < WORD && i + 4 <= |s| && s[i..i + 4] == Four(n)
    ensures Word32(s, i) == n
  {
    var t := Four(n);
    assert s[i] == t[0] && s[i + 1] == t[1] && s[i + 2] == t[2] && s[i + 3] == t[3];
    FourDigits(n);
  }

  lemma FourDigits(n: nat)
    ensures n == n % 0x100 + 0x100 * (n / 0x100 % 0x100) + 0x1_0000 * (n / 0x1_0000 % 0x100)
                 + 0x100_0000 * (n / 0x100_0000)
  {
    var a := n / 0x100;
    var b := a / 0x100;
    assert n / 0x1_0000 == b && n / 0x100_0000 == b / 0x100;
  }

  /** The data of a chunk, and its size word, which has the highest bit set for raw data. */
  function Data(c: Chunk): seq<Byte> {
    match c
    case Raw(data) => data
    case Packed(pieces, last) => BlockBytes(pieces, last)
  }

  function SizeWord(c: Chunk): nat {
    |Data(c)| + if c.Raw? then 0x8000_0000 else 0
  }

  /** From `pos` on, behind its size word, the file holds the chunks and an end mark of zero, with a check
      sum of any value behind each chunk if the frame says so; `g` is the output. */
  ghost predicate Written(f: Frame, chunks: seq<Chunk>, h: seq<Byte>, pos: nat, g: seq<Byte>)
    decreases |chunks|
  {
    && 4 <= pos <= |f.file|
    && if chunks == [] then f.file[pos - 4..pos] == Four(0) && g == h
       else
         var c := chunks[0];
         var next := pos + |Data(c)| + f.Check() + 4;
         && Fits(c, h, f) && next <= |f.file|
         && SizeWord(c) < WORD && f.file[pos - 4..pos] == Four(SizeWord(c))
         && f.file[pos..pos + |Data(c)|] == Data(c)
         && Written(f, chunks[1..], After(c, h, f), next, g)
  }

  lemma StepUndone(f: Frame, c: Chunk, h: seq<Byte>, pos: nat)
    requires Fits(c, h, f) && pos + |Data(c)| + f.Check() + 4 <= |f.file|
    requires f.file[pos..pos + |Data(c)|] == Data(c)
    ensures var after := pos + |Data(c)| + f.Check();
            && SizeWord(c) > 0
            && Step(f, State(pos, SizeWord(c), h)) == Go(State(after + 4, Word32(f.file, after), After(c, h, f)))
  {
    hide Word32, BlockBytes, Expand, Sensible, Block;
    match c
    case Raw(data) =>
    case Packed(pieces, last) =>
      BlockUndone(pieces, last, h, |h| + f.blockMax);
  }

  /** A frame written down is decoded again: its output is that of the chunks, one after the other. */
  lemma {:induction false} RunUndone(f: Frame, chunks: seq<Chunk>, h: seq<Byte>, pos: nat, g: seq<Byte>)
    requires Written(f, chunks, h, pos, g)
    ensures 4 <= pos <= |f.file| && h <= g
    ensures Run(f, State(pos, Word32(f.file, pos - 4), h)) == Output(g)
    decreases |chunks|
  {
    hide Word32, Fits, After, Four, Data, SizeWord, Step;
    if chunks == [] {
      FourUndone(0, f.file, pos - 4);
    } else {
      var c := chunks[0];
      FourUndone(SizeWord(c), f.file, pos - 4);
      RunUndone(f, chunks[1..], After(c, h, f), pos + |Data(c)| + f.Check() + 4, g);
      StepUndone(f, c, h, pos);
    }
  }

  /** A whole frame is read as what was written. */
  lemma FrameUndone(f: Frame, chunks: seq<Chunk>, g: seq<Byte>)
    requires f.Valid() && Written(f, chunks, Zeros(), f.start, g)
    ensures Run(f, First(f)) == Output(g)
  {
    hide Written, Run;
    RunUndone(f, chunks, Zeros(), f.start, g);
  }

  /** Reading a frame that was written gives the bytes of its output at the place asked for, all of them that
      there are. */
  method ReadFrame(f: Frame, chunks: seq<Chunk>, ghost out: seq<Byte>, ufilepos: nat, len: nat)
    returns (data: seq<Byte>, err: bool)
    requires f.Valid() && Written(f, chunks, Zeros(), f.start, Zeros() + out)
    ensures !err
    ensures data == if ufilepos <= |out| then out[ufilepos..Min(ufilepos + len, |out|)] else []
  {
    hide Written, Run, First, Zeros;
    FrameUndone(f, chunks, Zeros() + out);
    var r := new Lz4Reader(f);
    data, err := r.Read(ufilepos, len);
    ZerosLong(out, ufilepos, |data|);
  }

  lemma ZerosLong(out: seq<Byte>, at: nat, n: nat)
    ensures |Zeros() + out| == 0x1_0000 + |out| && DIC_START == 0x1_0000
    ensures at + n <= |out| ==> (Zeros() + out)[0x1_0000 + at..0x1_0000 + at + n] == out[at..at + n]
  {
  }
}
