/** Reading a gzip file at any position: the circular 32K window, its suspension in the middle of a
    match or a stored block, and seeking, against the whole inflated output. */
module Gunzip {
  import opened Words
  import opened Bits
  import opened BitInput
  import opened History
  import opened Slices
  import opened Deflate
  import opened GunzipBlocks
  import opened GunzipHeaders

  const WSIZE: nat := 0x8000

  /** Where in the window the byte `distance` before position `w` stands. */
  function SourceAt(w: nat, distance: nat): (d: nat)
    requires w <= WSIZE && 1 <= distance <= WSIZE
    ensures d <= WSIZE
  {
    if distance <= w then w - distance else w - distance + WSIZE
  }

  /** `w` bytes of the window that starts at `base` are in place; the rest is the window before. */
  ghost predicate Holds(slide: seq<Byte>, out: seq<Byte>, base: nat, w: nat) {
    && |slide| == WSIZE && w <= WSIZE && base + w <= |out|
    && (forall i :: 0 <= i < w ==> slide[i] == out[base + i])
    && (base >= WSIZE ==> forall i :: w <= i < WSIZE ==> slide[i] == out[base - WSIZE + i])
  }

  /** The output from position `at` on repeats what lies `distance` before. */
  ghost predicate Repeating(out: seq<Byte>, at: nat, distance: nat) {
    && 1 <= distance <= at <= |out| && distance <= WSIZE
    && forall q :: at <= q < |out| ==> out[q] == out[q - distance]
  }

  /** One more output byte written to the window. */
  lemma HoldsMore(slide: seq<Byte>, out: seq<Byte>, base: nat, w: nat, x: Byte)
    requires Holds(slide, out, base, w) && w < WSIZE && base + w < |out| && x == out[base + w]
    ensures Holds(slide[w := x], out, base, w + 1)
  {
  }

  /** A full window is the window before the next one. */
  lemma HoldsFull(slide: seq<Byte>, out: seq<Byte>, base: nat)
    requires Holds(slide, out, base, WSIZE)
    ensures Holds(slide, out, base + WSIZE, 0)
  {
  }

  /** The window holds the byte a match repeats. */
  lemma SourceByte(slide: seq<Byte>, out: seq<Byte>, base: nat, w: nat, distance: nat)
    requires Holds(slide, out, base, w) && w < WSIZE && base + w < |out| && base % WSIZE == 0
    requires Repeating(out, base + w, distance)
    ensures SourceAt(w, distance) < WSIZE && slide[SourceAt(w, distance)] == out[base + w]
  {
    assert out[base + w] == out[base + w - distance];
  }

  lemma RepeatingOn(out: seq<Byte>, at: nat, distance: nat, n: nat)
    requires Repeating(out, at, distance) && at + n <= |out|
    ensures Repeating(out, at + n, distance)
  {
  }

  lemma {:induction false} CopyRepeats(out: seq<Byte>, distance: nat, n: nat)
    requires 1 <= distance <= |out| && distance <= WSIZE
    ensures Repeating(Copy(out, distance, n), |out|, distance)
  {
    forall q | |out| <= q < |out| + n
      ensures Copy(out, distance, n)[q] == Copy(out, distance, n)[q - distance]
    {
      CopyPeriodic(out, distance, n, q);
    }
  }

  lemma HoldsLonger(slide: seq<Byte>, out: seq<Byte>, more: seq<Byte>, base: nat, w: nat)
    requires Holds(slide, out, base, w) && out <= more
    ensures Holds(slide, more, base, w)
  {
  }

  /** A piece of `e` bytes of a match at `w`, read from `d`, fits the window. */
  ghost predicate Piece(out: seq<Byte>, base: nat, w: nat, d: nat, e: nat, distance: nat) {
    && base % WSIZE == 0 && w < WSIZE && 1 <= distance <= WSIZE && d == SourceAt(w, distance)
    && w + e <= WSIZE && d + e <= WSIZE && base + w + e <= |out| && Repeating(out, base + w, distance)
  }

  /** Copies one piece of a match, up to the end of the window or of the source, in place. */
  method CopyPiece(slide: array<Byte>, ghost out: seq<Byte>, ghost base: nat, w: nat, d: nat, e: nat,
                   ghost distance: nat)
    requires slide.Length == WSIZE && Holds(slide[..], out, base, w) && Piece(out, base, w, d, e, distance)
    modifies slide
    ensures Holds(slide[..], out, base, w + e)
  {
    hide Holds, Repeating, SourceAt;
    if d > w || w - d >= e {
      // memmove: the source is not reached by the writes before it is read
      ghost var before := slide[..];
      PieceHolds(before, out, base, w, d, e, distance);
      forall i | 0 <= i < e {
        slide[w + i] := slide[d + i];
      }
      assert slide[..] == before[..w] + before[d..d + e] + before[w + e..];
    } else {
      CopyOverlap(slide, out, base, w, d, e, distance);
    }
  }

  method CopyOverlap(slide: array<Byte>, ghost out: seq<Byte>, ghost base: nat, w: nat, d: nat, e: nat,
                     ghost distance: nat)
    requires slide.Length == WSIZE && Holds(slide[..], out, base, w) && Piece(out, base, w, d, e, distance)
    requires d <= w && w - d < e
    modifies slide
    ensures Holds(slide[..], out, base, w + e)
  {
    hide Holds;
    var k := 0;
    while k < e
      invariant 0 <= k <= e && Holds(slide[..], out, base, w + k)
    {
      ghost var before := slide[..];
      OverlapByte(before, out, base, w, d, e, distance, k);
      HoldsMore(before, out, base, w + k, out[base + w + k]);
      slide[w + k] := slide[d + k];
      assert slide[..] == before[w + k := out[base + w + k]];
      k := k + 1;
    }
  }

  lemma OverlapByte(slide: seq<Byte>, out: seq<Byte>, base: nat, w: nat, d: nat, e: nat, distance: nat, k: nat)
    requires Piece(out, base, w, d, e, distance) && d <= w && w - d < e && k < e
    requires Holds(slide, out, base, w + k)
    ensures |slide| == WSIZE && slide[d + k] == out[base + w + k]
  {
    RepeatingOn(out, base + w, distance, k);
    SourceByte(slide, out, base, w + k, distance);
  }

  /** Moving a piece whose source does not reach into the piece itself. */
  lemma PieceHolds(slide: seq<Byte>, out: seq<Byte>, base: nat, w: nat, d: nat, e: nat, distance: nat)
    requires Holds(slide, out, base, w) && Piece(out, base, w, d, e, distance)
    requires d > w || w - d >= e
    ensures Holds(slide[..w] + slide[d..d + e] + slide[w + e..], out, base, w + e)
  {
    var next := slide[..w] + slide[d..d + e] + slide[w + e..];
    forall i | 0 <= i < w + e
      ensures next[i] == out[base + i]
    {
      if i >= w {
        assert out[base + i] == out[base + i - distance];
      }
    }
  }

  // ---- the meaning of one token, one stored byte, one header, as steps of the whole run

  lemma RunToken(s: Inf, lit: seq<nat>, dist: seq<nat>)
    requires s.block == Coded(lit, dist) && !Run(s).Unknown?
    ensures !TokenOf(lit, dist, s.rest).Unclear?
    ensures TokenOf(lit, dist, s.rest).Bad? ==> Run(s) == Broken(s.out)
    ensures TokenOf(lit, dist, s.rest).Got? ==>
      var p := TokenOf(lit, dist, s.rest);
      && Emit(s, p.value, p.rest).Go? && Run(s) == Run(Emit(s, p.value, p.rest).s) && |p.rest| < |s.rest|
      && (p.value.Match? ==> p.value.distance <= WSIZE)
  {
    hide LE, TokenOf, Run, Copy;
    RunStep(s);
    TokenShrinks(lit, dist, s.rest);
    TokenDistance(lit, dist, s.rest);
  }

  lemma RunStep(s: Inf)
    requires !Run(s).Unknown?
    ensures Over(s) ==> Run(s) == Output(s.out)
    ensures !Over(s) ==> !Step(s).Lost?
    ensures !Over(s) && Step(s).Corrupt? ==> Run(s) == Broken(s.out)
    ensures !Over(s) && Step(s).Go? ==> Run(s) == Run(Step(s).s)
    ensures s.out <= Run(s).out
  {
    hide Step, Over;
  }

  lemma TokenDistance(lit: seq<nat>, dist: seq<nat>, rest: BitString)
    ensures TokenOf(lit, dist, rest).Got? && TokenOf(lit, dist, rest).value.Match? ==>
              TokenOf(lit, dist, rest).value.distance <= WSIZE
  {
    hide Symbol, DistanceOf, LE;
    var sym := Symbol(lit, rest);
    if sym.Got? && 256 < sym.value < 286 && |sym.rest| >= CPLEXT[sym.value - 257] {
      var e := CPLEXT[sym.value - 257];
      DistanceBound(dist, CPLENS[sym.value - 257] + LE(sym.rest[..e]), sym.rest[e..]);
    }
  }

  lemma DistanceBound(dist: seq<nat>, length: nat, rest: BitString)
    ensures DistanceOf(dist, length, rest).Got? ==> DistanceOf(dist, length, rest).value.Match?
                                                    && DistanceOf(dist, length, rest).value.distance <= WSIZE
  {
    hide Symbol, LE, Pow2;
    var sym := Symbol(dist, rest);
    if sym.Got? && sym.value < 30 && |sym.rest| >= CPDEXT[sym.value] {
      var e := CPDEXT[sym.value];
      LEBelow(sym.rest[..e]);
      assert |sym.rest[..e]| == e;
      DistanceTop(sym.value);
    }
  }

  lemma DistanceTop(i: nat)
    requires i < 30
    ensures CPDIST[i] + Pow2(CPDEXT[i]) <= WSIZE + 1
  {
    hide Pow2;
    SmallPowers();
  }

  lemma RunStored(s: Inf)
    requires s.block.Stored? && !Run(s).Unknown?
    ensures |s.rest| >= 8 && LE(s.rest[..8]) < 256
    ensures Run(s) == Run(Inf(s.rest[8..], s.out + [LE(s.rest[..8])],
                              if s.block.left <= 1 then Between else Stored(s.block.left - 1), s.last))
  {
    hide LE, Run;
    RunStep(s);
  }

  lemma RunHeader(s: Inf)
    requires s.block.Between? && !s.last && !Run(s).Unknown?
    ensures |s.rest| >= 3
    ensures LE(s.rest[..1]) == s.rest[0] && s.rest[1..][..2] == s.rest[1..3] && s.rest[1..][2..] == s.rest[3..]
    ensures LE(s.rest[1..3]) < 4
    ensures var p := HeaderOf(LE(s.rest[1..3]), s.rest[3..]);
            && !p.Unclear?
            && (p.Bad? ==> Run(s) == Broken(s.out))
            && (p.Got? ==> Run(s) == Run(Inf(p.rest, s.out, p.value, s.rest[0] == 1)) && |p.rest| < |s.rest|)
  {
    hide Run, HeaderOf, Pow2;
    RunStep(s);
    StepProgress(s);
    assert s.rest[..1] == [s.rest[0]];
    assert LE([s.rest[0]]) == s.rest[0];
    LEBelow(s.rest[1..3]);
    SmallPowers();
  }

  class Gunzip {
    const input: BitReader
    const slide: array<Byte>
    var wp: nat
    var blockType: nat
    var blockLen: nat
    var lastBlock: nat
    var codeState: nat
    var inflateN: nat
    var inflateD: nat
    var trees: Trees
    var saved: nat
    var pos: nat
    var err: bool
    ghost var out: seq<Byte>
    ghost var lit: seq<nat>
    ghost var dist: seq<nat>
    ghost var distance: nat

    /** What the file as a whole inflates to. */
    ghost function Whole(): Outcome {
      Inflate(FileBits(input.file))
    }

    ghost predicate InCode()
      reads this`blockLen, this`blockType
    {
      blockLen > 0 && blockType != 0
    }

    ghost function BlockNow(): Block
      reads this`blockLen, this`blockType, this`lit, this`dist
    {
      if blockLen == 0 then Between else if blockType == 0 then Stored(blockLen) else Coded(lit, dist)
    }

    /** The state of the inflater without a window: the bits to read, and all output so far, where a
        match that is still being copied counts in full. */
    ghost function Now(): Inf
      requires input.Valid()
      reads this`blockLen, this`blockType, this`lit, this`dist, this`out, this`lastBlock, input, input.inbuf
    {
      Inf(input.Rest(), out, BlockNow(), lastBlock == 1)
    }

    /** Going on from here gives what the whole file gives. */
    ghost predicate OnCourse()
      reads this`blockLen, this`blockType, this`lit, this`dist, this`out, this`lastBlock, input, input.inbuf
    {
      input.Valid() && Run(Now()) == Whole() && !Whole().Unknown?
    }

    ghost predicate BlockOk()
      reads this`blockLen, this`blockType, this`lit, this`dist, this`trees, this`lastBlock, input`bk
    {
      && lastBlock <= 1
      && (blockLen > 0 ==> blockType <= 2)
      && (blockLen > 0 && blockType == 0 ==> input.bk == 0)
      && (InCode() ==> TreesOk(trees, lit, dist))
    }

    ghost predicate Copying()
      reads this`blockLen, this`blockType, this`codeState
    {
      InCode() && codeState == 1
    }

    ghost function Pending(): nat
      reads this`blockLen, this`blockType, this`codeState, this`inflateN
    {
      if Copying() then inflateN else 0
    }

    /** The suspended match goes on at window position `w`. */
    ghost predicate CopyOk(base: nat, w: nat)
      reads this`blockLen, this`blockType, this`codeState, this`inflateN, this`inflateD, this`distance, this`out
    {
      Copying() ==>
        && inflateN > 0 && w <= WSIZE && 1 <= distance <= WSIZE && Repeating(out, base + w, distance)
        && inflateD % WSIZE == SourceAt(w, distance)
    }

    ghost predicate Shaped()
      reads {}
    {
      slide.Length == WSIZE && input.inbuf.Length == INBUFSIZ && slide != input.inbuf
    }

    /** `w` bytes of the window that starts at output position `base` are decoded. */
    ghost predicate DecodingAt(base: nat, w: nat)
      reads this`blockLen, this`blockType, this`lit, this`dist, this`out, this`lastBlock, this`codeState, this`inflateN,
            this`inflateD, this`distance, this`trees, slide, input, input.inbuf
    {
      && Shaped() && base % WSIZE == 0 && input.Valid() && OnCourse() && BlockOk() && CopyOk(base, w)
      && (InCode() ==> codeState <= 1)
      && w <= WSIZE && base + w + Pending() == |out| && Holds(slide[..], out, base, w)
    }

    ghost predicate Decoding(w: nat)
      reads this`blockType, this`blockLen, this`lit, this`dist, this`out, this`lastBlock, this`codeState, this`inflateN,
            this`inflateD, this`distance, this`trees, this`saved, slide, input, input.inbuf
    {
      DecodingAt(saved, w)
    }

    /** All output is decoded; the last part of it before `base` is in the window. */
    ghost predicate FinishedAt(base: nat)
      reads this`blockLen, this`blockType, this`lit, this`dist, this`out, this`lastBlock, this`codeState, this`inflateN,
            this`inflateD, this`distance, this`trees, slide, input, input.inbuf
    {
      && Shaped() && base % WSIZE == 0 && input.Valid() && OnCourse() && BlockOk() && Over(Now())
      && |out| <= base && WSIZE <= base
      && forall i :: 0 <= i < WSIZE && base - WSIZE + i < |out| ==> slide[i] == out[base - WSIZE + i]
    }

    ghost predicate Finished()
      reads this`blockType, this`blockLen, this`lit, this`dist, this`out, this`lastBlock, this`codeState, this`inflateN,
            this`inflateD, this`distance, this`trees, this`saved, slide, input, input.inbuf
    {
      FinishedAt(saved)
    }

    ghost predicate Valid()
      reads this`err, this`blockType, this`blockLen, this`lit, this`dist, this`out, this`lastBlock, this`codeState,
            this`inflateN,
            this`inflateD, this`distance, this`trees, this`saved, slide, input, input.inbuf
    {
      if err then Shaped() && saved % WSIZE == 0 && Whole().Broken? else Decoding(0) || Finished()
    }

    constructor (data: seq<Byte>)
      requires !Inflate(FileBits(data)).Unknown?
      ensures Valid() && !err && pos == 0 && input.file == data
      ensures fresh(this) && fresh(slide) && fresh(input) && fresh(input.inbuf)
    {
      hide Run, FileBits, Holds, OnCourse, BlockOk, Decoding, Finished;
      input := new BitReader(data);
      slide := new Byte[WSIZE];
      wp, blockType, blockLen, lastBlock, codeState, inflateN, inflateD := 0, 0, 0, 0, 0, 0, 0;
      trees := Trees([], 0, [], 0);
      saved, pos, err := 0, 0, false;
      out, lit, dist, distance := [], [], [], 0;
      new;
      StartsDecoding();
    }

    lemma StartsDecoding()
      requires Shaped() && input.Valid() && !Whole().Unknown?
      requires saved == 0 && lastBlock == 0 && blockLen == 0 && out == [] && input.Rest() == FileBits(input.file)
      ensures Decoding(0)
    {
      hide Run, FileBits, input.Valid, input.Rest;
    }

    /** Decoding starts again at the beginning of the file. */
    method InitializeTables()
      requires Shaped() && !Whole().Unknown?
      modifies this`saved, this`lastBlock, this`blockLen, this`out, input
      ensures Decoding(0) && saved == 0
    {
      hide Run, FileBits, Holds, OnCourse, BlockOk, Decoding, Finished;
      saved := 0;
      input.Rewind();
      lastBlock := 0;
      blockLen := 0;
      out := [];
      StartsDecoding();
    }

    /** Copies the current match up to its end or the end of the window. */
    method CopyMatch(w0: nat) returns (w: nat)
      requires Decoding(w0) && Copying() && w0 < WSIZE
      modifies this`inflateN, this`inflateD, this`codeState, slide
      ensures Decoding(w) && w0 < w <= WSIZE && (w == WSIZE || codeState == 0) && codeState <= 1
      ensures Left() == old(Left())
    {
      hide OnCourse, BlockOk, Holds, Repeating, SourceAt, input.Valid, input.Rest;
      var n, d := inflateN, inflateD;
      w := w0;
      while true
        invariant w0 <= w < WSIZE && n > 0 && saved + w + n == |out|
        invariant Repeating(out, saved + w, distance) && 1 <= distance <= WSIZE && d % WSIZE == SourceAt(w, distance)
        invariant Holds(slide[..], out, saved, w)
        modifies slide
        decreases n
      {
        d := d % WSIZE;
        var e := WSIZE - (if d > w then d else w);
        if e > n {
          e := n;
        }
        n := n - e;
        CopyPiece(slide, out, saved, w, d, e, distance);
        SourceAdvances(w, d, e, distance);
        RepeatingOn(out, saved + w, distance, e);
        w := w + e;
        d := d + e;
        if w == WSIZE || n == 0 {
          break;
        }
      }
      inflateN := n;
      inflateD := d;
      if n == 0 {
        codeState := 0;
      }
    }

    /** Decodes the block's symbols up to its end or the end of the window. */
    method InflateCodes(w0: nat) returns (w: nat)
      requires Decoding(w0) && InCode() && w0 < WSIZE && !err
      modifies this`blockLen, this`codeState, this`inflateN, this`inflateD, this`err, this`out, this`distance,
               slide, input, input.inbuf
      ensures err ==> Shaped() && Whole().Broken?
      ensures !err ==> Decoding(w) && (w == WSIZE || blockLen == 0)
      ensures !err ==> Left() <= old(Left()) && (w == WSIZE || Left() < old(Left()))
    {
      hide Decoding;
      assert codeState <= 1 && Shaped() by { InCodeState(w0); }
      w := w0;
      while true
        invariant Decoding(w) && InCode() && w < WSIZE && !err && codeState <= 1
        invariant Left() <= old(Left())
        decreases Left(), codeState
      {
        if codeState == 0 {
          w := InflateToken(w);
          if err || w == WSIZE || blockLen == 0 {
            return;
          }
        }
        if codeState == 1 {
          w := CopyMatch(w);
          if w == WSIZE {
            return;
          }
        }
      }
    }

    lemma InCodeState(w: nat)
      requires Decoding(w) && InCode()
      ensures codeState <= 1 && Shaped()
    {
    }

    /** Decodes one symbol and what belongs to it. */
    method InflateToken(w0: nat) returns (w: nat)
      requires Decoding(w0) && InCode() && codeState == 0 && w0 < WSIZE && !err
      modifies this`blockLen, this`codeState, this`inflateN, this`inflateD, this`err, this`out, this`distance,
               slide, input, input.inbuf
      ensures err ==> Shaped() && Whole().Broken?
      ensures !err ==> Decoding(w) && (blockLen == 0 || InCode()) && w0 <= w <= WSIZE && codeState <= 1
      ensures !err ==> Left() < old(Left())
    {
      hide Holds, Repeating, TreesOk, Run, Emit, TokenOf, CopyOk, input.Valid, input.Rest;
      w := w0;
      ghost var before := Now();
      RunToken(before, lit, dist);
      var bad, t := NextToken(input, trees, lit, dist);
      if bad {
        err := true;
        return;
      }
      EmitIs(before, t, input.Rest());
      match t
      case Literal(x) =>
        w := PutLiteral(w, x);
      case EndOfBlock =>
        blockLen := 0;
        assert CopyOk(saved, w) by { NoCopy(saved, w); }
      case Match(n, dd) =>
        StartMatch(w, n, dd);
    }

    lemma NoCopy(base: nat, w: nat)
      requires !Copying()
      ensures CopyOk(base, w)
    {
    }

    /** slide[w++] = literal */
    method PutLiteral(w0: nat, x: Byte) returns (w: nat)
      requires slide.Length == WSIZE && w0 < WSIZE && Holds(slide[..], out, saved, w0) && saved + w0 == |out|
      requires !Copying()
      modifies this`out, slide
      ensures w == w0 + 1 && out == old(out) + [x] && Holds(slide[..], out, saved, w) && saved + w == |out|
              && CopyOk(saved, w)
    {
      hide Holds;
      HoldsLonger(slide[..], out, out + [x], saved, w0);
      HoldsMore(slide[..], out + [x], saved, w0, x);
      ghost var before := slide[..];
      slide[w0] := x;
      assert slide[..] == before[w0 := x];
      out := out + [x];
      w := w0 + 1;
    }

    /** Length and distance of a match; the copying comes next. */
    method StartMatch(w: nat, n: nat, dd: nat)
      requires Holds(slide[..], out, saved, w) && w < WSIZE && saved + w == |out| && 1 <= dd <= |out| && dd <= WSIZE
               && n > 0
      requires InCode()
      modifies this`inflateN, this`inflateD, this`codeState, this`distance, this`out
      ensures out == Copy(old(out), dd, n) && codeState == 1 && Pending() == n
      ensures Holds(slide[..], out, saved, w) && CopyOk(saved, w)
    {
      hide Holds, Repeating;
      inflateN := n;
      inflateD := Wrap(w, dd);
      codeState := 1;
      distance := dd;
      CopyRepeats(out, dd, n);
      HoldsLonger(slide[..], out, Copy(out, dd, n), saved, w);
      out := Copy(out, dd, n);
    }

    /** Passes a stored block through, up to its end or the end of the window. */
    method CopyStored(w0: nat) returns (w: nat)
      requires Decoding(w0) && blockLen > 0 && blockType == 0 && w0 < WSIZE
      modifies this`blockLen, this`out, slide, input, input.inbuf
      ensures Decoding(w) && Left() < old(Left())
    {
      hide Holds, Run, OnCourse, CopyOk, TreesOk;
      w := StoredByteOut(w0);
      while blockLen > 0 && w < WSIZE
        invariant Decoding(w) && (blockLen > 0 ==> blockType == 0) && Left() < old(Left())
        decreases blockLen
      {
        w := StoredByteOut(w);
      }
    }

    method StoredByteOut(w0: nat) returns (w: nat)
      requires Decoding(w0) && blockLen > 0 && blockType == 0 && w0 < WSIZE
      modifies this`blockLen, this`out, slide, input, input.inbuf
      ensures Decoding(w) && blockLen == old(blockLen) - 1 && Left() < old(Left())
    {
      hide Holds, Run, CopyOk, input.Valid, input.Rest, LE;
      RunStored(Now());
      var x := input.TakeByte();
      w := PutLiteral(w0, x);
      blockLen := blockLen - 1;
      assert CopyOk(saved, w) by { NoCopy(saved, w); }
    }

    /** What follows the three header bits, by the kind of block. */
    method InitBlock(kind: nat)
      requires input.Valid() && kind < 4 && !HeaderOf(kind, input.Rest()).Unclear?
      requires blockLen == 0 && blockType == kind && lastBlock <= 1 && !err
      modifies this`blockLen, this`codeState, this`trees, this`lit, this`dist, this`err, input, input.inbuf
      ensures input.Valid()
      ensures err <==> kind <= 2 && HeaderOf(kind, old(input.Rest())).Bad?
      ensures !err && kind <= 2 ==> HeaderOf(kind, old(input.Rest())) == Got(BlockNow(), input.Rest())
      ensures !err && kind <= 2 ==> BlockOk() && (InCode() ==> codeState == 0) && (kind != 0 ==> blockLen > 0)
    {
      hide TreesOk, HeaderOf, StoredHeader, DynamicHeader, FixedLit, FixedDist, LE, input.Valid, input.Rest;
      HeaderKinds(kind, input.Rest());
      if kind == 0 {
        var bad, len := InitStoredBlock(input);
        err := bad;
        blockLen := len;
      }
      if kind == 1 {
        var bad, T := InitFixedBlock();
        err := bad;
        trees, lit, dist := T, FixedLit(), FixedDist();
        codeState := 0;
        blockLen := blockLen + 1;
      }
      if kind == 2 {
        var bad, T;
        bad, T, lit, dist := InitDynamicBlock(input);
        err := bad;
        trees := T;
        codeState := 0;
        blockLen := blockLen + 1;
      }
    }

    /** Reads the header of the next block and makes its tables. */
    method GetNewBlock(ghost w: nat)
      requires Decoding(w) && w < WSIZE && blockLen == 0 && lastBlock == 0 && !err
      modifies this`lastBlock, this`blockType, this`blockLen, this`codeState, this`trees, this`lit, this`dist, this`err,
               input, input.inbuf
      ensures err || blockType > 2 ==> Shaped() && Whole().Broken?
      ensures !err && blockType <= 2 ==> Decoding(w) && Left() < old(Left()) && (blockType != 0 ==> blockLen > 0)
    {
      hide Holds, Run, CopyOk, BlockOk, HeaderOf, StoredHeader, DynamicHeader, LE, input.Valid, input.Rest;
      ghost var before := Now();
      assert lastBlock == 0 && BlockNow() == Between;
      RunHeader(before);
      var last := input.Fetch(1);
      var kind := input.Fetch(2);
      lastBlock := last;
      blockType := kind;
      ghost var p := HeaderOf(kind, input.Rest());
      HeaderKinds(kind, input.Rest());
      InitBlock(kind);
      if !err && kind <= 2 {
        assert p == Got(BlockNow(), input.Rest());
        assert Now() == Inf(p.rest, before.out, p.value, before.rest[0] == 1);
        NoCopy(saved, w);
      }
    }

    /** Decodes the next window. */
    method InflateWindow()
      requires Valid()
      modifies this`wp, this`blockType, this`blockLen, this`lastBlock, this`codeState, this`inflateN, this`inflateD,
               this`trees, this`saved, this`err, this`out, this`lit, this`dist, this`distance,
               slide, input, input.inbuf
      ensures Valid() && (old(err) ==> err)
      ensures !err || old(err) ==> saved == old(saved) + WSIZE
      ensures err && !old(err) ==> saved == old(saved)
    {
      hide Holds, OnCourse, TreesOk, CopyOk, Run, input.Valid, input.Rest;
      ghost var base := saved;
      wp := 0;
      var w: nat := 0;
      while w < WSIZE && !err
        invariant saved == base && base % WSIZE == 0
        invariant if err then old(err) && Shaped() && Whole().Broken?
                  else Decoding(w) || (w == 0 && Finished())
        decreases !err, if err then 0 else Left(), WSIZE - w
      {
        if blockLen == 0 {
          if lastBlock != 0 {
            break;
          }
          GetNewBlock(w);
        }
        if blockType > 2 {
          err := true;
        }
        if err {
          return;
        }
        if blockType == 0 {
          if blockLen > 0 {
            w := CopyStored(w);
          }
        } else {
          w := InflateCodes(w);
        }
        if err {
          return;
        }
      }
      wp := w;
      saved := saved + WSIZE;
      if !err {
        WindowDone(base, w);
      }
    }

    /** The number of bits still to be read. */
    ghost function Left(): nat
      reads input, input.inbuf
    {
      if input.Valid() then |input.Rest()| else 0
    }

    /** A full window, or the end of the output, ends a window. */
    lemma WindowDone(base: nat, w: nat)
      requires saved == base + WSIZE && base % WSIZE == 0
      requires DecodingAt(base, w) || (w == 0 && FinishedAt(base))
      requires w == WSIZE || (blockLen == 0 && lastBlock == 1)
      ensures Decoding(0) || Finished()
    {
      if w == WSIZE {
        WindowFull(base);
      } else {
        OutputEnds(base, w);
      }
    }

    lemma WindowFull(base: nat)
      requires DecodingAt(base, WSIZE)
      ensures DecodingAt(base + WSIZE, 0)
    {
      hide Holds, Repeating, Run, OnCourse, BlockOk, Now, input.Valid;
      HoldsFull(slide[..], out, base);
    }

    lemma OutputEnds(base: nat, w: nat)
      requires base % WSIZE == 0 && blockLen == 0 && lastBlock == 1 && w < WSIZE
      requires DecodingAt(base, w) || (w == 0 && FinishedAt(base))
      ensures FinishedAt(base + WSIZE)
    {
      hide Run, OnCourse, BlockOk, input.Valid, input.Rest;
    }

    /** What is in the window for a position inside it. */
    lemma Serves(at: nat, n: nat)
      requires !err && Valid() && saved <= at + WSIZE && at + n <= saved
      requires Whole().Output? ==> at + n <= |Whole().out|
      ensures at % WSIZE + n <= WSIZE && !Whole().Unknown? && at + n <= |Whole().out|
      ensures n > 0 ==> slide[at % WSIZE..at % WSIZE + n] == Whole().out[at..at + n]
    {
      hide BlockOk, CopyOk, Holds, Run;
      RunStep(Now());
      if n > 0 {
        WindowIndex(at, saved);
        if Decoding(0) {
          HoldsSlice(slide[..], out, saved, at, n);
          assert slide[at % WSIZE..at % WSIZE + n] == slide[..][at % WSIZE..at % WSIZE + n];
        }
        assert out[at..at + n] == Whole().out[at..at + n];
      }
    }

    /** Reads `len` bytes of the uncompressed file from the current position. */
    method Read(len: nat) returns (ret: nat, data: seq<Byte>)
      requires Valid()
      requires Whole().Output? ==> pos + len <= |Whole().out|
      modifies this, slide, input, input.inbuf
      ensures Valid() && (err ==> Whole().Broken?)
      ensures err ==> ret == 0
      ensures !err ==>
                && ret == len && pos == old(pos) + len && !Whole().Unknown?
                && Delivered(Whole().out, old(pos), pos, data)
    {
      hide Valid, Run;
      data := [];
      ret := 0;
      ValidShaped();
      if saved > pos + WSIZE {
        InitializeTables();
        Restarted();
      }
      ghost var p0 := pos;
      var left := len;
      while left > 0 && !err
        invariant Valid() && saved <= pos + WSIZE && 0 <= left <= len && pos + left == p0 + len
        invariant !Whole().Unknown?
        invariant !err ==> ret == len - left && Delivered(Whole().out, p0, pos, data)
        decreases left
      {
        ghost var at := pos;
        var piece := ReadPiece(left);
        if !err {
          Glue(Whole().out, p0, at, |piece|);
        }
        data := data + piece;
        left := left - |piece|;
        ret := ret + |piece|;
      }
      ValidShaped();
      if err {
        ret := 0;
      }
    }

    /** What of `left` bytes the window of the current position can give. */
    method ReadPiece(left: nat) returns (piece: seq<Byte>)
      requires Valid() && saved <= pos + WSIZE && left > 0 && !err
      requires Whole().Output? ==> pos + left <= |Whole().out|
      modifies this, slide, input, input.inbuf
      ensures Valid() && saved <= pos + WSIZE && 0 < |piece| <= left && pos == old(pos) + |piece|
      ensures !err ==> !Whole().Unknown? && pos <= |Whole().out| && piece == Whole().out[old(pos)..pos]
    {
      hide Valid, Run;
      while pos >= saved
        invariant Valid() && saved <= pos + WSIZE && pos == old(pos)
        decreases !err, pos - saved + WSIZE
      {
        InflateWindow();
      }
      ValidShaped();
      WindowIndex(pos, saved);
      var src, size := pos % WSIZE, saved - pos;
      if size > left {
        size := left;
      }
      if !err {
        Serves(pos, size);
      }
      piece := slide[src..src + size];
      pos := pos + size;
    }

    lemma ValidShaped()
      requires Valid()
      ensures Shaped() && !Whole().Unknown? && saved % WSIZE == 0 && (err ==> Whole().Broken?)
    {
      hide BlockOk, CopyOk, Holds, Run;
    }

    lemma Restarted()
      requires Decoding(0) && saved == 0 && (err ==> Whole().Broken?)
      ensures Valid()
    {
    }
  }

  lemma SourceAdvances(w: nat, d: nat, e: nat, distance: nat)
    requires w < WSIZE && 1 <= distance <= WSIZE && d == SourceAt(w, distance)
    requires w + e <= WSIZE && d + e <= WSIZE
    ensures (d + e) % WSIZE == SourceAt(w + e, distance)
  {
  }

  /** w - distance in 32 bits */
  function Wrap(w: nat, distance: nat): (d: nat)
    requires w <= WSIZE && 1 <= distance <= WSIZE
    ensures d % WSIZE == SourceAt(w, distance) % WSIZE
  {
    (w - distance) % WORD
  }

  lemma EmitIs(s: Inf, t: Token, rest: BitString)
    requires Emit(s, t, rest).Go?
    ensures t.Literal? ==> t.x < 256 && Emit(s, t, rest) == Go(s.(rest := rest, out := s.out + [t.x]))
    ensures t.EndOfBlock? ==> Emit(s, t, rest) == Go(s.(rest := rest, block := Between))
    ensures t.Match? ==> 1 <= t.distance <= |s.out| && t.length > 0
                         && Emit(s, t, rest) == Go(s.(rest := rest, out := Copy(s.out, t.distance, t.length)))
  {
  }

  lemma HeaderKinds(kind: nat, rest: BitString)
    ensures HeaderOf(kind, rest) == if kind == 0 then StoredHeader(rest)
                                    else if kind == 1 then Got(Coded(FixedLit(), FixedDist()), rest)
                                    else if kind == 2 then DynamicHeader(rest)
                                    else Bad
  {
  }

  /** `data` is what lies from position `p` up to `q`. */
  ghost predicate Delivered(out: seq<Byte>, p: nat, q: nat, data: seq<Byte>) {
    p <= q && if p == q then data == [] else q <= |out| && data == out[p..q]
  }

  lemma WindowIndex(at: nat, saved: nat)
    requires saved % WSIZE == 0 && saved <= at + WSIZE && at < saved
    ensures at % WSIZE == at - (saved - WSIZE)
  {
  }

  lemma HoldsSlice(slide: seq<Byte>, out: seq<Byte>, base: nat, at: nat, n: nat)
    requires Holds(slide, out, base, 0) && base % WSIZE == 0 && base <= at + WSIZE && at < at + n <= base
    ensures at % WSIZE + n <= WSIZE && slide[at % WSIZE..at % WSIZE + n] == out[at..at + n]
  {
    WindowIndex(at, base);
  }
}
