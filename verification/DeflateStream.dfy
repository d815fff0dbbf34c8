/** Writing whole deflate streams: block headers (RFC 1951, sections 3.2.3, 3.2.4 and 3.2.7) and blocks. */
module DeflateStream {
  import opened Words
  import opened Bits
  import opened BitInput
  import opened Huffman
  import opened HuftCounts
  import opened Deflate
  import opened DeflateFormat
  import opened GunzipHeaders

  // ---- stored blocks

  lemma {:induction false} BytesUndone(data: seq<Byte>, out: seq<Byte>, last: bool, rest: BitString)
    requires data != []
    ensures Run(Inf(FileBits(data) + rest, out, Stored(|data|), last)) == Run(Inf(rest, out + data, Between, last))
    decreases |data|
  {
    hide Run, LE, LEBits;
    var x, more := data[0], FileBits(data[1..]) + rest;
    var s := Inf(FileBits(data) + rest, out, Stored(|data|), last);
    assert s.rest == LEBits(x, 8) + more;
    OneByte(s, x, more);
    if |data| > 1 {
      BytesUndone(data[1..], out + [x], last, rest);
      assert out + [x] + data[1..] == out + data;
    } else {
      assert data[1..] == [] && more == rest && out + [x] == out + data;
    }
  }

  lemma OneByte(s: Inf, x: Byte, more: BitString)
    requires s.block.Stored? && s.rest == LEBits(x, 8) + more
    ensures Run(s)
         == Run(Inf(more, s.out + [x], if s.block.left <= 1 then Between else Stored(s.block.left - 1), s.last))
  {
    hide Run, LE, LEBits;
    SmallPowers();
    FieldUndone(x, 8, more);
    StepProgress(s);
    StepRuns(s);
  }

  /** Length and complement of a stored block, from the next byte boundary. */
  lemma StoredUndone(pad: BitString, len: nat, rest: BitString)
    requires |pad| < 8 && len < 0x1_0000 && |rest| % 8 == 0
    ensures StoredHeader(pad + LEBits(len, 16) + LEBits(0xffff - len, 16) + rest)
         == Got(if len == 0 then Between else Stored(len), rest)
  {
    hide LE, LEBits, Field;
    var r := LEBits(0xffff - len, 16) + rest;
    var s := pad + LEBits(len, 16) + LEBits(0xffff - len, 16) + rest;
    assert |s| % 8 == |pad|;
    assert s[|pad|..] == LEBits(len, 16) + r;
    Sixteen();
    FieldUndone(len, 16, r);
    FieldUndone(0xffff - len, 16, rest);
  }

  lemma Sixteen()
    ensures Pow2(16) == 0x1_0000
  {
    assert Pow2(8) == 256 && Pow2(16) == 256 * Pow2(8) by {
      SmallPowers();
      assert Pow2(10) == 4 * Pow2(8) && Pow2(12) == 4 * Pow2(10);
      assert Pow2(14) == 4 * Pow2(12) && Pow2(16) == 4 * Pow2(14);
    }
  }

  /** A stored block is refused exactly if the second field is not the complement of the first, bit by bit. */
  lemma ComplementIs(a: BitString, b: BitString)
    requires |a| == |b|
    ensures LE(a) + LE(b) == Pow2(|a|) - 1 <==> forall i :: 0 <= i < |a| ==> b[i] == 1 - a[i]
  {
    if a != [] {
      ComplementIs(a[1..], b[1..]);
      var s, t := LE(a[1..]), LE(b[1..]);
      LECons(a);
      LECons(b);
      if LE(a) + LE(b) == Pow2(|a|) - 1 {
        assert a[0] + b[0] == 1;
        forall i | 0 <= i < |a|
          ensures b[i] == 1 - a[i]
        {
          if i > 0 {
            assert b[1..][i - 1] == 1 - a[1..][i - 1];
          }
        }
      }
    }
  }

  lemma StoredRefused(pad: BitString, a: BitString, b: BitString, rest: BitString)
    requires |pad| < 8 && |a| == 16 == |b| && |rest| % 8 == 0
    ensures StoredHeader(pad + a + b + rest).Bad? <==> !(forall i :: 0 <= i < 16 ==> b[i] == 1 - a[i])
  {
    hide LE;
    var s := pad + a + b + rest;
    assert |s| % 8 == |pad|;
    var t := s[|pad|..];
    assert t == a + (b + rest) && t[..16] == a && t[16..] == b + rest && (b + rest)[..16] == b;
    ComplementIs(a, b);
    Sixteen();
  }

  // ---- dynamic headers

  /** How a list of code lengths is written: a length, the last one again, or zeros. */
  datatype Op = Plain(len: nat) | Again(n: nat) | Zeros(n: nat) | ManyZeros(n: nat)
  {
    predicate Valid() {
      match this
      case Plain(len) => len < 16
      case Again(n) => 3 <= n <= 6
      case Zeros(n) => 3 <= n <= 10
      case ManyZeros(n) => 11 <= n <= 138
    }

    /** The code length symbol, and its extra bits. */
    function Sym(): nat {
      match this
      case Plain(len) => len
      case Again(_) => 16
      case Zeros(_) => 17
      case ManyZeros(_) => 18
    }

    function ExtraBits(): BitString
      requires Valid()
    {
      match this
      case Plain(_) => []
      case Again(n) => LEBits(n - 3, 2)
      case Zeros(n) => LEBits(n - 3, 3)
      case ManyZeros(n) => LEBits(n - 11, 7)
    }

    /** The lengths it adds to those before. */
    function Adds(acc: seq<nat>): (s: seq<nat>)
      requires Valid()
      ensures s != []
    {
      match this
      case Plain(len) => [len]
      case Again(n) => Repeat(n, if acc == [] then 0 else acc[|acc| - 1])
      case Zeros(n) => Repeat(n, 0)
      case ManyZeros(n) => Repeat(n, 0)
    }
  }

  ghost predicate OpsOk(cl: seq<nat>, ops: seq<Op>) {
    forall i :: 0 <= i < |ops| ==> ops[i].Valid() && ops[i].Sym() < |cl| && cl[ops[i].Sym()] > 0
  }

  function OpsBits(cl: seq<nat>, ops: seq<Op>): BitString
    requires LengthsOk(cl) && OpsOk(cl, ops)
  {
    if ops == [] then [] else Code(cl, ops[0].Sym()) + ops[0].ExtraBits() + OpsBits(cl, ops[1..])
  }

  function Lengths(ops: seq<Op>, acc: seq<nat>): (s: seq<nat>)
    requires forall i :: 0 <= i < |ops| ==> ops[i].Valid()
    ensures |s| >= |acc|
  {
    if ops == [] then acc else Lengths(ops[1..], acc + ops[0].Adds(acc))
  }

  lemma RunUndone(op: Op, acc: seq<nat>, rest: BitString)
    requires op.Valid()
    ensures RunOf(op.Sym(), acc, op.ExtraBits() + rest) == Got(op.Adds(acc), rest)
  {
    hide LE, LEBits;
    SmallPowers();
    match op
    case Plain(len) => assert [] + rest == rest;
    case Again(n) => FieldUndone(n - 3, 2, rest);
    case Zeros(n) => FieldUndone(n - 3, 3, rest);
    case ManyZeros(n) => FieldUndone(n - 11, 7, rest);
  }

  /** A list of code lengths written down is read again. */
  lemma {:induction false} LengthsUndone(cl: seq<nat>, ops: seq<Op>, n: nat, acc: seq<nat>, rest: BitString)
    requires Usable(cl) && OpsOk(cl, ops) && |Lengths(ops, acc)| == n && |rest| >= BMAX
    ensures |acc| <= n && ReadLengths(cl, n, acc, OpsBits(cl, ops) + rest) == Got(Lengths(ops, acc), rest)
    decreases |ops|
  {
    hide Kraft, LengthsOk, Code, ReadLengths, Op.Adds, Op.ExtraBits, Op.Sym;
    if ops == [] {
      assert [] + rest == rest;
      AllLengths(cl, acc, rest);
    } else {
      var op := ops[0];
      var more := OpsBits(cl, ops[1..]) + rest;
      assert OpsBits(cl, ops) + rest == Code(cl, op.Sym()) + (op.ExtraBits() + more);
      LengthsUndone(cl, ops[1..], n, acc + op.Adds(acc), rest);
      MoreLengths(cl, op, n, acc, more);
    }
  }

  lemma AllLengths(cl: seq<nat>, acc: seq<nat>, rest: BitString)
    ensures ReadLengths(cl, |acc|, acc, rest) == Got(acc, rest)
  {
  }

  lemma MoreLengths(cl: seq<nat>, op: Op, n: nat, acc: seq<nat>, more: BitString)
    requires Usable(cl) && op.Valid() && op.Sym() < |cl| && cl[op.Sym()] > 0 && |more| >= BMAX
    requires |acc + op.Adds(acc)| <= n
    ensures |acc| <= n && ReadLengths(cl, n, acc, Code(cl, op.Sym()) + (op.ExtraBits() + more))
                       == ReadLengths(cl, n, acc + op.Adds(acc), more)
  {
    hide Kraft, LengthsOk, Code, Symbol, RunOf, Op.Adds, Op.ExtraBits, Op.Sym;
    SymbolUndone(cl, op.Sym(), op.ExtraBits() + more);
    RunUndone(op, acc, more);
  }

  /** The lengths of the code length code in their special order. */
  function ClBits(cl: seq<nat>, j: nat, n: nat): BitString
    requires |cl| == 19 && n <= 19
    decreases n - j
  {
    if j >= n then [] else LEBits(cl[BITORDER[j]], 3) + ClBits(cl, j + 1, n)
  }

  lemma {:induction false} ClUndone(cl: seq<nat>, j: nat, n: nat, acc: seq<nat>, rest: BitString)
    requires |cl| == 19 == |acc| && j <= n <= 19 && forall i :: 0 <= i < 19 ==> cl[i] <= 7
    requires forall i :: 0 <= i < 19 ==> acc[BITORDER[i]] == if i < j then cl[BITORDER[i]] else 0
    requires forall i :: n <= i < 19 ==> cl[BITORDER[i]] == 0
    ensures CodeLengths(ClBits(cl, j, n) + rest, j, n, acc) == Got(cl, rest)
    decreases n - j
  {
    hide LE, LEBits, BITORDER, PLACE;
    OrderIsPermutation();
    if j == n {
      forall i | 0 <= i < 19
        ensures acc[i] == cl[i]
      {
        assert acc[BITORDER[PLACE[i]]] == if PLACE[i] < j then cl[BITORDER[PLACE[i]]] else 0;
      }
      assert acc == cl && [] + rest == rest;
    } else {
      var v := cl[BITORDER[j]];
      var more := ClBits(cl, j + 1, n) + rest;
      assert ClBits(cl, j, n) + rest == LEBits(v, 3) + more;
      SmallPowers();
      FieldUndone(v, 3, more);
      forall i | 0 <= i < 19
        ensures acc[BITORDER[j] := v][BITORDER[i]] == if i < j + 1 then cl[BITORDER[i]] else 0
      {
        if BITORDER[i] == BITORDER[j] {
          assert PLACE[BITORDER[i]] == i && PLACE[BITORDER[j]] == j;
        }
      }
      ClUndone(cl, j + 1, n, acc[BITORDER[j] := v], rest);
    }
  }

  /** Two sets of code lengths, written with a code length code of which `n` lengths are sent. */
  datatype Heading = Heading(lit: seq<nat>, dist: seq<nat>, cl: seq<nat>, n: nat, ops: seq<Op>)
  {
    /** Written as the format allows; whether the two sets are complete is another matter. */
    ghost predicate Valid() {
      && 257 <= |lit| <= 286 && 1 <= |dist| <= 30 && |cl| == 19 && 4 <= n <= 19
      && (forall i :: 0 <= i < 19 ==> cl[i] <= 7) && (forall i :: n <= i < 19 ==> cl[BITORDER[i]] == 0)
      && Usable(cl) && Accepts(cl) && OpsOk(cl, ops) && Lengths(ops, []) == lit + dist
    }

    function Bits(): BitString
      requires |lit| >= 257 && |dist| >= 1 && |cl| == 19 && 4 <= n <= 19 && LengthsOk(cl) && OpsOk(cl, ops)
    {
      LEBits(|lit| - 257, 5) + LEBits(|dist| - 1, 5) + LEBits(n - 4, 4) + ClBits(cl, 0, n) + OpsBits(cl, ops)
    }
  }

  /** A dynamic header written down is read again if both sets of lengths are accepted, and refused
      otherwise. */
  lemma HeadingUndone(h: Heading, rest: BitString)
    requires h.Valid() && |rest| >= BMAX
    ensures DynamicHeader(h.Bits() + rest)
         == if Accepts(h.lit) && Accepts(h.dist) then Got(Coded(h.lit, h.dist), rest) else Bad
  {
    hide LE, LEBits, Kraft, LengthsOk, ClBits, OpsBits, OpsOk, Accepts, BITORDER, CodeLengths, DynamicLengths, Lengths,
         Field;
    var r4 := OpsBits(h.cl, h.ops) + rest;
    var r3 := ClBits(h.cl, 0, h.n) + r4;
    var r2 := LEBits(h.n - 4, 4) + r3;
    var r1 := LEBits(|h.dist| - 1, 5) + r2;
    assert h.Bits() + rest == LEBits(|h.lit| - 257, 5) + r1;
    SmallPowers();
    FieldUndone(|h.lit| - 257, 5, r1);
    FieldUndone(|h.dist| - 1, 5, r2);
    FieldUndone(h.n - 4, 4, r3);
    OrderIsPermutation();
    ClUndone(h.cl, 0, h.n, Repeat(19, 0), r4);
    LengthListUndone(h, rest);
  }

  lemma LengthListUndone(h: Heading, rest: BitString)
    requires h.Valid() && |rest| >= BMAX
    ensures DynamicLengths(|h.lit|, |h.dist|, h.cl, OpsBits(h.cl, h.ops) + rest)
         == if Accepts(h.lit) && Accepts(h.dist) then Got(Coded(h.lit, h.dist), rest) else Bad
  {
    hide Kraft, LengthsOk, OpsBits, OpsOk, Accepts, BITORDER, ReadLengths, Lengths;
    LengthsUndone(h.cl, h.ops, |h.lit| + |h.dist|, [], rest);
    var lens := h.lit + h.dist;
    assert lens[..|h.lit|] == h.lit && lens[|h.lit|..] == h.dist;
  }

  // ---- what is refused

  /** More than 286 literal and length codes, or more than 30 distance codes. */
  lemma TooManyRefused(a: nat, b: nat, c: nat, rest: BitString)
    requires a < 32 && b < 32 && c < 16 && (257 + a > 286 || 1 + b > 30)
    ensures DynamicHeader(LEBits(a, 5) + LEBits(b, 5) + LEBits(c, 4) + rest) == Bad
  {
    hide LE, LEBits, Field, CodeLengths, DynamicLengths;
    var r2 := LEBits(c, 4) + rest;
    var r1 := LEBits(b, 5) + r2;
    assert LEBits(a, 5) + LEBits(b, 5) + LEBits(c, 4) + rest == LEBits(a, 5) + r1;
    SmallPowers();
    FieldUndone(a, 5, r1);
    FieldUndone(b, 5, r2);
    FieldUndone(c, 4, rest);
  }

  /** A code length code that is not acceptable. */
  lemma LengthCodeRefused(a: nat, b: nat, cl: seq<nat>, n: nat, rest: BitString)
    requires a <= 29 && b <= 29 && |cl| == 19 && 4 <= n <= 19
    requires (forall i :: 0 <= i < 19 ==> cl[i] <= 7) && (forall i :: n <= i < 19 ==> cl[BITORDER[i]] == 0)
    requires !Accepts(cl)
    ensures DynamicHeader(LEBits(a, 5) + LEBits(b, 5) + LEBits(n - 4, 4) + ClBits(cl, 0, n) + rest) == Bad
  {
    hide LE, LEBits, Field, CodeLengths, ClBits, Accepts, BITORDER, Repeat;
    var r3 := ClBits(cl, 0, n) + rest;
    var r2 := LEBits(n - 4, 4) + r3;
    var r1 := LEBits(b, 5) + r2;
    assert LEBits(a, 5) + LEBits(b, 5) + LEBits(n - 4, 4) + ClBits(cl, 0, n) + rest == LEBits(a, 5) + r1;
    SmallPowers();
    FieldUndone(a, 5, r1);
    FieldUndone(b, 5, r2);
    FieldUndone(n - 4, 4, r3);
    OrderIsPermutation();
    ClUndone(cl, 0, n, Repeat(19, 0), rest);
  }

  /** A repeat that goes beyond the lengths to be sent. */
  lemma {:induction false} OverrunRefused(cl: seq<nat>, ops: seq<Op>, n: nat, acc: seq<nat>, rest: BitString)
    requires Usable(cl) && OpsOk(cl, ops) && ops != [] && |rest| >= BMAX
    requires |Lengths(ops[..|ops| - 1], acc)| < n < |Lengths(ops, acc)|
    ensures |acc| <= n && ReadLengths(cl, n, acc, OpsBits(cl, ops) + rest) == Bad
    decreases |ops|
  {
    hide Kraft, LengthsOk, Code, ReadLengths, Op.Adds, Op.ExtraBits, Op.Sym;
    var op := ops[0];
    var more := OpsBits(cl, ops[1..]) + rest;
    assert OpsBits(cl, ops) + rest == Code(cl, op.Sym()) + (op.ExtraBits() + more);
    if |ops| == 1 {
      assert ops[..0] == [] && ops[1..] == [];
      LastOverrun(cl, op, n, acc, more);
    } else {
      assert ops[..|ops| - 1][1..] == ops[1..][..|ops[1..]| - 1];
      OverrunRefused(cl, ops[1..], n, acc + op.Adds(acc), rest);
      MoreLengths(cl, op, n, acc, more);
    }
  }

  lemma LastOverrun(cl: seq<nat>, op: Op, n: nat, acc: seq<nat>, more: BitString)
    requires Usable(cl) && op.Valid() && op.Sym() < |cl| && cl[op.Sym()] > 0 && |more| >= BMAX
    requires |acc| < n < |acc + op.Adds(acc)|
    ensures ReadLengths(cl, n, acc, Code(cl, op.Sym()) + (op.ExtraBits() + more)) == Bad
  {
    hide Kraft, LengthsOk, Code, Symbol, RunOf, Op.Adds, Op.ExtraBits, Op.Sym;
    SymbolUndone(cl, op.Sym(), op.ExtraBits() + more);
    RunUndone(op, acc, more);
  }

  /** The length symbols 286 and 287 of a fixed block. */
  lemma LengthRefused(sym: nat, rest: BitString)
    requires 286 <= sym < 288 && |rest| >= BMAX
    ensures Usable(FixedLit()) && TokenOf(FixedLit(), FixedDist(), Code(FixedLit(), sym) + rest) == Bad
  {
    hide Kraft, FixedLit, FixedDist, Code, Symbol;
    FixedLitKraft();
    FixedLengthsOk();
    SymbolUndone(FixedLit(), sym, rest);
  }

  /** The fourth kind of block. */
  lemma KindRefused(last: Bit, rest: BitString, out: seq<Byte>)
    ensures Run(Inf([last] + LEBits(3, 2) + rest, out, Between, false)) == Broken(out)
  {
    hide LE, LEBits;
    SmallPowers();
    var bits := [last] + LEBits(3, 2) + rest;
    assert bits[1..3] == LEBits(3, 2);
    LEOfBits(3, 2);
  }

  // ---- blocks and streams

  datatype Piece =
    | StoredPiece(pad: BitString, data: seq<Byte>)
    | FixedPiece(tokens: seq<Token>)
    | DynamicPiece(h: Heading, tokens: seq<Token>)

  ghost predicate Codable(lit: seq<nat>, dist: seq<nat>, tokens: seq<Token>, out: seq<Byte>) {
    && Usable(lit) && Usable(dist) && AllWritable(lit, dist, tokens) && Writable(lit, dist, EndOfBlock)
    && Sensible(tokens, out)
  }

  /** The piece can be written behind `out`, with `next` behind it. */
  ghost predicate Proper(b: Piece, out: seq<Byte>, next: BitString) {
    |next| >= BMAX &&
    match b
    case StoredPiece(pad, data) => |pad| < 8 && |data| < 0x1_0000 && |next| % 8 == 0
    case FixedPiece(tokens) => Codable(FixedLit(), FixedDist(), tokens, out)
    case DynamicPiece(h, tokens) =>
      h.Valid() && Accepts(h.lit) && Accepts(h.dist) && Codable(h.lit, h.dist, tokens, out)
  }

  /** Whether it is the last block, its kind, and what belongs to the kind. */
  ghost function PieceBits(b: Piece, last: Bit, out: seq<Byte>, next: BitString): BitString
    requires Proper(b, out, next)
  {
    match b
    case StoredPiece(pad, data) =>
      [last, 0, 0] + (StoredHead(pad, |data|) + FileBits(data))
    case FixedPiece(tokens) => [last, 1, 0] + TokensBits(FixedLit(), FixedDist(), tokens)
    case DynamicPiece(h, tokens) => [last, 0, 1] + (h.Bits() + TokensBits(h.lit, h.dist, tokens))
  }

  ghost function After(b: Piece, out: seq<Byte>, next: BitString): (o: seq<Byte>)
    requires Proper(b, out, next)
    ensures out <= o
  {
    match b
    case StoredPiece(_, data) => out + data
    case FixedPiece(tokens) => Expand(tokens, out)
    case DynamicPiece(_, tokens) => Expand(tokens, out)
  }

  lemma HeaderRuns(last: Bit, kind: nat, a: Bit, c: Bit, body: BitString, out: seq<Byte>, block: Block, rest: BitString)
    requires kind == a + 2 * c && HeaderOf(kind, body) == Got(block, rest) && |rest| <= |body|
    ensures Run(Inf([last, a, c] + body, out, Between, false)) == Run(Inf(rest, out, block, last == 1))
  {
    hide LE, HeaderOf;
    var s := Inf([last, a, c] + body, out, Between, false);
    assert s.rest[1..3] == [a, c] && s.rest[3..] == body;
    TwoBits(a, c);
    assert Step(s) == Go(Inf(rest, out, block, last == 1));
    StepRuns(s);
  }

  lemma TwoBits(a: Bit, c: Bit)
    ensures LE([a, c]) == a + 2 * c
  {
    assert LE([c]) == c + 2 * LE([]);
    assert [a, c][1..] == [c];
  }

  function StoredHead(pad: BitString, len: nat): BitString
    requires len < 0x1_0000
  {
    pad + LEBits(len, 16) + LEBits(0xffff - len, 16)
  }

  lemma WholeBytes(n: nat, m: nat)
    requires m % 8 == 0
    ensures (8 * n + m) % 8 == 0
  {
  }

  lemma StoredHeadIs(pad: BitString, len: nat, rest: BitString)
    requires len < 0x1_0000
    ensures StoredHead(pad, len) + rest == pad + LEBits(len, 16) + LEBits(0xffff - len, 16) + rest
    ensures HeaderOf(0, StoredHead(pad, len) + rest) == StoredHeader(StoredHead(pad, len) + rest)
  {
    hide LEBits, StoredHeader, DynamicHeader;
  }

  lemma StoredHeadUndone(pad: BitString, data: seq<Byte>, next: BitString)
    requires |pad| < 8 && |data| < 0x1_0000 && |next| % 8 == 0
    ensures HeaderOf(0, StoredHead(pad, |data|) + (FileBits(data) + next))
         == Got(if data == [] then Between else Stored(|data|), FileBits(data) + next)
  {
    hide LEBits, StoredHeader, HeaderOf, FileBits, StoredHead;
    var rest := FileBits(data) + next;
    WholeBytes(|data|, |next|);
    StoredUndone(pad, |data|, rest);
    StoredHeadIs(pad, |data|, rest);
  }

  lemma StoredPieceUndone(pad: BitString, data: seq<Byte>, last: Bit, out: seq<Byte>, next: BitString)
    requires |pad| < 8 && |data| < 0x1_0000 && |next| % 8 == 0
    ensures Run(Inf([last, 0, 0] + (StoredHead(pad, |data|) + FileBits(data)) + next, out, Between, false))
         == Run(Inf(next, out + data, Between, last == 1))
  {
    hide Run, HeaderOf, FileBits, StoredHead;
    StoredHeadUndone(pad, data, next);
    Regrouped([last, 0, 0], StoredHead(pad, |data|), FileBits(data), next);
    HeaderRuns(last, 0, 0, 0, StoredHead(pad, |data|) + (FileBits(data) + next), out,
               if data == [] then Between else Stored(|data|), FileBits(data) + next);
    if data == [] {
      NoBytes();
      assert FileBits(data) + next == next && out + data == out;
    } else {
      BytesUndone(data, out, last == 1, next);
    }
  }

  lemma CodableUsable(lit: seq<nat>, dist: seq<nat>, tokens: seq<Token>, out: seq<Byte>)
    requires Codable(lit, dist, tokens, out)
    ensures Usable(lit) && Usable(dist)
  {
    hide Usable, AllWritable, Writable, Sensible;
  }

  lemma Regrouped(a: BitString, b: BitString, c: BitString, d: BitString)
    ensures a + (b + c) + d == a + (b + (c + d))
  {
  }

  lemma NoBytes()
    ensures FileBits([]) == []
  {
  }

  lemma CodedPieceUndone(kind: nat, a: Bit, c: Bit, head: BitString, lit: seq<nat>, dist: seq<nat>, tokens: seq<Token>,
                         last: Bit, out: seq<Byte>, next: BitString)
    requires kind == a + 2 * c && Codable(lit, dist, tokens, out) && |next| >= BMAX
    requires var body := TokensBits(lit, dist, tokens) + next;
             HeaderOf(kind, head + body) == Got(Coded(lit, dist), body)
    ensures Run(Inf([last, a, c] + (head + TokensBits(lit, dist, tokens)) + next, out, Between, false))
         == Run(Inf(next, Expand(tokens, out), Between, last == 1))
  {
    hide Run, HeaderOf, TokensBits, Usable, AllWritable, Writable, Sensible, Expand, Codable;
    CodableParts(lit, dist, tokens, out);
    CodableUsable(lit, dist, tokens, out);
    var body := TokensBits(lit, dist, tokens) + next;
    Regrouped([last, a, c], head, TokensBits(lit, dist, tokens), next);
    HeaderRuns(last, kind, a, c, head + body, out, Coded(lit, dist), body);
    TokensUndone(lit, dist, tokens, out, last == 1, next);
  }

  /** A block written down is inflated again. */
  lemma PieceUndone(b: Piece, last: Bit, out: seq<Byte>, next: BitString)
    requires Proper(b, out, next)
    ensures Run(Inf(PieceBits(b, last, out, next) + next, out, Between, false))
         == Run(Inf(next, After(b, out, next), Between, last == 1))
  {
    hide Run, LE, LEBits, StoredHead, TokensBits, FileBits, Codable, FixedLit, FixedDist, Accepts, DynamicHeader,
         Sensible, Expand;
    match b
    case StoredPiece(pad, data) =>
      StoredPieceUndone(pad, data, last, out, next);
    case FixedPiece(tokens) =>
      CodableParts(FixedLit(), FixedDist(), tokens, out);
      var bits := TokensBits(FixedLit(), FixedDist(), tokens);
      assert [] + bits == bits && [] + (bits + next) == bits + next;
      CodedPieceUndone(1, 1, 0, [], FixedLit(), FixedDist(), tokens, last, out, next);
    case DynamicPiece(h, tokens) =>
      CodableParts(h.lit, h.dist, tokens, out);
      HeadingUndone(h, TokensBits(h.lit, h.dist, tokens) + next);
      CodedPieceUndone(2, 0, 1, h.Bits(), h.lit, h.dist, tokens, last, out, next);
  }

  lemma CodableParts(lit: seq<nat>, dist: seq<nat>, tokens: seq<Token>, out: seq<Byte>)
    requires Codable(lit, dist, tokens, out)
    ensures LengthsOk(lit) && LengthsOk(dist) && AllWritable(lit, dist, tokens) && Writable(lit, dist, EndOfBlock)
    ensures Sensible(tokens, out)
  {
    hide Kraft, AllWritable, Writable, Sensible;
  }

  /** `bits` are the pieces written down one after the other, of which only the last is marked so, with
      `tail` behind them; `o` is the output. */
  ghost predicate Written(pieces: seq<Piece>, out: seq<Byte>, bits: BitString, tail: BitString, o: seq<Byte>)
    decreases |pieces|
  {
    && pieces != []
    && exists next: BitString :: WrittenBy(pieces, out, bits, next, tail, o)
  }

  ghost predicate WrittenBy(pieces: seq<Piece>, out: seq<Byte>, bits: BitString, next: BitString, tail: BitString,
                            o: seq<Byte>)
    requires pieces != []
    decreases |pieces|, 0
  {
    && Proper(pieces[0], out, next)
    && bits == PieceBits(pieces[0], if |pieces| == 1 then 1 else 0, out, next) + next
    && if |pieces| == 1 then next == tail && o == After(pieces[0], out, next)
       else Written(pieces[1..], After(pieces[0], out, next), next, tail, o)
  }

  /** A stream written down is inflated again: its output is that of the pieces. */
  lemma {:induction false} StreamUndone(pieces: seq<Piece>, out: seq<Byte>, bits: BitString, tail: BitString,
                                        o: seq<Byte>)
    requires Written(pieces, out, bits, tail, o)
    ensures Run(Inf(bits, out, Between, false)) == Output(o)
    decreases |pieces|
  {
    hide Run, Proper, PieceBits, After;
    var next: BitString :| WrittenBy(pieces, out, bits, next, tail, o);
    PieceUndone(pieces[0], if |pieces| == 1 then 1 else 0, out, next);
    if |pieces| == 1 {
      AtEnd(next, o);
    } else {
      StreamUndone(pieces[1..], After(pieces[0], out, next), next, tail, o);
    }
  }

  lemma AtEnd(rest: BitString, o: seq<Byte>)
    ensures Run(Inf(rest, o, Between, true)) == Output(o)
  {
  }

  /** In particular inflating undoes the writing of a whole file. */
  lemma InflateUndone(pieces: seq<Piece>, bits: BitString, tail: BitString, o: seq<Byte>)
    requires Written(pieces, [], bits, tail, o)
    ensures Inflate(bits) == Output(o)
  {
    hide Run, Written;
    StreamUndone(pieces, [], bits, tail, o);
  }

  // ---- literals alone can write anything

  function Literals(data: seq<Byte>): (t: seq<Token>)
    ensures |t| == |data| && forall i :: 0 <= i < |data| ==> t[i] == Literal(data[i])
  {
    seq(|data|, i requires 0 <= i < |data| => Literal(data[i]))
  }

  lemma {:induction false} LiteralsExpand(data: seq<Byte>, out: seq<Byte>)
    ensures Sensible(Literals(data), out) && Expand(Literals(data), out) == out + data
    decreases |data|
  {
    if data == [] {
      assert out + data == out;
    } else {
      LiteralsExpand(data[1..], out + [data[0]]);
      assert Literals(data)[1..] == Literals(data[1..]);
      assert out + [data[0]] + data[1..] == out + data;
    }
  }

  /** Every file has a deflate stream that inflates to it: one fixed block of literals, for example. */
  lemma EveryOutput(data: seq<Byte>, tail: BitString) returns (bits: BitString)
    requires |tail| >= BMAX
    ensures Inflate(bits) == Output(data)
  {
    hide Kraft, FixedLit, FixedDist, Sensible, Expand, TokensBits, Run, Written, AllWritable, Writable;
    var b := FixedPiece(Literals(data));
    LiteralsExpand(data, []);
    assert [] + data == data;
    FixedWritable(Literals(data));
    bits := PieceBits(b, 1, [], tail) + tail;
    PieceUndone(b, 1, [], tail);
    AtEnd(tail, data);
  }

  lemma FixedWritable(tokens: seq<Token>)
    requires forall i :: 0 <= i < |tokens| ==> tokens[i].Literal? && tokens[i].x < 256
    ensures Usable(FixedLit()) && Usable(FixedDist()) && AllWritable(FixedLit(), FixedDist(), tokens)
    ensures Writable(FixedLit(), FixedDist(), EndOfBlock)
  {
    hide Kraft, FixedLit, FixedDist;
    FixedLitKraft();
    FixedDistKraft();
    FixedLengthsOk();
  }
}
