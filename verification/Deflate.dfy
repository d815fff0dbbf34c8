/** The meaning of a deflate stream (RFC 1951): what output a bit string stands for, token by token.
    `Bad` marks what the decoder reports as an error; `Unclear` marks streams that end early or use
    distances, or codes of sets with unused symbols, that do not exist, for which nothing is promised. */
module Deflate {
  import opened Words
  import opened Bits
  import opened History
  import opened Huffman
  import opened HuftCounts

  datatype Parse<+T> = Got(value: T, rest: BitString) | Bad | Unclear

  /** What remains to be read of the current block. */
  datatype Block = Between | Stored(left: nat) | Coded(lit: seq<nat>, dist: seq<nat>)

  datatype Inf = Inf(rest: BitString, out: seq<Byte>, block: Block, last: bool)

  datatype Turn = Go(s: Inf) | Corrupt | Lost

  /** Everything a stream stands for: its output, or the output before an error. */
  datatype Outcome = Output(out: seq<Byte>) | Broken(out: seq<Byte>) | Unknown

  // ---- constants of section 3.2.5 and 3.2.7

  const CPLENS: seq<nat> := [
    3, 4, 5, 6, 7, 8, 9, 10, 11, 13, 15, 17, 19, 23, 27, 31,
    35, 43, 51, 59, 67, 83, 99, 115, 131, 163, 195, 227, 258, 0, 0]
  const CPLEXT: seq<nat> := [
    0, 0, 0, 0, 0, 0, 0, 0, 1, 1, 1, 1, 2, 2, 2, 2,
    3, 3, 3, 3, 4, 4, 4, 4, 5, 5, 5, 5, 0, 99, 99]
  const CPDIST: seq<nat> := [
    1, 2, 3, 4, 5, 7, 9, 13, 17, 25, 33, 49, 65, 97, 129, 193,
    257, 385, 513, 769, 1025, 1537, 2049, 3073, 4097, 6145,
    8193, 12289, 16385, 24577]
  const CPDEXT: seq<nat> := [
    0, 0, 0, 0, 1, 1, 2, 2, 3, 3, 4, 4, 5, 5, 6, 6,
    7, 7, 8, 8, 9, 9, 10, 10, 11, 11, 12, 12, 13, 13]
  const BITORDER: seq<nat> := [16, 17, 18, 0, 8, 7, 9, 6, 10, 5, 11, 4, 12, 3, 13, 2, 14, 1, 15]

  lemma SmallPowers()
    ensures Pow2(0) == 1 && Pow2(1) == 2 && Pow2(2) == 4 && Pow2(3) == 8 && Pow2(4) == 16
    ensures Pow2(5) == 32 && Pow2(6) == 64 && Pow2(7) == 128 && Pow2(8) == 256 && Pow2(9) == 512
    ensures Pow2(10) == 1024 && Pow2(11) == 2048 && Pow2(12) == 4096 && Pow2(13) == 8192
  {
    assert Pow2(6) == 64;
    assert Pow2(10) == 1024;
  }

  /** The length symbols stand for consecutive ranges that fill 3 to 258, whose top has a symbol of its own. */
  lemma LengthsAreConsecutive(i: nat)
    requires i < 28
    ensures CPLENS[i] + Pow2(CPLEXT[i]) == if i < 27 then CPLENS[i + 1] else CPLENS[28] + 1
    ensures CPLENS[0] == 3 && CPLENS[28] == 258 && CPLEXT[28] == 0
  {
    hide Pow2;
    SmallPowers();
  }

  /** The distance symbols stand for consecutive ranges that fill 1 to 32768. */
  lemma DistancesAreConsecutive(i: nat)
    requires i < 30
    ensures CPDIST[i] + Pow2(CPDEXT[i]) == if i < 29 then CPDIST[i + 1] else 32769
    ensures CPDIST[0] == 1
  {
    hide Pow2;
    SmallPowers();
  }

  /** The code length code is sent with the repeats first, then 0, then the lengths from 8 outwards. */
  lemma OrderIsOutwards(j: nat)
    requires j < 19
    ensures j < 3 ==> BITORDER[j] == 16 + j
    ensures j == 3 ==> BITORDER[j] == 0
    ensures j >= 4 ==> BITORDER[j] == if j % 2 == 0 then 8 + (j - 4) / 2 else 8 - (j - 3) / 2
  {
  }

  // ---- fields and symbols

  function Field(rest: BitString, n: nat): Parse<nat> {
    if |rest| < n then Unclear else Got(LE(rest[..n]), rest[n..])
  }

  function FindSymbol(b: seq<nat>, rest: BitString, i: nat): (r: Option<nat>)
    requires LengthsOk(b)
    ensures r.Some? ==> i <= r.value < |b| && b[r.value] > 0 && Code(b, r.value) <= rest
    decreases |b| - i
  {
    if i >= |b| then None
    else if b[i] > 0 && Code(b, i) <= rest then Some(i)
    else FindSymbol(b, rest, i + 1)
  }

  /** The symbol whose code comes next. A decoder looks at up to 16 bits for it; the eight bytes that
      follow the compressed data in a gzip file make sure they are there. */
  function Symbol(b: seq<nat>, rest: BitString): (p: Parse<nat>)
    ensures p.Got? ==> LengthsOk(b) && p.value < |b| && b[p.value] > 0 && Code(b, p.value) <= rest
                       && p.rest == rest[b[p.value]..]
  {
    if !LengthsOk(b) || |rest| < BMAX then Unclear
    else
      match FindSymbol(b, rest, 0)
      case None => Unclear
      case Some(sym) => Got(sym, rest[b[sym]..])
  }

  /** Bits that start with no code, where every symbol has one: the decoder finds them invalid. */
  predicate Unassigned(b: seq<nat>, rest: BitString) {
    LengthsOk(b) && AllCoded(b) && |rest| >= BMAX && NoCode(b, rest)
  }

  /** A set of lengths the decoder takes: complete, empty, or a single one-bit code. */
  predicate Accepts(b: seq<nat>) {
    Kraft(b) == 0 || Kraft(b) == FULL || (Kraft(b) < FULL && Longest(Counts(b), BMAX) == 1)
  }

  // ---- block headers

  function StoredHeader(rest: BitString): Parse<Block> {
    match Field(rest[|rest| % 8..], 16)
    case Bad => Bad
    case Unclear => Unclear
    case Got(len, r1) =>
      match Field(r1, 16)
      case Bad => Bad
      case Unclear => Unclear
      case Got(nlen, r2) =>
        if len + nlen != 0xffff then Bad
        else Got(if len == 0 then Between else Stored(len), r2)
  }

  function Repeat(n: nat, x: nat): (s: seq<nat>)
    ensures |s| == n && forall i :: 0 <= i < n ==> s[i] == x
  {
    seq(n, i => x)
  }

  function FixedLit(): (b: seq<nat>)
    ensures |b| == 288
  {
    Repeat(144, 8) + Repeat(112, 9) + Repeat(24, 7) + Repeat(8, 8)
  }

  function FixedDist(): (b: seq<nat>)
    ensures |b| == 30
  {
    Repeat(30, 5)
  }

  /** The `n` three-bit lengths of the code length code, from the `j`-th in their special order. */
  function CodeLengths(rest: BitString, j: nat, n: nat, acc: seq<nat>): (p: Parse<seq<nat>>)
    requires |acc| == 19 && n <= 19
    ensures p.Got? ==> |p.value| == 19
    decreases n - j
  {
    if j >= n then Got(acc, rest)
    else
      match Field(rest, 3)
      case Bad => Bad
      case Unclear => Unclear
      case Got(v, r) => CodeLengths(r, j + 1, n, acc[BITORDER[j] := v])
  }

  function LastOf(acc: seq<nat>): nat {
    if acc == [] then 0 else acc[|acc| - 1]
  }

  /** How many times, and what, a code length symbol appends: section 3.2.7. */
  function RunOf(sym: nat, acc: seq<nat>, rest: BitString): Parse<seq<nat>> {
    if sym < 16 then Got([sym], rest)
    else
      match Field(rest, if sym == 16 then 2 else if sym == 17 then 3 else 7)
      case Bad => Bad
      case Unclear => Unclear
      case Got(v, r) =>
        Got(if sym == 16 then Repeat(3 + v, LastOf(acc)) else Repeat((if sym == 17 then 3 else 11) + v, 0), r)
  }

  /** `n` code lengths, coded with the code length code. */
  function ReadLengths(cl: seq<nat>, n: nat, acc: seq<nat>, rest: BitString): (p: Parse<seq<nat>>)
    requires |acc| <= n
    ensures p.Got? ==> |p.value| == n
    decreases n - |acc|
  {
    if |acc| == n then Got(acc, rest)
    else
      match Symbol(cl, rest)
      case Bad => Bad
      case Unclear => Unclear
      case Got(sym, r1) =>
        match RunOf(sym, acc, r1)
        case Bad => Bad
        case Unclear => Unclear
        case Got(run, r2) =>
          if |acc| + |run| > n then Bad
          else if run == [] then Unclear
          else ReadLengths(cl, n, acc + run, r2)
  }

  function DynamicLengths(na: nat, nd: nat, cl: seq<nat>, rest: BitString): Parse<Block> {
    if !Accepts(cl) then Bad
    else
      match ReadLengths(cl, na + nd, [], rest)
      case Bad => Bad
      case Unclear => Unclear
      case Got(lens, r) =>
        if !Accepts(lens[..na]) || !Accepts(lens[na..]) then Bad
        else Got(Coded(lens[..na], lens[na..]), r)
  }

  function DynamicHeader(rest: BitString): Parse<Block> {
    match Field(rest, 5)
    case Bad => Bad
    case Unclear => Unclear
    case Got(hlit, r1) =>
      match Field(r1, 5)
      case Bad => Bad
      case Unclear => Unclear
      case Got(hdist, r2) =>
        match Field(r2, 4)
        case Bad => Bad
        case Unclear => Unclear
        case Got(hclen, r3) =>
          if 257 + hlit > 286 || 1 + hdist > 30 then Bad
          else if 4 + hclen > 19 then Unclear
          else
            match CodeLengths(r3, 0, 4 + hclen, Repeat(19, 0))
            case Bad => Bad
            case Unclear => Unclear
            case Got(cl, r4) => DynamicLengths(257 + hlit, 1 + hdist, cl, r4)
  }

  /** The body of a header after its three first bits. */
  function HeaderOf(kind: nat, rest: BitString): Parse<Block> {
    if kind == 0 then StoredHeader(rest)
    else if kind == 1 then Got(Coded(FixedLit(), FixedDist()), rest)
    else if kind == 2 then DynamicHeader(rest)
    else Bad
  }

  // ---- tokens

  datatype Token = Literal(x: nat) | EndOfBlock | Match(length: nat, distance: nat)

  function DistanceOf(dist: seq<nat>, length: nat, rest: BitString): Parse<Token> {
    match Symbol(dist, rest)
    case Bad => Bad
    case Unclear => if Unassigned(dist, rest) then Bad else Unclear
    case Got(ds, r1) =>
      if ds >= 30 then Unclear
      else
        match Field(r1, CPDEXT[ds])
        case Bad => Bad
        case Unclear => Unclear
        case Got(x, r2) => Got(Match(length, CPDIST[ds] + x), r2)
  }

  function LengthOf(sym: nat, dist: seq<nat>, rest: BitString): Parse<Token>
    requires sym > 256
  {
    if sym >= 286 then Bad
    else
      match Field(rest, CPLEXT[sym - 257])
      case Bad => Bad
      case Unclear => Unclear
      case Got(x, r1) => DistanceOf(dist, CPLENS[sym - 257] + x, r1)
  }

  function TokenOf(lit: seq<nat>, dist: seq<nat>, rest: BitString): Parse<Token> {
    match Symbol(lit, rest)
    case Bad => Bad
    case Unclear => Unclear
    case Got(sym, r1) =>
      if sym < 256 then Got(Literal(sym), r1)
      else if sym == 256 then Got(EndOfBlock, r1)
      else LengthOf(sym, dist, r1)
  }

  function Emit(s: Inf, t: Token, rest: BitString): Turn {
    match t
    case Literal(x) => if x < 256 then Go(s.(rest := rest, out := s.out + [x])) else Lost
    case EndOfBlock => Go(s.(rest := rest, block := Between))
    case Match(n, d) =>
      if 1 <= d <= |s.out| && n > 0 then Go(s.(rest := rest, out := Copy(s.out, d, n))) else Lost
  }

  // ---- the whole stream

  function Header(s: Inf): Turn {
    if |s.rest| < 3 then Lost
    else
      match HeaderOf(LE(s.rest[1..3]), s.rest[3..])
      case Bad => Corrupt
      case Unclear => Lost
      case Got(block, r) => Go(Inf(r, s.out, block, s.rest[0] == 1))
  }

  function StoredByte(s: Inf): Turn
    requires s.block.Stored?
  {
    if |s.rest| < 8 then Lost
    else
      var x := LE(s.rest[..8]);
      if x >= 256 then Lost
      else Go(Inf(s.rest[8..], s.out + [x], if s.block.left <= 1 then Between else Stored(s.block.left - 1), s.last))
  }

  function Step(s: Inf): Turn {
    match s.block
    case Between => Header(s)
    case Stored(_) => StoredByte(s)
    case Coded(lit, dist) =>
      match TokenOf(lit, dist, s.rest)
      case Bad => Corrupt
      case Unclear => Lost
      case Got(t, r) => Emit(s, t, r)
  }

  predicate Over(s: Inf) {
    s.block.Between? && s.last
  }

  function Run(s: Inf): (o: Outcome)
    ensures !o.Unknown? ==> s.out <= o.out
    decreases |s.rest|
  {
    if Over(s) then Output(s.out)
    else
      match Step(s)
      case Corrupt => Broken(s.out)
      case Lost => Unknown
      case Go(t) => if |t.rest| < |s.rest| && s.out <= t.out then Run(t) else Unknown
  }

  /** The outcome of inflating a whole stream. */
  function Inflate(bits: BitString): Outcome {
    Run(Inf(bits, [], Between, false))
  }

  lemma {:induction false} CodeLengthsShrink(rest: BitString, j: nat, n: nat, acc: seq<nat>)
    requires |acc| == 19 && n <= 19
    ensures CodeLengths(rest, j, n, acc).Got? ==> |CodeLengths(rest, j, n, acc).rest| <= |rest|
    decreases n - j
  {
    hide LE;
    if j < n && |rest| >= 3 {
      CodeLengthsShrink(rest[3..], j + 1, n, acc[BITORDER[j] := LE(rest[..3])]);
    }
  }

  lemma {:induction false} ReadLengthsShrink(cl: seq<nat>, n: nat, acc: seq<nat>, rest: BitString)
    requires |acc| <= n
    ensures ReadLengths(cl, n, acc, rest).Got? ==> |ReadLengths(cl, n, acc, rest).rest| <= |rest|
    decreases n - |acc|
  {
    hide Symbol, LE, Repeat, LastOf;
    if |acc| < n && Symbol(cl, rest).Got? {
      var r1 := Symbol(cl, rest).rest;
      var run := RunOf(Symbol(cl, rest).value, acc, r1);
      if run.Got? && run.value != [] && |acc| + |run.value| <= n {
        ReadLengthsShrink(cl, n, acc + run.value, run.rest);
      }
    }
  }

  lemma DynamicLengthsShrink(na: nat, nd: nat, cl: seq<nat>, rest: BitString)
    ensures DynamicLengths(na, nd, cl, rest).Got? ==> |DynamicLengths(na, nd, cl, rest).rest| <= |rest|
  {
    hide ReadLengths, Accepts;
    ReadLengthsShrink(cl, na + nd, [], rest);
  }

  lemma DynamicShrinks(rest: BitString)
    ensures DynamicHeader(rest).Got? ==> |DynamicHeader(rest).rest| <= |rest|
  {
    hide LE, CodeLengths, DynamicLengths;
    if |rest| >= 14 {
      var hlit, hdist := LE(rest[..5]), LE(rest[5..][..5]);
      var r3 := rest[5..][5..][4..];
      var hclen := LE(rest[5..][5..][..4]);
      if 4 + hclen <= 19 {
        CodeLengthsShrink(r3, 0, 4 + hclen, Repeat(19, 0));
        var cl := CodeLengths(r3, 0, 4 + hclen, Repeat(19, 0));
        if cl.Got? {
          DynamicLengthsShrink(257 + hlit, 1 + hdist, cl.value, cl.rest);
        }
      }
    }
  }

  lemma SymbolShrinks(b: seq<nat>, rest: BitString)
    ensures Symbol(b, rest).Got? ==> |Symbol(b, rest).rest| < |rest|
  {
    hide FindSymbol, Code;
  }

  lemma LengthShrinks(sym: nat, dist: seq<nat>, rest: BitString)
    requires sym > 256
    ensures LengthOf(sym, dist, rest).Got? ==> |LengthOf(sym, dist, rest).rest| <= |rest|
  {
    hide LE, Symbol;
    if sym < 286 && Field(rest, CPLEXT[sym - 257]).Got? {
      SymbolShrinks(dist, Field(rest, CPLEXT[sym - 257]).rest);
    }
  }

  lemma TokenShrinks(lit: seq<nat>, dist: seq<nat>, rest: BitString)
    ensures TokenOf(lit, dist, rest).Got? ==> |TokenOf(lit, dist, rest).rest| < |rest|
  {
    hide Symbol, LengthOf;
    SymbolShrinks(lit, rest);
    if Symbol(lit, rest).Got? && Symbol(lit, rest).value > 256 {
      LengthShrinks(Symbol(lit, rest).value, dist, Symbol(lit, rest).rest);
    }
  }

  /** Every step takes bits and only adds to the output, so that inflating always comes to an end. */
  lemma StepProgress(s: Inf)
    ensures Step(s).Go? ==> |Step(s).s.rest| < |s.rest| && s.out <= Step(s).s.out
  {
    hide LE, TokenOf, DynamicHeader, Copy;
    match s.block
    case Between =>
      if |s.rest| >= 3 {
        DynamicShrinks(s.rest[3..]);
      }
    case Stored(_) =>
    case Coded(lit, dist) =>
      TokenShrinks(lit, dist, s.rest);
  }
}
