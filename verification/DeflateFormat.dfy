/** Writing deflate streams (RFC 1951): what inflating makes of the bits that the format puts down. */
module DeflateFormat {
  import opened Words
  import opened Arith
  import opened Bits
  import opened History
  import opened Huffman
  import opened HuftCounts
  import opened HuftCanonical
  import opened Deflate

  // ---- fields and symbols

  lemma FieldUndone(v: nat, n: nat, rest: BitString)
    requires v < Pow2(n)
    ensures Field(LEBits(v, n) + rest, n) == Got(v, rest)
  {
    hide LE, LEBits, Pow2;
    LEOfBits(v, n);
    var s := LEBits(v, n) + rest;
    assert s[..n] == LEBits(v, n) && s[n..] == rest;
  }

  /** A set of lengths that makes an unambiguous code. */
  ghost predicate Usable(b: seq<nat>) {
    LengthsOk(b) && Kraft(b) <= FULL
  }

  lemma {:induction false} FindUndone(b: seq<nat>, sym: nat, rest: BitString, i: nat)
    requires Usable(b) && i <= sym < |b| && b[sym] > 0 && Code(b, sym) <= rest
    ensures FindSymbol(b, rest, i) == Some(sym)
    decreases sym - i
  {
    hide Code, Kraft;
    if b[i] > 0 && Code(b, i) <= rest {
      UniqueSymbol(b, i, sym, rest);
    } else {
      FindUndone(b, sym, rest, i + 1);
    }
  }

  /** A symbol written with its code is read again. */
  lemma SymbolUndone(b: seq<nat>, sym: nat, rest: BitString)
    requires Usable(b) && sym < |b| && b[sym] > 0 && |rest| >= BMAX
    ensures Symbol(b, Code(b, sym) + rest) == Got(sym, rest)
  {
    hide Code, Kraft, FindSymbol;
    var s := Code(b, sym) + rest;
    assert Code(b, sym) <= s && s[b[sym]..] == rest;
    FindUndone(b, sym, s, 0);
  }

  // ---- lengths and distances

  /** The last entry up to number `i` that is not above `n`, or the first one. */
  function LastUpTo(list: seq<nat>, n: nat, i: nat): (k: nat)
    requires i < |list|
    ensures k <= i
  {
    if i == 0 || list[i] <= n then i else LastUpTo(list, n, i - 1)
  }

  /** Length symbol less 257, for lengths from 3 to 258. */
  function LengthSym(n: nat): (i: nat)
    ensures i < 29
  {
    if n == 258 then 28 else LastUpTo(CPLENS, n, 27)
  }

  function DistanceSym(d: nat): (i: nat)
    ensures i < 30
  {
    LastUpTo(CPDIST, d, 29)
  }

  lemma {:induction false} LastIs(list: seq<nat>, n: nat, i: nat)
    requires i < |list| && list[0] <= n
    ensures var k := LastUpTo(list, n, i);
            list[k] <= n && forall j :: k < j <= i ==> n < list[j]
  {
    if i > 0 && list[i] > n {
      LastIs(list, n, i - 1);
    }
  }

  /** Every distance from 1 to 32768 lies in the range of one symbol and its extra bits. */
  lemma DistanceOnce(d: nat)
    requires 1 <= d <= 32768
    ensures var i := DistanceSym(d); CPDIST[i] <= d < CPDIST[i] + Pow2(CPDEXT[i])
    ensures forall j: nat :: j < 30 && CPDIST[j] <= d < CPDIST[j] + Pow2(CPDEXT[j]) ==> j == DistanceSym(d)
  {
    hide Pow2, CPDIST, CPDEXT;
    DistancesAreConsecutive(0);
    TableSizes();
    LastIs(CPDIST, d, 29);
    var i := DistanceSym(d);
    DistancesAreConsecutive(i);
    forall j: nat | j < 30 && CPDIST[j] <= d < CPDIST[j] + Pow2(CPDEXT[j])
      ensures j == i
    {
      DistancesAreConsecutive(j);
      if j < i {
        DistancesRise(j + 1, i);
      }
    }
  }

  lemma TableSizes()
    ensures |CPLENS| == 31 == |CPLEXT| && |CPDIST| == 30 == |CPDEXT|
  {
  }

  lemma {:induction false} DistancesRise(i: nat, j: nat)
    requires i <= j < 30
    ensures CPDIST[i] <= CPDIST[j]
    decreases j
  {
    hide Pow2, CPDIST, CPDEXT;
    TableSizes();
    if i < j {
      DistancesRise(i, j - 1);
      DistancesAreConsecutive(j - 1);
    }
  }

  /** Every length from 3 to 258 lies in the range of a symbol and its extra bits, only 258 in two. */
  lemma LengthOnce(n: nat)
    requires 3 <= n <= 258
    ensures var i := LengthSym(n); CPLENS[i] <= n < CPLENS[i] + Pow2(CPLEXT[i])
    ensures forall j: nat :: j < 29 && CPLENS[j] <= n < CPLENS[j] + Pow2(CPLEXT[j]) ==>
              j == LengthSym(n) || (n == 258 && j == 27)
  {
    hide Pow2, CPLENS, CPLEXT;
    TableSizes();
    LengthsAreConsecutive(0);
    PowZero();
    LastIs(CPLENS, n, 27);
    var i := LengthSym(n);
    if i < 28 {
      LengthsAreConsecutive(i);
    }
    forall j: nat | j < 29 && CPLENS[j] <= n < CPLENS[j] + Pow2(CPLEXT[j])
      ensures j == i || (n == 258 && j == 27)
    {
      if j < 28 {
        LengthsAreConsecutive(j);
        if j < i {
          LengthsRise(j + 1, i);
        }
      }
    }
  }

  lemma PowZero()
    ensures Pow2(0) == 1
  {
  }

  lemma {:induction false} LengthsRise(i: nat, j: nat)
    requires i <= j < 29
    ensures CPLENS[i] <= CPLENS[j]
    decreases j
  {
    hide Pow2, CPLENS, CPLEXT;
    TableSizes();
    if i < j {
      LengthsRise(i, j - 1);
      LengthsAreConsecutive(j - 1);
      PowZero();
      if j == 28 {
        LengthsAreConsecutive(27);
      }
    }
  }

  /** How many extra bits each symbol has. */
  lemma ExtraBitsAre(i: nat)
    ensures i < 28 ==> CPLEXT[i] == if i < 8 then 0 else (i - 4) / 4
    ensures i < 30 ==> CPDEXT[i] == if i < 4 then 0 else (i - 2) / 2
  {
  }

  // ---- tokens

  /** The token can be written with these two codes. */
  ghost predicate Writable(lit: seq<nat>, dist: seq<nat>, t: Token) {
    match t
    case Literal(x) => x < 256 && x < |lit| && lit[x] > 0
    case EndOfBlock => 256 < |lit| && lit[256] > 0
    case Match(n, d) =>
      && 3 <= n <= 258 && 1 <= d <= 32768
      && 257 + LengthSym(n) < |lit| && lit[257 + LengthSym(n)] > 0
      && DistanceSym(d) < |dist| && dist[DistanceSym(d)] > 0
  }

  /** The bits of a token: its symbol's code, and for a match the extra bits of the length, the code of the
      distance and its extra bits. */
  function TokenBits(lit: seq<nat>, dist: seq<nat>, t: Token): BitString
    requires LengthsOk(lit) && LengthsOk(dist) && Writable(lit, dist, t)
  {
    match t
    case Literal(x) => Code(lit, x)
    case EndOfBlock => Code(lit, 256)
    case Match(n, d) =>
      var i, j := LengthSym(n), DistanceSym(d);
      LengthOnce(n);
      DistanceOnce(d);
      Code(lit, 257 + i) + LEBits(n - CPLENS[i], CPLEXT[i]) + (Code(dist, j) + LEBits(d - CPDIST[j], CPDEXT[j]))
  }

  /** Whatever symbols a match is written with, it means the base of each plus its extra bits. */
  lemma MatchUndone(lit: seq<nat>, dist: seq<nat>, i: nat, x: nat, j: nat, y: nat, rest: BitString)
    requires Usable(lit) && Usable(dist) && |rest| >= BMAX
    requires i < 29 && 257 + i < |lit| && lit[257 + i] > 0 && x < Pow2(CPLEXT[i])
    requires j < 30 && j < |dist| && dist[j] > 0 && y < Pow2(CPDEXT[j])
    ensures TokenOf(lit, dist,
                    Code(lit, 257 + i) + LEBits(x, CPLEXT[i]) + (Code(dist, j) + LEBits(y, CPDEXT[j])) + rest)
         == Got(Match(CPLENS[i] + x, CPDIST[j] + y), rest)
  {
    hide Code, Kraft, Pow2, LEBits, Symbol, Field, CPLENS, CPLEXT, CPDIST, CPDEXT, Unassigned;
    TableSizes();
    var ex, ey := LEBits(x, CPLEXT[i]), LEBits(y, CPDEXT[j]);
    var r2 := ey + rest;
    var r1 := Code(dist, j) + r2;
    var r0 := ex + r1;
    assert Code(lit, 257 + i) + ex + (Code(dist, j) + ey) + rest == Code(lit, 257 + i) + r0;
    SymbolUndone(lit, 257 + i, r0);
    FieldUndone(x, CPLEXT[i], r1);
    SymbolUndone(dist, j, r2);
    FieldUndone(y, CPDEXT[j], rest);
  }

  /** A token written down is read again, whatever follows it. */
  lemma TokenUndone(lit: seq<nat>, dist: seq<nat>, t: Token, rest: BitString)
    requires Usable(lit) && Usable(dist) && Writable(lit, dist, t) && |rest| >= BMAX
    ensures TokenOf(lit, dist, TokenBits(lit, dist, t) + rest) == Got(t, rest)
  {
    hide Code, Kraft, Pow2, LEBits, Symbol, TokenOf, CPLENS, CPLEXT, CPDIST, CPDEXT;
    match t
    case Literal(x) => PlainUndone(lit, dist, x, rest);
    case EndOfBlock => PlainUndone(lit, dist, 256, rest);
    case Match(n, d) =>
      var i, j := LengthSym(n), DistanceSym(d);
      TableSizes();
      LengthOnce(n);
      DistanceOnce(d);
      MatchUndone(lit, dist, i, n - CPLENS[i], j, d - CPDIST[j], rest);
  }

  lemma PlainUndone(lit: seq<nat>, dist: seq<nat>, sym: nat, rest: BitString)
    requires Usable(lit) && sym <= 256 && sym < |lit| && lit[sym] > 0 && |rest| >= BMAX
    ensures TokenOf(lit, dist, Code(lit, sym) + rest) == Got(if sym == 256 then EndOfBlock else Literal(sym), rest)
  {
    hide Code, Kraft, Pow2, LEBits, Symbol, LengthOf;
    SymbolUndone(lit, sym, rest);
  }

  // ---- the data of a block

  ghost predicate AllWritable(lit: seq<nat>, dist: seq<nat>, tokens: seq<Token>) {
    forall i :: 0 <= i < |tokens| ==> Writable(lit, dist, tokens[i]) && !tokens[i].EndOfBlock?
  }

  /** A literal is a byte, and a match copies from what there is. */
  predicate Fits(t: Token, out: seq<Byte>) {
    (t.Literal? ==> t.x < 256) && (t.Match? ==> 1 <= t.distance <= |out|)
  }

  /** The output after a token. */
  function Grown(t: Token, out: seq<Byte>): (o: seq<Byte>)
    requires Fits(t, out)
    ensures out <= o
  {
    match t
    case Literal(x) => out + [x]
    case EndOfBlock => out
    case Match(n, d) => Copy(out, d, n)
  }

  ghost predicate Sensible(tokens: seq<Token>, out: seq<Byte>)
    decreases |tokens|
  {
    tokens != [] ==> Fits(tokens[0], out) && Sensible(tokens[1..], Grown(tokens[0], out))
  }

  /** The output after the tokens. */
  ghost function Expand(tokens: seq<Token>, out: seq<Byte>): (o: seq<Byte>)
    requires Sensible(tokens, out)
    ensures out <= o
    decreases |tokens|
  {
    if tokens == [] then out else Expand(tokens[1..], Grown(tokens[0], out))
  }

  function TokensBits(lit: seq<nat>, dist: seq<nat>, tokens: seq<Token>): BitString
    requires LengthsOk(lit) && LengthsOk(dist) && AllWritable(lit, dist, tokens)
    requires Writable(lit, dist, EndOfBlock)
  {
    if tokens == [] then TokenBits(lit, dist, EndOfBlock)
    else TokenBits(lit, dist, tokens[0]) + TokensBits(lit, dist, tokens[1..])
  }

  /** Inflating the data of a block gives the tokens' output, and goes on behind it. */
  lemma {:induction false} TokensUndone(lit: seq<nat>, dist: seq<nat>, tokens: seq<Token>, out: seq<Byte>, last: bool,
                                        rest: BitString)
    requires Usable(lit) && Usable(dist) && AllWritable(lit, dist, tokens) && Writable(lit, dist, EndOfBlock)
    requires Sensible(tokens, out) && |rest| >= BMAX
    ensures Run(Inf(TokensBits(lit, dist, tokens) + rest, out, Coded(lit, dist), last))
         == Run(Inf(rest, Expand(tokens, out), Between, last))
    decreases |tokens|
  {
    hide Kraft, LengthsOk, Writable, TokenBits, TokenOf, Run, Copy;
    if tokens == [] {
      OneToken(lit, dist, EndOfBlock, out, last, rest);
    } else {
      var t := tokens[0];
      var more := TokensBits(lit, dist, tokens[1..]) + rest;
      assert TokensBits(lit, dist, tokens) + rest == TokenBits(lit, dist, t) + more;
      OneToken(lit, dist, t, out, last, more);
      TokensUndone(lit, dist, tokens[1..], Grown(t, out), last, rest);
    }
  }

  lemma OneToken(lit: seq<nat>, dist: seq<nat>, t: Token, out: seq<Byte>, last: bool, rest: BitString)
    requires Usable(lit) && Usable(dist) && Writable(lit, dist, t) && |rest| >= BMAX
    requires Fits(t, out) || t.EndOfBlock?
    ensures Fits(t, out)
    ensures Run(Inf(TokenBits(lit, dist, t) + rest, out, Coded(lit, dist), last))
         == Run(Inf(rest, Grown(t, out), if t.EndOfBlock? then Between else Coded(lit, dist), last))
  {
    hide Kraft, LengthsOk, TokenBits, TokenOf, Copy;
    var s := Inf(TokenBits(lit, dist, t) + rest, out, Coded(lit, dist), last);
    TokenUndone(lit, dist, t, rest);
    assert Step(s) == Emit(s, t, rest);
    assert Step(s) == Go(Inf(rest, Grown(t, out), if t.EndOfBlock? then Between else Coded(lit, dist), last));
    StepProgress(s);
    StepRuns(s);
  }

  lemma StepRuns(s: Inf)
    requires !Over(s) && Step(s).Go? && |Step(s).s.rest| < |s.rest| && s.out <= Step(s).s.out
    ensures Run(s) == Run(Step(s).s)
  {
    hide Step;
  }
}
