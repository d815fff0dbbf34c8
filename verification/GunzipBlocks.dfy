/** Reading tokens and block headers from the bit buffer, against the meaning in module Deflate. */
module GunzipBlocks {
  import opened Words
  import opened Bits
  import opened BitInput
  import opened Huffman
  import opened Deflate

  lemma FurtherSum(u: nat, v: nat, f: Option<Found>)
    ensures Further(u, Further(v, f)) == Further(u + v, f)
    ensures Further(0, f) == f
    ensures Further(u, f).Some? <==> f.Some?
    ensures f.Some? ==> Further(u, f) == Some(Found(f.value.e, f.value.v, u + f.value.used))
  {
  }

  /** One look of a walk that succeeds. */
  lemma WalkStep(tabs: seq<seq<Huft>>, t: nat, n: nat, s: BitString)
    requires Walk(tabs, t, n, s).Some?
    ensures n <= BMAX && n <= |s| && t < |tabs| && LE(s[..n]) < |tabs[t]|
    ensures var r := tabs[t][LE(s[..n])];
            if r.e == 99 then Walk(tabs, t, n, s) == Some(Found(99, r.v, 0))
            else
              && r.b <= n
              && if r.e <= 16 then Walk(tabs, t, n, s) == Some(Found(r.e, r.v, r.b))
                 else r.b > 0 && r.v.Sub?
                      && Walk(tabs, t, n, s) == Further(r.b, Walk(tabs, r.v.t, r.e - 16, s[r.b..]))
  {
  }

  lemma SliceTwice(s: BitString, a: nat, b: nat)
    requires a + b <= |s|
    ensures s[a..][b..] == s[a + b..]
  {
  }

  /** A walk over `all` has dropped `u` bits, stands at table `t`, will look up `n` bits, and ends in `f`. */
  ghost predicate Midway(tabs: seq<seq<Huft>>, all: BitString, u: nat, t: nat, n: nat, f: Found) {
    u <= |all| && Further(u, Walk(tabs, t, n, all[u..])) == Some(f)
  }

  lemma MidwayStep(tabs: seq<seq<Huft>>, all: BitString, u: nat, t: nat, n: nat, f: Found)
    requires Midway(tabs, all, u, t, n, f)
    ensures n <= BMAX && n <= |all| - u && t < |tabs| && LE(all[u..][..n]) < |tabs[t]|
    ensures var r := tabs[t][LE(all[u..][..n])];
            if r.e == 99 then f.e == 99 && f.v == r.v
            else
              && r.b <= n && all[u..][r.b..] == all[u + r.b..]
              && if r.e <= 16 then f == Found(r.e, r.v, u + r.b)
                 else r.b > 0 && r.v.Sub? && Midway(tabs, all, u + r.b, r.v.t, r.e - 16, f)
  {
    hide Walk, Further, LE;
    var s := all[u..];
    FurtherSum(u, 0, Walk(tabs, t, n, s));
    WalkStep(tabs, t, n, s);
    var r := tabs[t][LE(s[..n])];
    if r.e != 99 {
      SliceTwice(all, u, r.b);
      if r.e > 16 {
        FurtherSum(u, r.b, Walk(tabs, r.v.t, r.e - 16, s[r.b..]));
      }
    }
  }

  lemma MidwayStart(tabs: seq<seq<Huft>>, all: BitString, n: nat)
    requires Walk(tabs, 0, n, all).Some?
    ensures Midway(tabs, all, 0, 0, n, Walk(tabs, 0, n, all).value)
  {
    hide Walk;
    assert all[0..] == all;
  }

  /** Follows the tables from the first one to the entry of the next symbol; stops at an invalid one. */
  method WalkTables(input: BitReader, tabs: seq<seq<Huft>>, n0: nat) returns (e: nat, v: Link)
    requires input.Valid() && Walk(tabs, 0, n0, input.Rest()).Some?
    modifies input, input.inbuf
    ensures input.Valid()
    ensures var f := Walk(tabs, 0, n0, old(input.Rest())).value;
            && e == f.e && v == f.v
            && (e != 99 ==> f.used <= |old(input.Rest())| && input.Rest() == old(input.Rest())[f.used..])
  {
    hide Walk, Midway, LE, input.Valid, input.Rest, input.Peek;
    ghost var all := input.Rest();
    ghost var f := Walk(tabs, 0, n0, all).value;
    ghost var u: nat, t: nat := 0, 0;
    var n: nat := n0;
    assert all[0..] == all;
    MidwayStart(tabs, all, n);
    MidwayStep(tabs, all, u, t, n, f);
    input.NeedBits(n);
    input.PeekIs(n);
    var r := tabs[0][input.Peek(n)];
    while r.e > 16
      invariant input.Valid() && u <= |all| && input.Rest() == all[u..] && n <= input.bk
      invariant Midway(tabs, all, u, t, n, f)
      invariant n <= |all| - u && t < |tabs| && LE(all[u..][..n]) < |tabs[t]| && r == tabs[t][LE(all[u..][..n])]
      decreases |all| - u
    {
      MidwayStep(tabs, all, u, t, n, f);
      if r.e == 99 {
        return 99, r.v;
      }
      input.DumpBits(r.b);
      u := u + r.b;
      n := r.e - 16;
      t := r.v.t;
      MidwayStep(tabs, all, u, t, n, f);
      input.NeedBits(n);
      input.PeekIs(n);
      r := tabs[r.v.t][input.Peek(n)];
    }
    MidwayStep(tabs, all, u, t, n, f);
    input.DumpBits(r.b);
    return r.e, r.v;
  }

  // ---- tokens

  /** The two tables of a block and the bits to look up in them. */
  datatype Trees = Trees(tl: seq<seq<Huft>>, bl: nat, td: seq<seq<Huft>>, bd: nat)

  ghost predicate TreesOk(T: Trees, lit: seq<nat>, dist: seq<nat>) {
    && LengthsOk(lit) && |lit| <= N_MAX && Decodes(T.tl, T.bl, lit, 257, CPLENS, CPLEXT)
    && LengthsOk(dist) && |dist| <= 30 && Decodes(T.td, T.bd, dist, 0, CPDIST, CPDEXT) && Refuses(T.td, T.bd, dist)
  }

  /** Decodes the next symbol: its extra-bit entry and its value, or 99 for one that must not occur and for
      bits that are no symbol's code. */
  method DecodeSymbol(input: BitReader, tabs: seq<seq<Huft>>, n: nat,
                      ghost b: seq<nat>, ghost s: nat, ghost d: seq<nat>, ghost e: seq<nat>)
    returns (ext: nat, val: nat)
    requires input.Valid()
    requires if Symbol(b, input.Rest()).Got? then Decodes(tabs, n, b, s, d, e)
             else Unassigned(b, input.Rest()) && Refuses(tabs, n, b)
    modifies input, input.inbuf
    ensures input.Valid()
    ensures ext == if Symbol(b, old(input.Rest())).Got? then Extra(Symbol(b, old(input.Rest())).value, s, e) else 99
    ensures ext != 99 ==> val == Base(Symbol(b, old(input.Rest())).value, s, d)
                          && input.Rest() == Symbol(b, old(input.Rest())).rest
  {
    hide Walk, LE, Extra, Base, FindSymbol, Code, NoCode, input.Valid, input.Rest;
    if Symbol(b, input.Rest()).Got? {
      ghost var sym := Symbol(b, input.Rest()).value;
      SymbolHasCode(b, input.Rest());
      assert Means(Walk(tabs, 0, n, input.Rest()), sym, s, d, e, b[sym]);
    }
    var v;
    ext, v := WalkTables(input, tabs, n);
    val := if v.Num? then v.n else 0;
  }

  lemma SymbolHasCode(b: seq<nat>, rest: BitString)
    requires Symbol(b, rest).Got?
    ensures LengthsOk(b) && |rest| >= BMAX
    ensures var sym := Symbol(b, rest).value; sym < |b| && b[sym] > 0 && Code(b, sym) <= rest
  {
  }

  lemma LitMeaning(sym: nat)
    requires sym < N_MAX
    ensures sym < 256 ==> Extra(sym, 257, CPLEXT) == 16 && Base(sym, 257, CPLENS) == sym
    ensures sym == 256 ==> Extra(sym, 257, CPLEXT) == 15
    ensures 256 < sym < 286 ==>
          Extra(sym, 257, CPLEXT) == CPLEXT[sym - 257] <= 5 && Base(sym, 257, CPLENS) == CPLENS[sym - 257]
    ensures 286 <= sym ==> Extra(sym, 257, CPLEXT) == 99
  {
  }

  lemma DistMeaning(sym: nat)
    requires sym < 30
    ensures Extra(sym, 0, CPDEXT) == CPDEXT[sym] <= 13 && Base(sym, 0, CPDIST) == CPDIST[sym]
  {
  }

  /** The distance half of a match. */
  method NextDistance(input: BitReader, T: Trees, length: nat, ghost lit: seq<nat>, ghost dist: seq<nat>)
    returns (bad: bool, t: Token)
    requires input.Valid() && TreesOk(T, lit, dist)
    requires !DistanceOf(dist, length, input.Rest()).Unclear?
    modifies input, input.inbuf
    ensures input.Valid()
    ensures bad <==> DistanceOf(dist, length, old(input.Rest())).Bad?
    ensures !bad ==> DistanceOf(dist, length, old(input.Rest())) == Got(t, input.Rest())
  {
    hide LE, Extra, Base, Decodes, Refuses, Unassigned, Symbol, input.Valid, input.Rest, LengthsOk;
    SymbolKinds(dist, input.Rest());
    if Symbol(dist, input.Rest()).Got? {
      DistMeaning(Symbol(dist, input.Rest()).value);
    }
    var ext, val := DecodeSymbol(input, T.td, T.bd, dist, 0, CPDIST, CPDEXT);
    if ext == 99 {
      return true, EndOfBlock;
    }
    var x := input.Fetch(ext);
    bad, t := false, Match(length, val + x);
  }

  /** What each kind of symbol makes of the bits behind it. */
  lemma TokenCases(lit: seq<nat>, dist: seq<nat>, rest: BitString)
    requires !TokenOf(lit, dist, rest).Unclear? && |lit| <= N_MAX
    ensures Symbol(lit, rest).Got?
    ensures var sym, r1 := Symbol(lit, rest).value, Symbol(lit, rest).rest;
            var e, n := Extra(sym, 257, CPLEXT), Base(sym, 257, CPLENS);
            && sym < N_MAX
            && (sym < 256 ==> e == 16 && TokenOf(lit, dist, rest) == Got(Literal(n), r1))
            && (sym == 256 ==> e == 15 && TokenOf(lit, dist, rest) == Got(EndOfBlock, r1))
            && (256 < sym < 286 ==>
                  && e <= 5 && e <= |r1| && !DistanceOf(dist, n + LE(r1[..e]), r1[e..]).Unclear?
                  && TokenOf(lit, dist, rest) == DistanceOf(dist, n + LE(r1[..e]), r1[e..]))
            && (286 <= sym ==> e == 99 && TokenOf(lit, dist, rest).Bad?)
  {
    hide LE, Extra, Base, Symbol, DistanceOf, LengthOf;
    SymbolKinds(lit, rest);
    var sym, r1 := Symbol(lit, rest).value, Symbol(lit, rest).rest;
    if sym <= 256 {
      LitMeaning(sym);
    } else {
      MatchCase(sym, dist, r1);
    }
  }

  lemma MatchCase(sym: nat, dist: seq<nat>, rest: BitString)
    requires 256 < sym < N_MAX && !LengthOf(sym, dist, rest).Unclear?
    ensures var e, n := Extra(sym, 257, CPLEXT), Base(sym, 257, CPLENS);
            if sym < 286 then
              && e <= 5 && e <= |rest| && !DistanceOf(dist, n + LE(rest[..e]), rest[e..]).Unclear?
              && LengthOf(sym, dist, rest) == DistanceOf(dist, n + LE(rest[..e]), rest[e..])
            else e == 99 && LengthOf(sym, dist, rest).Bad?
  {
    hide LE, Extra, Base, Symbol, DistanceOf;
    LitMeaning(sym);
  }

  lemma SymbolKinds(b: seq<nat>, rest: BitString)
    ensures !Symbol(b, rest).Bad?
    ensures Symbol(b, rest).Got? ==> Symbol(b, rest).value < |b|
  {
    hide FindSymbol, Code;
  }

  /** The next token of a coded block. */
  method NextToken(input: BitReader, T: Trees, ghost lit: seq<nat>, ghost dist: seq<nat>) returns (bad: bool, t: Token)
    requires input.Valid() && TreesOk(T, lit, dist)
    requires !TokenOf(lit, dist, input.Rest()).Unclear?
    modifies input, input.inbuf
    ensures input.Valid()
    ensures bad <==> TokenOf(lit, dist, old(input.Rest())).Bad?
    ensures !bad ==> TokenOf(lit, dist, old(input.Rest())) == Got(t, input.Rest())
  {
    hide LE, Extra, Base, Decodes, Refuses, Symbol, DistanceOf, TokenOf, input.Valid, input.Rest, LengthsOk;
    TokenCases(lit, dist, input.Rest());
    var e, n := DecodeSymbol(input, T.tl, T.bl, lit, 257, CPLENS, CPLEXT);
    bad, t := false, EndOfBlock;
    if e == 99 {
      bad := true;
    } else if e == 16 {
      t := Literal(n);
    } else if e == 15 {
      t := EndOfBlock;
    } else {
      var x := input.Fetch(e);
      bad, t := NextDistance(input, T, n + x, lit, dist);
    }
  }

  // ---- block headers

  lemma Aligned(bk: nat, bytes: nat)
    requires bk <= 23
    ensures (bk + 8 * bytes) % 8 == bk % 8
    ensures bk - bk % 8 == 0 || bk - bk % 8 == 8 || bk - bk % 8 == 16
  {
  }

  /** A 16-bit field from a byte boundary leaves the bit buffer empty. */
  method FetchWord(input: BitReader) returns (v: nat)
    requires input.Valid() && |input.Rest()| >= 16 && input.bk in {0, 8, 16}
    modifies input, input.inbuf
    ensures input.Valid() && input.bk == 0
    ensures v == LE(old(input.Rest())[..16]) && input.Rest() == old(input.Rest())[16..]
  {
    hide LE, input.Valid, input.Rest, input.Peek;
    input.RestLength();
    input.NeedBits(16);
    input.RestLength();
    input.PeekIs(16);
    v := input.Peek(16);
    input.DumpBits(16);
  }

  /** Length and complement of a stored block, from the next byte boundary. */
  method InitStoredBlock(input: BitReader) returns (bad: bool, len: nat)
    requires input.Valid() && !StoredHeader(input.Rest()).Unclear?
    modifies input, input.inbuf
    ensures input.Valid()
    ensures bad <==> StoredHeader(old(input.Rest())).Bad?
    ensures !bad ==> StoredHeader(old(input.Rest())) == Got(if len == 0 then Between else Stored(len), input.Rest())
                     && input.bk == 0
  {
    hide LE, input.Valid, input.Rest, input.Peek;
    input.RestLength();
    Aligned(input.bk, |input.file| - input.Next());
    input.DumpBits(input.bk % 8);
    len := FetchWord(input);
    var nlen := FetchWord(input);
    bad := len + nlen != 0xffff;
  }
}
