/** What a set of multi-level tables under construction means, and why each building step keeps it. */
module HuftLayout {
  import opened Words
  import opened Arith
  import opened Bits
  import opened Huffman
  import opened HuftSpace

  /** A table serves the bit strings that start with `pre`; it looks at `width` more bits. */
  datatype Table = Table(pre: BitString, width: nat)

  /** A bit string for which table `home` holds `entry`. */
  datatype Claim = Claim(home: nat, entry: Huft)

  datatype Layout = Layout(l: nat, tabs: seq<seq<Huft>>, info: seq<Table>, claims: map<BitString, Claim>)

  /** Bits decoded before a table of the given level. */
  function Level(l: nat, h: nat): nat {
    l * h
  }

  lemma LevelStep(l: nat, h: nat)
    ensures Level(l, h + 1) == Level(l, h) + l && Level(l, 0) == 0
  {
  }

  lemma LevelMono(l: nat, h: nat, t: nat)
    requires h <= t
    ensures Level(l, h) <= Level(l, t)
  {
    assert l * (t - h) >= 0;
  }

  /** Every index that starts with `tail`, among those a lookup of at most `l` bits can reach, holds `r`. */
  ghost predicate Match(tab: seq<Huft>, l: nat, tail: BitString, r: Huft) {
    forall m: nat :: m < |tab| && m < Pow2(l) && LowBits(m, |tail|) == LE(tail) ==> tab[m] == r
  }

  /** `to` is `tab` with `r` written for every index that starts with `tail`. */
  ghost predicate Painted(tab: seq<Huft>, to: seq<Huft>, l: nat, tail: BitString, r: Huft) {
    && |to| == |tab|
    && forall m: nat :: m < |tab| && m < Pow2(l) ==>
         to[m] == if LowBits(m, |tail|) == LE(tail) then r else tab[m]
  }

  /** No code under the table is longer than the table is wide, or the table is wide enough for links. */
  ghost predicate Roomy(c: seq<nat>, l: nat, t: Table)
    requires |c| == BMAX + 1
  {
    && |t.pre| <= BMAX
    && (t.width < l ==> |t.pre| + t.width <= BMAX && Space(c, |t.pre| + t.width) >= End(t.pre))
  }

  ghost predicate TableOk(L: Layout, narrow: bool, c: seq<nat>, t: nat)
    requires |c| == BMAX + 1 && t < |L.info| == |L.tabs|
  {
    var T := L.info[t];
    && |L.tabs[t]| == Pow2(T.width) && Roomy(c, L.l, T)
    && if t == 0 then T.pre == [] && T.width >= L.l
       else
         && T.pre in L.claims
         && var p := L.claims[T.pre];
         && p.home < t && T.width >= 1
         && p.entry == Huft(16 + T.width, L.l, Sub(t))
         && |T.pre| == |L.info[p.home].pre| + L.l
         && (narrow ==> T.width <= L.l && |T.pre| + T.width <= BMAX)
  }

  ghost predicate ClaimOk(L: Layout, C: BitString)
    requires |L.info| == |L.tabs| && C in L.claims
  {
    var p := L.claims[C];
    && |C| <= BMAX && p.home < |L.info|
    && var pre := L.info[p.home].pre;
    && pre < C && |C| <= |pre| + L.l && |C| <= |pre| + L.info[p.home].width
    && p.entry.b == |C| - |pre|
    && Match(L.tabs[p.home], L.l, C[|pre|..], p.entry)
  }

  ghost predicate Shape(L: Layout, narrow: bool, c: seq<nat>)
    requires |c| == BMAX + 1
  {
    && 1 <= L.l <= BMAX && |L.info| == |L.tabs|
    && (forall t: nat :: t < |L.info| ==> TableOk(L, narrow, c, t))
    && (forall C :: C in L.claims ==> ClaimOk(L, C))
  }

  /** The code space position as a bit string. */
  function At(pos: nat): (s: BitString)
    ensures |s| == BMAX
  {
    BEBits(pos, BMAX)
  }

  lemma AtValue(pos: nat)
    requires pos < FULL
    ensures BE(At(pos)) == pos
  {
    Pow2Word();
    BEOfBits(pos, BMAX);
  }

  ghost predicate OnStack(l: nat, P: BitString, h: int, C: BitString) {
    exists t: nat :: 0 < t <= h && Level(l, t) <= |P| && C == P[..Level(l, t)]
  }

  /** Everything claimed lies before the current position, or is the prefix of an open table. */
  ghost predicate Behind(L: Layout, pos: nat, h: int) {
    forall C :: C in L.claims ==> |C| <= BMAX && (End(C) <= pos || OnStack(L.l, At(pos), h, C))
  }

  ghost predicate Stacked(L: Layout, pos: nat, u: seq<nat>, x: seq<nat>, h: int) {
    && |u| == BMAX && |x| == BMAX + 1 && -1 <= h < BMAX
    && (forall t: nat :: t <= h ==> StackedAt(L, pos, u, x, t))
  }

  ghost predicate StackedAt(L: Layout, pos: nat, u: seq<nat>, x: seq<nat>, t: nat)
    requires t < |u| && t < |x|
  {
    && Level(L.l, t) <= BMAX && u[t] < |L.info|
    && L.info[u[t]].pre == At(pos)[..Level(L.l, t)]
    && x[t] == LE(At(pos)[..Level(L.l, t)])
  }

  ghost predicate Ready(L: Layout, narrow: bool, c: seq<nat>, pos: nat, u: seq<nat>, x: seq<nat>, h: int)
    requires |c| == BMAX + 1
  {
    Shape(L, narrow, c) && Behind(L, pos, h) && Stacked(L, pos, u, x, h)
  }

  /** Two strings that both start the same index are comparable. */
  lemma Overlap(m: nat, a: BitString, b: BitString)
    requires |a| <= |b| && LowBits(m, |a|) == LE(a) && LowBits(m, |b|) == LE(b)
    ensures a <= b
  {
    hide LE, Pow2;
    var k := |b| - |a|;
    Pow2Add(|a|, k);
    ModOfMod(m, Pow2(|a|), Pow2(k));
    LEPrefix(b, |a|);
    LEInjective(a, b[..|a|]);
  }

  lemma Repaint(tab: seq<Huft>, to: seq<Huft>, l: nat, ct: BitString, ce: Huft, dt: BitString, de: Huft)
    requires Match(tab, l, ct, ce) && Painted(tab, to, l, dt, de)
    requires !(ct <= dt) && !(dt <= ct)
    ensures Match(to, l, ct, ce)
  {
    hide LE, Pow2, LowBits;
    forall m: nat | m < |to| && m < Pow2(l) && LowBits(m, |ct|) == LE(ct)
      ensures to[m] == ce
    {
      if LowBits(m, |dt|) == LE(dt) {
        if |ct| <= |dt| {
          Overlap(m, ct, dt);
        } else {
          Overlap(m, dt, ct);
        }
      }
    }
  }

  /** Nothing that ends before the position is comparable with a string that starts there. */
  lemma Apart(C: BitString, D: BitString)
    requires |C| <= BMAX && |D| <= BMAX && End(C) <= Start(D)
    ensures !(C <= D) && !(D <= C)
  {
    hide Start, End;
    if C <= D {
      Nest(C, D);
    }
    if D <= C {
      Nest(D, C);
    }
  }

  /** `L` after writing `to` into table `top` for the new claim `D`. */
  function Claimed(L: Layout, top: nat, D: BitString, r: Huft, to: seq<Huft>): Layout
    requires top < |L.tabs|
  {
    L.(tabs := L.tabs[top := to], claims := L.claims[D := Claim(top, r)])
  }

  ghost predicate Claimable(L: Layout, pos: nat, h: int, top: nat, D: BitString, r: Huft) {
    && h >= 0 && Level(L.l, h) <= BMAX && top < |L.info|
    && var pre := At(pos)[..Level(L.l, h)];
    && L.info[top].pre == pre
    && pos < FULL && D <= At(pos) && |pre| < |D| <= |pre| + L.l
    && |D| <= |pre| + L.info[top].width
    && Start(D) == pos && r.b == |D| - |pre|
  }

  lemma NewClaimApart(L: Layout, narrow: bool, c: seq<nat>, pos: nat, h: int, top: nat, D: BitString, r: Huft,
                      C: BitString)
    requires |c| == BMAX + 1 && Shape(L, narrow, c) && Behind(L, pos, h)
    requires Claimable(L, pos, h, top, D, r)
    requires C in L.claims
    ensures L.claims[C].home == top || C == D ==> !(C <= D) && !(D <= C)
  {
    hide Start, End, Level, TableOk, Match, At, Unit, Pow2;
    assert ClaimOk(L, C);
    if End(C) <= pos {
      Apart(C, D);
    } else {
      var t: nat :| 0 < t <= h && Level(L.l, t) <= BMAX && C == At(pos)[..Level(L.l, t)];
      LevelMono(L.l, t, h);
    }
  }

  lemma ClaimKeepsTable(L: Layout, narrow: bool, c: seq<nat>, top: nat, D: BitString, r: Huft, to: seq<Huft>, t: nat)
    requires |c| == BMAX + 1 && t < |L.info| == |L.tabs| && top < |L.info|
    requires TableOk(L, narrow, c, t)
    requires D !in L.claims && |to| == |L.tabs[top]|
    ensures TableOk(Claimed(L, top, D, r, to), narrow, c, t)
  {
    hide Roomy, Pow2;
  }

  lemma ClaimKeepsClaim(L: Layout, top: nat, D: BitString, r: Huft, to: seq<Huft>, C: BitString)
    requires top < |L.info| == |L.tabs| && C in L.claims && ClaimOk(L, C)
    requires D !in L.claims && L.info[top].pre <= D && |to| == |L.tabs[top]|
    requires L.claims[C].home == top ==> !(C <= D) && !(D <= C)
    requires Painted(L.tabs[top], to, L.l, D[|L.info[top].pre|..], r)
    ensures ClaimOk(Claimed(L, top, D, r, to), C)
  {
    hide Match, Painted;
    if L.claims[C].home == top {
      var n := |L.info[top].pre|;
      assert C[..n] == D[..n];
      assert C == C[..n] + C[n..] && D == D[..n] + D[n..];
      Repaint(L.tabs[top], to, L.l, C[n..], L.claims[C].entry, D[n..], r);
    }
  }

  lemma NewClaimOk(L: Layout, pos: nat, h: int, top: nat, D: BitString, r: Huft, to: seq<Huft>)
    requires |L.info| == |L.tabs| && Claimable(L, pos, h, top, D, r)
    requires Painted(L.tabs[top], to, L.l, D[Level(L.l, h)..], r)
    ensures ClaimOk(Claimed(L, top, D, r, to), D)
  {
    hide Level, At, LE, LowBits, Pow2, Start;
    assert Match(to, L.l, D[Level(L.l, h)..], r);
  }

  lemma AddClaim(L: Layout, narrow: bool, c: seq<nat>, pos: nat, h: int, top: nat, D: BitString, r: Huft, to: seq<Huft>)
    requires |c| == BMAX + 1 && Shape(L, narrow, c) && Behind(L, pos, h)
    requires Claimable(L, pos, h, top, D, r)
    requires Painted(L.tabs[top], to, L.l, D[Level(L.l, h)..], r)
    ensures Shape(Claimed(L, top, D, r, to), narrow, c)
    ensures D !in L.claims
  {
    hide Roomy, Pow2, Level, Behind, TableOk, ClaimOk, Painted, At, Start;
    var N := Claimed(L, top, D, r, to);
    if D in L.claims {
      NewClaimApart(L, narrow, c, pos, h, top, D, r, D);
    }
    assert |to| == |L.tabs[top]| by { PaintedLength(L.tabs[top], to, L.l, D[Level(L.l, h)..], r); }
    forall t: nat | t < |N.info|
      ensures TableOk(N, narrow, c, t)
    {
      ClaimKeepsTable(L, narrow, c, top, D, r, to, t);
    }
    forall C | C in N.claims
      ensures ClaimOk(N, C)
    {
      if C == D {
        NewClaimOk(L, pos, h, top, D, r, to);
      } else {
        NewClaimApart(L, narrow, c, pos, h, top, D, r, C);
        ClaimKeepsClaim(L, top, D, r, to, C);
      }
    }
  }

  lemma PaintedLength(tab: seq<Huft>, to: seq<Huft>, l: nat, tail: BitString, r: Huft)
    requires Painted(tab, to, l, tail, r)
    ensures |to| == |tab|
  {
  }

  /** `L` with one more table. */
  function Appended(L: Layout, T: Table, tab: seq<Huft>): Layout {
    L.(tabs := L.tabs + [tab], info := L.info + [T])
  }

  lemma AppendKeepsShape(L: Layout, narrow: bool, c: seq<nat>, T: Table, tab: seq<Huft>)
    requires |c| == BMAX + 1 && Shape(L, narrow, c)
    requires TableOk(Appended(L, T, tab), narrow, c, |L.info|)
    ensures Shape(Appended(L, T, tab), narrow, c)
  {
    var N := Appended(L, T, tab);
    forall t: nat | t < |N.info|
      ensures TableOk(N, narrow, c, t)
    {
      hide Roomy, Pow2, ClaimOk;
      if t < |L.info| {
        assert TableOk(L, narrow, c, t);
        assert N.info[t] == L.info[t] && N.tabs[t] == L.tabs[t];
        if t > 0 {
          assert ClaimOk(L, L.info[t].pre);
        }
      }
    }
    forall C | C in N.claims
      ensures ClaimOk(N, C)
    {
      hide Roomy, Pow2, TableOk, Match;
      assert ClaimOk(L, C);
    }
  }

  lemma StackedGrows(L: Layout, N: Layout, pos: nat, u: seq<nat>, x: seq<nat>, h: int)
    requires Stacked(L, pos, u, x, h)
    requires N.l == L.l && |L.info| <= |N.info|
    requires forall t: nat :: t < |L.info| ==> N.info[t] == L.info[t]
    ensures Stacked(N, pos, u, x, h)
  {
    hide Level, LE, At;
    forall t: nat | t <= h
      ensures StackedAt(N, pos, u, x, t)
    {
      assert StackedAt(L, pos, u, x, t);
    }
  }

  /** The zeros behind a prefix do not count. */
  lemma ValueOfFresh(P: BitString, n: nat)
    requires n <= |P| == BMAX && Start(P[..n]) == BE(P)
    ensures LE(P) == LE(P[..n])
  {
    hide LE, BE, Pow2, Start;
    ZeroTail(P, n);
    assert P == P[..n] + Zeros(BMAX - n);
    LEZeros(Zeros(BMAX - n));
    LEAppend(P[..n], Zeros(BMAX - n));
    ZeroTimes(Pow2(n));
  }

  /** The first table. */
  lemma PushRoot(l: nat, narrow: bool, c: seq<nat>, junk: seq<Huft>, width: nat, u: seq<nat>, x: seq<nat>)
    requires |c| == BMAX + 1 && 1 <= l <= BMAX && |u| == BMAX && |x| == BMAX + 1
    requires |junk| == Pow2(width) && l <= width
    requires u[0] == 0 && x[0] == 0
    ensures Ready(Layout(l, [junk], [Table([], width)], map[]), narrow, c, 0, u, x, 0)
  {
    hide Pow2;
    LevelStep(l, 0);
  }

  ghost predicate Pushable(L: Layout, narrow: bool, c: seq<nat>, pos: nat, u: seq<nat>, h: int, J: nat)
    requires |c| == BMAX + 1 && |u| == BMAX
  {
    && J >= 1 && 0 <= h < BMAX - 1 && Level(L.l, h + 1) < BMAX
    && u[h] < |L.info| && L.info[u[h]].width >= L.l
    && pos < FULL && Start(At(pos)[..Level(L.l, h + 1)]) == pos
    && Roomy(c, L.l, Table(At(pos)[..Level(L.l, h + 1)], J))
    && (narrow ==> J <= L.l && Level(L.l, h + 1) + J <= BMAX)
  }

  function LinkTo(L: Layout, J: nat): Huft {
    Huft(16 + J, L.l, Sub(|L.info|))
  }

  function Pushed(L: Layout, top: nat, D: BitString, J: nat, to: seq<Huft>, junk: seq<Huft>): Layout
    requires top < |L.tabs|
  {
    Appended(Claimed(L, top, D, LinkTo(L, J), to), Table(D, J), junk)
  }

  /** A table for the current position, linked from the one above it. */
  lemma PushChild(L: Layout, narrow: bool, c: seq<nat>, pos: nat, u: seq<nat>, x: seq<nat>, h: int,
                  J: nat, to: seq<Huft>, junk: seq<Huft>)
    requires |c| == BMAX + 1 && Ready(L, narrow, c, pos, u, x, h)
    requires Pushable(L, narrow, c, pos, u, h, J) && |junk| == Pow2(J)
    requires Level(L.l, h) <= Level(L.l, h + 1)
    requires Painted(L.tabs[u[h]], to, L.l, At(pos)[Level(L.l, h)..Level(L.l, h + 1)], LinkTo(L, J))
    ensures Ready(Pushed(L, u[h], At(pos)[..Level(L.l, h + 1)], J, to, junk), narrow, c, pos,
                  u[h + 1 := |L.info|], x[h + 1 := LE(At(pos))], h + 1)
  {
    hide Pow2, At, Level, LE, BE, Start, Painted, Roomy;
    var n := Level(L.l, h);
    var D := At(pos)[..Level(L.l, h + 1)];
    LevelStep(L.l, h);
    assert StackedAt(L, pos, u, x, h);
    var M := Claimed(L, u[h], D, LinkTo(L, J), to);
    assert D[n..] == At(pos)[n..Level(L.l, h + 1)];
    AddClaim(L, narrow, c, pos, h, u[h], D, LinkTo(L, J), to);
    var N := Appended(M, Table(D, J), junk);
    AppendKeepsShape(M, narrow, c, Table(D, J), junk);
    PushKeepsRest(L, narrow, c, pos, u, x, h, J, to, junk);
  }

  lemma PushKeepsRest(L: Layout, narrow: bool, c: seq<nat>, pos: nat, u: seq<nat>, x: seq<nat>, h: int,
                      J: nat, to: seq<Huft>, junk: seq<Huft>)
    requires |c| == BMAX + 1 && |L.info| == |L.tabs|
    requires Behind(L, pos, h) && Stacked(L, pos, u, x, h) && Pushable(L, narrow, c, pos, u, h, J)
    ensures Behind(Pushed(L, u[h], At(pos)[..Level(L.l, h + 1)], J, to, junk), pos, h + 1)
    ensures Stacked(Pushed(L, u[h], At(pos)[..Level(L.l, h + 1)], J, to, junk), pos,
                    u[h + 1 := |L.info|], x[h + 1 := LE(At(pos))], h + 1)
  {
    hide Pow2, At, Level, LE, BE, Start, End, Roomy;
    var D := At(pos)[..Level(L.l, h + 1)];
    var N := Pushed(L, u[h], D, J, to, junk);
    var u', x' := u[h + 1 := |L.info|], x[h + 1 := LE(At(pos))];
    forall C | C in N.claims
      ensures |C| <= BMAX && (End(C) <= pos || OnStack(L.l, At(pos), h + 1, C))
    {
      if C == D {
        assert C == At(pos)[..Level(L.l, h + 1)];
      } else {
        assert C in L.claims;
      }
    }
    AtValue(pos);
    ValueOfFresh(At(pos), Level(L.l, h + 1));
    forall t: nat | t <= h + 1
      ensures StackedAt(N, pos, u', x', t)
    {
      if t <= h {
        assert StackedAt(L, pos, u, x, t);
      }
    }
  }

  /** The position after a code of `k` bits, and how far the stack goes back for it. */
  ghost predicate Backed(L: Layout, pos: nat, next: nat, k: nat, x: seq<nat>, h: int, h': int)
    requires |x| == BMAX + 1
  {
    && 0 <= h' <= h < BMAX && k <= BMAX && Level(L.l, h') <= Level(L.l, h) < k
    && pos < FULL && next <= FULL && next == End(At(pos)[..k])
    && LowBits(LE(At(next)), Level(L.l, h')) == x[h']
    && (h' < h ==> LowBits(LE(At(next)), Level(L.l, h' + 1)) != x[h' + 1])
  }

  lemma BackKeepsStack(L: Layout, pos: nat, next: nat, k: nat, u: seq<nat>, x: seq<nat>, h: int, h': int)
    requires Stacked(L, pos, u, x, h) && Backed(L, pos, next, k, x, h, h')
    ensures Stacked(L, next, u, x, h')
    ensures At(pos)[..Level(L.l, h')] == At(next)[..Level(L.l, h')]
    ensures h' < h ==> Level(L.l, h' + 1) <= k
                       && At(pos)[..Level(L.l, h' + 1)] != At(next)[..Level(L.l, h' + 1)]
  {
    hide At, Level, LE, BE, Pow2, End;
    var n := Level(L.l, h');
    LevelMono(L.l, h', h);
    assert StackedAt(L, pos, u, x, h');
    LEPrefix(At(next), n);
    LEInjective(At(pos)[..n], At(next)[..n]);
    forall t: nat | t <= h'
      ensures StackedAt(L, next, u, x, t)
    {
      assert StackedAt(L, pos, u, x, t);
      LevelMono(L.l, t, h');
      assert At(pos)[..Level(L.l, t)] == At(pos)[..n][..Level(L.l, t)];
      assert At(next)[..Level(L.l, t)] == At(next)[..n][..Level(L.l, t)];
    }
    if h' < h {
      LevelMono(L.l, h' + 1, h);
      assert StackedAt(L, pos, u, x, h' + 1);
      LEPrefix(At(next), Level(L.l, h' + 1));
    }
  }

  lemma EndBelowFull(C: BitString)
    requires |C| <= BMAX
    ensures End(C) <= FULL
  {
    hide BE, Pow2;
    BEBelow(C);
    Pow2Add(|C|, BMAX - |C|);
    Pow2Word();
    TimesMono(BE(C) + 1, Pow2(|C|), Unit(|C|));
    TimesIs(Pow2(|C|), Unit(|C|));
  }

  lemma PrefixesAgree(c: BitString, s: BitString, t: BitString, n: nat)
    requires c <= s && c <= t && n <= |c|
    ensures s[..n] == c[..n] == t[..n]
  {
  }

  /** One claim after the step: it ends by the new position or heads a table that is still open. */
  lemma BackKeepsClaim(L: Layout, pos: nat, next: nat, k: nat, u: seq<nat>, x: seq<nat>, h: int, h': int, C: BitString)
    requires Stacked(L, pos, u, x, h) && Backed(L, pos, next, k, x, h, h')
    requires |C| <= BMAX && (End(C) <= pos || OnStack(L.l, At(pos), h, C) || C == At(pos)[..k])
    requires pos <= next
    ensures End(C) <= next || OnStack(L.l, At(next), h', C)
  {
    hide At, Level, LE, BE, Pow2, End, Start, Stacked;
    BackKeepsStack(L, pos, next, k, u, x, h, h');
    if next == FULL {
      EndBelowFull(C);
    } else if End(C) > pos && C != At(pos)[..k] {
      var t: nat :| 0 < t <= h && Level(L.l, t) <= BMAX && C == At(pos)[..Level(L.l, t)];
      AtValue(next);
      LevelMono(L.l, t, h);
      if C <= At(next) {
        if t > h' {
          LevelMono(L.l, h' + 1, t);
          PrefixesAgree(C, At(pos), At(next), Level(L.l, h' + 1));
        }
      } else {
        Leave(C, At(pos)[..k], At(pos), At(next));
      }
    }
  }

  /** Writing the current code and going on to the next position. */
  lemma PlaceCode(L: Layout, narrow: bool, c: seq<nat>, pos: nat, next: nat, k: nat, u: seq<nat>, x: seq<nat>,
                  h: int, h': int, r: Huft, to: seq<Huft>)
    requires |c| == BMAX + 1 && Ready(L, narrow, c, pos, u, x, h)
    requires Backed(L, pos, next, k, x, h, h') && pos <= next
    requires u[h] < |L.info| && Claimable(L, pos, h, u[h], At(pos)[..k], r)
    requires Painted(L.tabs[u[h]], to, L.l, At(pos)[Level(L.l, h)..k], r)
    ensures Ready(Claimed(L, u[h], At(pos)[..k], r, to), narrow, c, next, u, x, h')
    ensures At(pos)[..k] !in L.claims
    ensures next < FULL && Level(L.l, h' + 1) <= BMAX ==> Start(At(next)[..Level(L.l, h' + 1)]) == next
  {
    hide At, Level, LE, BE, Pow2, End, Start, Painted, Roomy, TableOk, ClaimOk;
    var D := At(pos)[..k];
    var n := Level(L.l, h);
    LevelStep(L.l, h);
    assert D[n..] == At(pos)[n..k];
    AddClaim(L, narrow, c, pos, h, u[h], D, r, to);
    var N := Claimed(L, u[h], D, r, to);
    StackedGrows(L, N, pos, u, x, h);
    BackKeepsStack(N, pos, next, k, u, x, h, h');
    forall C | C in N.claims
      ensures |C| <= BMAX && (End(C) <= next || OnStack(L.l, At(next), h', C))
    {
      BackKeepsClaim(N, pos, next, k, u, x, h, h', C);
    }
    if next < FULL && Level(L.l, h' + 1) <= BMAX {
      AtValue(next);
      if h' < h {
        Fresh(At(pos), At(next), D, Level(L.l, h' + 1));
      } else {
        FreshPastCode(L, pos, next, k, h);
      }
    }
  }

  lemma FreshPastCode(L: Layout, pos: nat, next: nat, k: nat, h: nat)
    requires k <= BMAX && Level(L.l, h + 1) <= BMAX && k <= Level(L.l, h + 1)
    requires pos < FULL && next < FULL && next == End(At(pos)[..k])
    ensures Start(At(next)[..Level(L.l, h + 1)]) == next
  {
    hide At, Level, LE, BE, Pow2, End, Start;
    AtValue(pos);
    AtValue(next);
    if At(pos)[..k] == At(next)[..k] {
      assert At(pos)[..k] <= At(next);
      Within(At(pos)[..k], At(next));
      assert false;
    } else {
      Fresh(At(pos), At(next), At(pos)[..k], k);
      StartGrows(At(next), k, Level(L.l, h + 1));
    }
  }

  /** How many bits a walk that has reached table `t` looks up there. */
  function LookupBits(L: Layout, t: nat): nat
    requires t < |L.info|
  {
    if t == 0 then L.l else L.info[t].width
  }

  lemma LookupHits(L: Layout, narrow: bool, c: seq<nat>, C: BitString, s: BitString)
    requires |c| == BMAX + 1 && Shape(L, narrow, c) && narrow
    requires C in L.claims && C <= s && |s| >= BMAX
    ensures L.claims[C].home < |L.info| && L.info[L.claims[C].home].pre <= s
    ensures var t := L.claims[C].home; var n := |L.info[t].pre|;
            && LookupBits(L, t) <= |s| - n && LookupBits(L, t) <= BMAX
            && LE(s[n..][..LookupBits(L, t)]) < |L.tabs[t]|
            && L.tabs[t][LE(s[n..][..LookupBits(L, t)])] == L.claims[C].entry
            && L.claims[C].entry.b == |C| - n && 0 < |C| - n <= LookupBits(L, t)
  {
    hide LE, Pow2, Roomy;
    assert ClaimOk(L, C);
    var t := L.claims[C].home;
    assert TableOk(L, narrow, c, t);
    var n := |L.info[t].pre|;
    var b := LookupBits(L, t);
    assert b <= |s| - n && |C| - n <= b;
    var look := s[n..][..b];
    LEBelow(look);
    Pow2Mono(b, L.info[t].width);
    Pow2Mono(b, L.l);
    LEPrefix(look, |C| - n);
    assert look[..|C| - n] == C[n..];
    assert LowBits(LE(look), |C| - n) == LE(C[n..]);
  }

  lemma FurtherTwice(a: nat, b: nat, f: Option<Found>)
    ensures Further(a, Further(b, f)) == Further(a + b, f) && Further(0, f) == f
  {
  }

  /** A walk reaches every table whose prefix the bits start with. */
  lemma {:induction false} WalkReaches(L: Layout, narrow: bool, c: seq<nat>, t: nat, s: BitString)
    requires |c| == BMAX + 1 && Shape(L, narrow, c) && narrow
    requires t < |L.info| && L.info[t].pre <= s && |s| >= BMAX
    ensures Walk(L.tabs, 0, L.l, s)
         == Further(|L.info[t].pre|, Walk(L.tabs, t, LookupBits(L, t), s[|L.info[t].pre|..]))
    decreases t
  {
    hide Walk, LE, Pow2, Roomy, ClaimOk, Further;
    assert TableOk(L, narrow, c, t);
    if t == 0 {
      assert s[0..] == s;
      FurtherTwice(0, 0, Walk(L.tabs, 0, L.l, s));
    } else {
      var D := L.info[t].pre;
      var p := L.claims[D].home;
      LookupHits(L, narrow, c, D, s);
      WalkReaches(L, narrow, c, p, s);
      var n := |L.info[p].pre|;
      WalkLink(L.tabs, p, LookupBits(L, p), s[n..], L.claims[D].entry);
      assert s[n..][L.l..] == s[|D|..];
      FurtherTwice(n, L.l, Walk(L.tabs, t, L.info[t].width, s[|D|..]));
    }
  }

  lemma WalkLink(tabs: seq<seq<Huft>>, t: nat, n: nat, s: BitString, r: Huft)
    requires n <= |s| && n <= BMAX && t < |tabs| && LE(s[..n]) < |tabs[t]| && tabs[t][LE(s[..n])] == r
    requires 0 < r.b <= n && r.e > 16 && r.e != 99 && r.v.Sub?
    ensures Walk(tabs, t, n, s) == Further(r.b, Walk(tabs, r.v.t, r.e - 16, s[r.b..]))
  {
  }

  lemma WalkEnd(tabs: seq<seq<Huft>>, t: nat, n: nat, s: BitString, r: Huft)
    requires n <= |s| && n <= BMAX && t < |tabs| && LE(s[..n]) < |tabs[t]| && tabs[t][LE(s[..n])] == r
    requires r.b <= n && (r.e <= 16 || r.e == 99)
    ensures Walk(tabs, t, n, s) == Some(Found(r.e, r.v, if r.e == 99 then 0 else r.b))
  {
  }

  /** Decoding bits that start with a claimed code gives its entry and drops the whole code. */
  lemma WalkFinds(L: Layout, narrow: bool, c: seq<nat>, C: BitString, s: BitString)
    requires |c| == BMAX + 1 && Shape(L, narrow, c) && narrow
    requires C in L.claims && C <= s && |s| >= BMAX
    requires L.claims[C].entry.e <= 16 || L.claims[C].entry.e == 99
    ensures var r := L.claims[C].entry; var f := Walk(L.tabs, 0, L.l, s);
            f.Some? && f.value.e == r.e && f.value.v == r.v && (r.e != 99 ==> f.value.used == |C|)
  {
    hide Walk, LE, Pow2, Roomy, ClaimOk, TableOk;
    LookupHits(L, narrow, c, C, s);
    var t := L.claims[C].home;
    WalkReaches(L, narrow, c, t, s);
    WalkEnd(L.tabs, t, LookupBits(L, t), s[|L.info[t].pre|..], L.claims[C].entry);
  }
}
