/** The table builder: canonical codes become multi-level lookup tables. */
module HuftBuilder {
  import opened Words
  import opened Arith
  import opened Bits
  import opened Huffman
  import opened HuftSpace
  import opened HuftCounts
  import opened HuftLayout

  // ---- how wide to make a table

  /** All codes from length `k` on, as if each took as much space as one of `k` bits. */
  lemma {:induction false} SpaceByCount(c: seq<nat>, k: nat, g: nat)
    requires |c| == BMAX + 1 && 1 <= k <= g + 1 && g <= BMAX && k <= BMAX
    ensures Total(c, g) >= Total(c, k - 1)
    ensures Space(c, g) <= Space(c, k - 1) + Times(Total(c, g) - Total(c, k - 1), Unit(k))
    decreases g
  {
    hide Times, Pow2;
    if g < k {
      ZeroTimes(Unit(k));
    } else {
      SpaceByCount(c, k, g - 1);
      Pow2Mono(BMAX - g, BMAX - k);
      TimesMonoRight(c[g], Unit(g), Unit(k));
      TimesAdd(Total(c, g - 1) - Total(c, k - 1), c[g], Unit(k));
    }
  }

  lemma TimesMonoRight(x: nat, p: nat, q: nat)
    requires p <= q
    ensures Times(x, p) <= Times(x, q)
  {
    assert x * (q - p) >= 0;
    assert x * (q - p) == x * q - x * p;
  }

  lemma TimesCancel(x: nat, y: nat, p: nat)
    requires p > 0 && Times(x, p) <= Times(y, p)
    ensures x <= y
  {
    if x > y {
      TimesMono(y + 1, x, p);
      TimesStep(y, p);
    }
  }

  lemma Pow2Less(a: nat, b: nat)
    requires Pow2(a) < Pow2(b)
    ensures a < b
  {
    if b <= a {
      Pow2Mono(b, a);
    }
  }

  lemma UnitPatterns(w: nat, k: nat)
    requires w <= k <= BMAX
    ensures Times(Pow2(k - w), Unit(k)) == Unit(w)
  {
    hide Pow2;
    UnitSplit(w, k);
    TimesIs(Pow2(k - w), Unit(k));
  }

  /** A subtree of the code space that holds only codes of at least `k` bits holds many of them. */
  lemma SubtreeIsBig(c: seq<nat>, g: nat, w: nat, k: nat, l: nat, pos: nat)
    requires |c| == BMAX + 1 && w < k <= g <= BMAX && Space(c, g) == FULL
    requires Space(c, k - 1) <= pos && pos + Unit(w) <= FULL
    requires Total(c, BMAX) < Pow2(l)
    ensures k - w < l
  {
    hide Pow2, Times, Total, Space, Unit;
    SpaceByCount(c, k, g);
    TotalMono(c, g, BMAX);
    UnitPatterns(w, k);
    TimesMono(Total(c, g) - Total(c, k - 1), Total(c, BMAX), Unit(k));
    TimesCancel(Pow2(k - w), Total(c, BMAX), Unit(k));
    Pow2Less(k - w, l);
  }

  /** The widths at which every table below the first stays within the `l` bits its links have. */
  ghost predicate Narrow(c: seq<nat>, g: nat, l: nat)
    requires |c| == BMAX + 1
  {
    g < 2 * l || Total(c, BMAX) < Pow2(l)
  }

  /** Chooses the width of a new table, `a` codes of `k` bits being left after the current one. */
  method SizeTable(c: seq<nat>, l: nat, g: nat, w: nat, k: nat, a: nat, ghost pos: nat) returns (j: nat)
    requires |c| == BMAX + 1 && 1 <= l <= g <= BMAX && w < k <= g
    requires Space(c, g) == FULL && Space(c, g - 1) < FULL
    requires Space(c, k - 1) <= pos && pos + Unit(w) <= FULL
    requires pos + Times(a + 1, Unit(k)) == Space(c, k)
    ensures j >= 1
    ensures j < l ==> w + j <= BMAX && Space(c, w + j) >= pos + Unit(w)
    ensures w == 0 ==> j >= l
    ensures l <= w && Narrow(c, g, l) ==> j <= l && w + j <= BMAX
  {
    hide Space, Times, Unit, Pow2, Total;
    var z := if g - w > l then l else g - w;
    j := k - w;
    var f := Pow2(j);
    UnitPatterns(w, k);
    if l <= w && g >= 2 * l && Narrow(c, g, l) {
      SubtreeIsBig(c, g, w, k, l, pos);
    }
    if f > a + 1 {
      f := f - (a + 1);
      TimesAdd(f, a + 1, Unit(k));
      if j >= z {
        TooFewAtTheEnd(c, g, w, k, f, pos);
      }
      var xp := k;
      j := j + 1;
      while j < z
        invariant xp == w + j - 1 && k <= xp && j >= 1 && f > 0
        invariant j <= z || (k - w >= z && j == k - w + 1)
        invariant xp <= BMAX && Times(f, Unit(xp)) + Space(c, xp) == pos + Unit(w)
      {
        UnitDouble(f, xp);
        f := 2 * f;
        xp := xp + 1;
        SpaceLast(c, xp);
        if f <= c[xp] {
          TimesMono(f, c[xp], Unit(xp));
          break;
        }
        TimesAdd(f - c[xp], c[xp], Unit(xp));
        f := f - c[xp];
        j := j + 1;
      }
    } else {
      TimesMono(f, a + 1, Unit(k));
    }
    if w == 0 && j < l {
      SpaceMono(c, j, g - 1);
      RootSpace();
    }
  }

  lemma RootSpace()
    ensures Unit(0) == FULL
  {
    Pow2Word();
  }

  /** At the longest length the codes always suffice. */
  lemma TooFewAtTheEnd(c: seq<nat>, g: nat, w: nat, k: nat, f: nat, pos: nat)
    requires |c| == BMAX + 1 && w < k <= g <= BMAX && Space(c, g) == FULL
    requires pos + Unit(w) <= FULL && f > 0
    requires Times(f, Unit(k)) + Space(c, k) == pos + Unit(w)
    ensures k < g
  {
    hide Space, Unit, Times, Pow2;
    TimesMono(1, f, Unit(k));
    TimesIs(1, Unit(k));
  }

  // ---- the entries of one code

  lemma Residues(j: nat, f: nat, m: nat)
    requires f > 0 && j <= m < j + f
    ensures m % f == j % f <==> m == j
    ensures (j + f) % f == j % f
  {
    var q := j / f;
    DivUnique(j + f, f, q + 1, j % f);
    if m != j {
      var d := m - j;
      if j % f + d < f {
        DivUnique(m, f, q, j % f + d);
      } else {
        DivUnique(m, f, q + 1, j % f + d - f);
      }
    }
  }

  function Mod(m: nat, f: nat): nat
    requires f > 0
  {
    m % f
  }

  /** Writes `r` at every index whose low bits are `start`, from `start` on in steps of `f`. */
  method Fill(q0: seq<Huft>, start: nat, f: nat, z: nat, r: Huft) returns (q: seq<Huft>)
    requires start < f && |q0| == z
    ensures |q| == z && forall m: nat :: m < z ==> q[m] == if Mod(m, f) == start then r else q0[m]
  {
    hide Mod;
    q := q0;
    var j := start;
    SmallMod(start, f);
    forall m: nat | m < start
      ensures Mod(m, f) != start
    {
      SmallMod(m, f);
    }
    while j < z
      invariant |q| == z && Mod(j, f) == start
      invariant forall m: nat :: m < z && m < j ==> q[m] == if Mod(m, f) == start then r else q0[m]
      invariant forall m: nat :: j <= m < z ==> q[m] == q0[m]
      decreases z - j
    {
      q := q[j := r];
      forall m: nat | j < m < j + f
        ensures Mod(m, f) != start
      {
        ModResidues(j, f, m);
      }
      ModResidues(j, f, j);
      j := j + f;
    }
  }

  lemma SmallMod(m: nat, f: nat)
    requires m < f
    ensures Mod(m, f) == m
  {
  }

  lemma ModResidues(j: nat, f: nat, m: nat)
    requires f > 0 && j <= m < j + f
    ensures Mod(m, f) == Mod(j, f) <==> m == j
    ensures Mod(j + f, f) == Mod(j, f)
  {
    Residues(j, f, m);
  }

  // ---- the next code

  /** i & j for a single-bit mask `j` = 2^t. */
  predicate HasBit(i: nat, t: nat) {
    DivNat(i, Pow2(t));
    (i / Pow2(t)) % 2 == 1
  }

  lemma OneBit(b: Bit)
    ensures LE([b]) == b
  {
  }

  lemma TopBit(s: BitString)
    requires s != []
    ensures HasBit(LE(s), |s| - 1) <==> s[|s| - 1] == 1
    ensures LE(s) == LE(s[..|s| - 1]) + Times(s[|s| - 1], Pow2(|s| - 1))
  {
    hide LE, Pow2, Times;
    var t := |s| - 1;
    assert s[t..] == [s[t]];
    OneBit(s[t]);
    LEPrefix(s, t);
    assert s == s[..t] + s[t..];
    LEAppend(s[..t], s[t..]);
    TimesIs(s[t], Pow2(t));
  }

  lemma TimesBit(p: nat)
    ensures Times(0, p) == 0 && Times(1, p) == p
  {
  }

  lemma IncLast(s: BitString)
    requires s != []
    ensures Inc(s) == if s[|s| - 1] == 0 then s[..|s| - 1] + [1] else Inc(s[..|s| - 1]) + [0]
  {
  }

  lemma IncTop(s: BitString)
    requires s != []
    ensures s[|s| - 1] == 0 ==> LE(Inc(s)) == LE(s) + Pow2(|s| - 1)
    ensures s[|s| - 1] == 1 ==> LE(Inc(s)) == LE(Inc(s[..|s| - 1]))
  {
    hide LE, Inc, Pow2, Times;
    var t := |s| - 1;
    IncLast(s);
    TopBit(s);
    TopBit(Inc(s));
    TimesBit(Pow2(t));
    if s[t] == 0 {
      assert Inc(s)[..t] == s[..t];
    } else {
      assert Inc(s)[..t] == Inc(s[..t]);
    }
  }

  /** Adds one to the `k`-bit code whose bits are kept in reverse order. */
  method Increment(i0: nat, k: nat, ghost s: BitString) returns (i: nat)
    requires |s| == k >= 1 && i0 == LE(s)
    ensures i == LE(Inc(s))
  {
    hide LE, Inc, HasBit, Pow2, Times;
    i := i0;
    var t: int := k - 1;
    assert s[..k] == s;
    while t >= 0 && HasBit(i, t)
      invariant -1 <= t < k && i == LE(s[..t + 1]) && LE(Inc(s)) == LE(Inc(s[..t + 1]))
    {
      TopBit(s[..t + 1]);
      IncTop(s[..t + 1]);
      assert s[..t + 1][..t] == s[..t];
      TimesBit(Pow2(t));
      i := i - Pow2(t);
      t := t - 1;
    }
    if t >= 0 {
      TopBit(s[..t + 1]);
      IncTop(s[..t + 1]);
      i := i + Pow2(t);
    } else {
      AllOnes();
    }
  }

  lemma AllOnes()
    ensures LE(Inc([])) == LE([])
  {
  }

  /** The string of the next code is the old one incremented. */
  lemma NextCode(pos: nat, code: nat, k: nat)
    requires 1 <= k <= BMAX && pos == Times(code, Unit(k))
    ensures At(pos) == BEBits(code, k) + Zeros(BMAX - k)
    ensures At(pos)[..k] == BEBits(code, k)
    ensures LE(At(pos)) == LE(At(pos)[..k])
    ensures LE(At(pos + Unit(k))) == LE(Inc(At(pos)[..k]))
    ensures pos + Unit(k) == Times(code + 1, Unit(k))
  {
    hide LE, Inc, Pow2, BEBits, Times, Unit;
    TimesStep(code, Unit(k));
    CodeString(code, k);
    CodeString(code + 1, k);
    IncBits(code, k);
    StartOfPadded(BEBits(code, k), At(pos));
    StartOfPadded(BEBits(code + 1, k), At(pos + Unit(k)));
  }

  lemma CodeString(code: nat, k: nat)
    requires k <= BMAX
    ensures At(Times(code, Unit(k))) == BEBits(code, k) + Zeros(BMAX - k)
  {
    hide BEBits, Pow2;
    BEShift(code, k, BMAX - k);
    TimesIs(code, Unit(k));
  }

  // ---- going back over finished tables

  method PopTables(i: nat, l: nat, x: seq<nat>, h0: nat, w0: nat) returns (h: nat, w: nat)
    requires |x| == BMAX + 1 && h0 < BMAX && w0 == Level(l, h0) && x[0] == 0
    ensures h <= h0 && w == Level(l, h) <= w0 && LowBits(i, w) == x[h]
    ensures h < h0 ==> LowBits(i, Level(l, h + 1)) != x[h + 1]
  {
    hide Level, Pow2, LowBits;
    h, w := h0, w0;
    LevelStep(l, 0);
    assert LowBits(i, 0) == 0 by { NoBits(i); }
    while LowBits(i, w) != x[h]
      invariant h <= h0 && w == Level(l, h) <= w0
      invariant h < h0 ==> LowBits(i, Level(l, h + 1)) != x[h + 1]
      decreases h
    {
      LevelStep(l, h - 1);
      h := h - 1;
      w := w - l;
    }
  }

  lemma NoBits(i: nat)
    ensures LowBits(i, 0) == 0
  {
    assert Pow2(0) == 1;
  }

  // ---- opening tables down to the level of the current code

  /** `pos` is where the current code starts: `k` bits, `a` more codes of that length to follow. */
  ghost predicate AtCode(c: seq<nat>, l: nat, g: nat, k: nat, a: nat, pos: nat) {
    && |c| == BMAX + 1 && 1 <= l <= g <= BMAX && 1 <= k <= g
    && Space(c, g) == FULL && Space(c, g - 1) < FULL
    && Space(c, k - 1) <= pos < FULL
    && pos + Times(a + 1, Unit(k)) == Space(c, k)
    && Start(At(pos)[..k]) == pos
  }

  ghost predicate ClaimsKept(L: Layout, N: Layout) {
    forall C :: C in L.claims ==> C in N.claims && N.claims[C] == L.claims[C]
  }

  function Empty(l: nat): Layout {
    Layout(l, [], [], map[])
  }

  /** The table above is wide enough to hold a link for the codes that go on past it. */
  lemma ParentIsWide(L: Layout, narrow: bool, c: seq<nat>, g: nat, k: nat, a: nat, pos: nat, u: seq<nat>, x: seq<nat>,
                     h: nat)
    requires AtCode(c, L.l, g, k, a, pos)
    requires Ready(L, narrow, c, pos, u, x, h) && h < BMAX
    requires Level(L.l, h) + L.l < k
    ensures u[h] < |L.info| && L.info[u[h]].width >= L.l
  {
    hide Space, Level, At, Unit, Times, Start, End, LE, Pow2, ClaimOk, BE;
    assert StackedAt(L, pos, u, x, h);
    var T := L.info[u[h]];
    assert TableOk(L, narrow, c, u[h]);
    AtValue(pos);
    Within(T.pre, At(pos));
    if T.width < L.l {
      SpaceMono(c, |T.pre| + T.width, k - 1);
    }
  }

  /** The bits of the new table's place within its parent. */
  lemma LinkIndex(pos: nat, n: nat, m: nat)
    requires n <= m <= BMAX && pos < FULL && Start(At(pos)[..m]) == pos
    ensures HighBits(LE(At(pos)), n) == LE(At(pos)[n..m]) < Pow2(m - n)
  {
    hide Start, LE, BE, Pow2, At;
    var P := At(pos);
    AtValue(pos);
    LEPrefix(P, n);
    ZeroTail(P, m);
    var mid := P[n..m];
    assert P[n..] == mid + P[m..];
    LEAppend(mid, P[m..]);
    ZeroTimes(Pow2(m - n));
    LEBelow(mid);
  }

  lemma LinkPaints(tab: seq<Huft>, l: nat, mid: BitString, r: Huft)
    requires |mid| == l && LE(mid) < |tab|
    ensures Painted(tab, tab[LE(mid) := r], l, mid, r)
  {
    hide LE, Pow2;
    forall m: nat | m < |tab| && m < Pow2(l)
      ensures LowBits(m, l) == m
    {
      DivUnique(m, Pow2(l), 0, m);
    }
  }

  /** The tables and the stack are in order for the code position `pos`. */
  ghost predicate Between(L: Layout, narrow: bool, c: seq<nat>, pos: nat, u: seq<nat>, x: seq<nat>, h: int, w: int)
  {
    && |c| == BMAX + 1 && -1 <= h < BMAX && |u| == BMAX && |x| == BMAX + 1 && |L.info| == |L.tabs|
    && Ready(L, narrow, c, pos, u, x, h)
    && x[0] == 0
    && if h == -1 then L == Empty(L.l) && pos == 0 && w + L.l == 0
       else w == Level(L.l, h) && (pos < FULL && w + L.l <= BMAX ==> Start(At(pos)[..w + L.l]) == pos)
  }

  ghost predicate Opening(L: Layout, narrow: bool, c: seq<nat>, g: nat, k: nat, a: nat, pos: nat,
                          u: seq<nat>, x: seq<nat>, h: int, w: int)
  {
    && AtCode(c, L.l, g, k, a, pos) && (narrow <==> Narrow(c, g, L.l))
    && Between(L, narrow, c, pos, u, x, h, w) && w < k
  }

  lemma RoomFor(L: Layout, narrow: bool, c: seq<nat>, g: nat, k: nat, a: nat, pos: nat,
                u: seq<nat>, x: seq<nat>, h: int, w: int)
    requires Opening(L, narrow, c, g, k, a, pos, u, x, h, w) && k > w + L.l
    ensures h < BMAX - 1 && 0 <= w + L.l <= BMAX
    ensures pos + Unit(w + L.l) <= FULL
    ensures h >= 0 ==> w + L.l == Level(L.l, h + 1) && L.l <= w + L.l
                       && End(At(pos)[..w + L.l]) == pos + Unit(w + L.l)
    ensures h == -1 ==> w + L.l == 0
  {
    hide Level, LE, Pow2, Ready, Times, BE, At;
    RootSpace();
    if h >= 0 {
      LevelStep(L.l, h);
      LevelAtLeast(L.l, h + 1);
      var D := At(pos)[..w + L.l];
      TimesStep(BE(D), Unit(w + L.l));
      EndBelowFull(D);
    }
  }

  lemma LevelAtLeast(l: nat, h: nat)
    requires l >= 1
    ensures Level(l, h) >= h
  {
  }

  lemma OpenedKeepsClaims(L: Layout, top: nat, D: BitString, J: nat, to: seq<Huft>, junk: seq<Huft>)
    requires top < |L.tabs| && D !in L.claims
    ensures ClaimsKept(L, Pushed(L, top, D, J, to, junk))
  {
  }

  lemma NewPrefixUnclaimed(L: Layout, narrow: bool, c: seq<nat>, pos: nat, u: seq<nat>, x: seq<nat>, h: nat,
                           D: BitString)
    requires |c| == BMAX + 1 && h < BMAX && Ready(L, narrow, c, pos, u, x, h)
    requires |D| <= BMAX && Level(L.l, h) < |D| && Start(D) == pos
    ensures D !in L.claims
  {
    hide Level, At, Unit, Times, Start, End, LE, Pow2, Shape, Stacked;
    if D in L.claims {
      Nest(D, D);
      var t: nat :| 0 < t <= h && Level(L.l, t) <= BMAX && D == At(pos)[..Level(L.l, t)];
      LevelMono(L.l, t, h);
    }
  }

  lemma ChildOpens(L: Layout, narrow: bool, c: seq<nat>, g: nat, k: nat, a: nat, pos: nat,
                   u: seq<nat>, x: seq<nat>, h: int, w: int, J: nat, to: seq<Huft>, junk: seq<Huft>)
    requires Opening(L, narrow, c, g, k, a, pos, u, x, h, w) && h >= 0 && k > w + L.l && h + 1 < BMAX
    requires w + L.l == Level(L.l, h + 1) && u[h] < |L.info|
    requires Pushable(L, narrow, c, pos, u, h, J) && |junk| == Pow2(J)
    requires Painted(L.tabs[u[h]], to, L.l, At(pos)[w..w + L.l], LinkTo(L, J))
    ensures var N := Pushed(L, u[h], At(pos)[..w + L.l], J, to, junk);
            && ClaimsKept(L, N)
            && Opening(N, narrow, c, g, k, a, pos, u[h + 1 := |L.info|], x[h + 1 := LE(At(pos))], h + 1, w + L.l)
  {
    hide Level, At, Unit, Times, Start, End, LE, Pow2, Space, Shape, Behind, Stacked, Narrow, Painted, Roomy;
    var D := At(pos)[..w + L.l];
    NewPrefixUnclaimed(L, narrow, c, pos, u, x, h, D);
    PushChild(L, narrow, c, pos, u, x, h, J, to, junk);
    OpenedKeepsClaims(L, u[h], D, J, to, junk);
    AtValue(pos);
    if w + L.l + L.l <= BMAX {
      StartGrows(At(pos), w + L.l, w + L.l + L.l);
    }
  }

  /** Allocates a table at the next level and links it from the one above. */
  method OpenTable(c: seq<nat>, l: nat, g: nat, k: nat, a: nat, i: nat, tabs0: seq<seq<Huft>>,
                   u0: seq<nat>, x0: seq<nat>, h0: int, w0: int,
                   ghost L: Layout, ghost narrow: bool, ghost pos: nat)
    returns (tabs: seq<seq<Huft>>, u: seq<nat>, x: seq<nat>, h: nat, w: nat, q: nat, z: nat, ghost N: Layout)
    requires Opening(L, narrow, c, g, k, a, pos, u0, x0, h0, w0) && k > w0 + l
    requires L.l == l && L.tabs == tabs0 && i == LE(At(pos))
    ensures N.l == l && N.tabs == tabs && ClaimsKept(L, N)
    ensures Opening(N, narrow, c, g, k, a, pos, u, x, h, w)
    ensures h == h0 + 1 && w == w0 + l && q == u[h] < |tabs| && z == |tabs[q]| && |tabs| == |tabs0| + 1
  {
    hide Level, At, Unit, Times, Start, End, LE, Pow2, Space, Shape, Behind, Stacked, Narrow, HighBits, Painted;
    RoomFor(L, narrow, c, g, k, a, pos, u0, x0, h0, w0);
    h := h0 + 1;
    w := w0 + l;
    var j := SizeTable(c, l, g, w, k, a, pos);
    z := Pow2(j);
    var space := new Huft[z];
    var junk := space[..];
    q := |tabs0|;
    u := u0[h := q];
    if h > 0 {
      x := x0[h := i];
      var r := Huft(16 + j, l, Sub(q));
      j := HighBits(i, w - l);
      LinkIndex(pos, w - l, w);
      ghost var mid := At(pos)[w - l..w];
      ghost var D := At(pos)[..w];
      OpenTableFits(L, narrow, c, g, k, a, pos, u0, x0, h0, w0);
      var to := tabs0[u0[h - 1]][j := r];
      LinkPaints(tabs0[u0[h - 1]], l, mid, r);
      tabs := tabs0[u0[h - 1] := to] + [junk];
      N := Pushed(L, u0[h - 1], D, r.e - 16, to, junk);
      ChildOpens(L, narrow, c, g, k, a, pos, u0, x0, h0, w0, r.e - 16, to, junk);
    } else {
      x := x0;
      tabs := [junk];
      LevelStep(l, 0);
      PushRoot(l, narrow, c, junk, j, u, x);
      N := Layout(l, tabs, [Table([], j)], map[]);
      AtValue(pos);
      RootStart(pos);
      StartGrows(At(pos), 0, l);
    }
  }

  lemma RootStart(pos: nat)
    requires pos == 0
    ensures Start(At(pos)[..0]) == BE(At(pos))
  {
    hide At;
    AtValue(pos);
    ZeroTimes(Unit(0));
    assert BE(At(pos)[..0]) == 0;
  }

  lemma OpenTableFits(L: Layout, narrow: bool, c: seq<nat>, g: nat, k: nat, a: nat, pos: nat,
                      u: seq<nat>, x: seq<nat>, h: int, w: int)
    requires Opening(L, narrow, c, g, k, a, pos, u, x, h, w) && h >= 0 && k > w + L.l
    ensures u[h] < |L.info| == |L.tabs| && L.info[u[h]].width >= L.l
    ensures Pow2(L.l) <= |L.tabs[u[h]]|
  {
    hide Level, At, Unit, Times, Start, End, LE, Pow2, Space, Narrow, ClaimOk, Roomy;
    ParentIsWide(L, narrow, c, g, k, a, pos, u, x, h);
    assert TableOk(L, narrow, c, u[h]);
    Pow2Mono(L.l, L.info[u[h]].width);
  }

  // ---- writing one code

  /** The deepest table is wide enough for the current code. */
  lemma TopIsWide(L: Layout, narrow: bool, c: seq<nat>, g: nat, k: nat, a: nat, pos: nat,
                  u: seq<nat>, x: seq<nat>, h: int, w: int)
    requires Opening(L, narrow, c, g, k, a, pos, u, x, h, w) && h >= 0 && k <= w + L.l
    ensures u[h] < |L.info| && L.info[u[h]].pre == At(pos)[..w] && k <= w + L.info[u[h]].width
  {
    hide Space, Level, At, Unit, Times, Start, End, LE, Pow2, ClaimOk, BE, Narrow;
    assert StackedAt(L, pos, u, x, h);
    var T := L.info[u[h]];
    assert TableOk(L, narrow, c, u[h]);
    AtValue(pos);
    Within(T.pre, At(pos));
    if k > w + T.width {
      SpaceMono(c, w + T.width, k - 1);
    }
  }

  lemma CodePaints(tab: seq<Huft>, to: seq<Huft>, l: nat, tail: BitString, r: Huft)
    requires |to| == |tab|
    requires forall m: nat :: m < |tab| ==> to[m] == if Mod(m, Pow2(|tail|)) == LE(tail) then r else tab[m]
    ensures Painted(tab, to, l, tail, r)
  {
    hide LE, Pow2;
  }

  lemma CodeEnds(c: seq<nat>, l: nat, g: nat, k: nat, a: nat, pos: nat)
    requires AtCode(c, l, g, k, a, pos)
    ensures End(At(pos)[..k]) == pos + Unit(k) <= FULL
  {
    hide Space, At, Unit, Times, LE, Pow2, BE;
    TimesStep(BE(At(pos)[..k]), Unit(k));
    TimesMono(1, a + 1, Unit(k));
    TimesIs(1, Unit(k));
    SpaceMono(c, k, g);
  }

  /** Fills in the entries of one code, steps to the next code and goes back over finished tables. */
  method WriteCode(c: seq<nat>, l: nat, g: nat, k: nat, a: nat, i0: nat, tabs0: seq<seq<Huft>>,
                   u: seq<nat>, x: seq<nat>, h0: nat, w0: nat, q: nat, z: nat, r: Huft,
                   ghost L: Layout, ghost narrow: bool, ghost pos: nat, ghost code: nat)
    returns (i: nat, tabs: seq<seq<Huft>>, h: nat, w: nat, ghost N: Layout)
    requires Opening(L, narrow, c, g, k, a, pos, u, x, h0, w0) && k <= w0 + l
    requires L.l == l && L.tabs == tabs0 && i0 == LE(At(pos)) && pos == Times(code, Unit(k))
    requires q == u[h0] < |tabs0| && z == |tabs0[q]| && r.b == k - w0
    ensures |tabs| == |tabs0| && N == Claimed(L, q, At(pos)[..k], r, tabs[q]) && N.tabs == tabs
    ensures forall t :: 0 <= t < |tabs| ==> |tabs[t]| == |tabs0[t]|
    ensures At(pos)[..k] !in L.claims
    ensures Between(N, narrow, c, pos + Unit(k), u, x, h, w)
    ensures i == LE(At(pos + Unit(k))) && h <= h0 && w <= w0 && (h < h0 ==> w + l < k)
  {
    hide Level, At, Unit, Times, Start, End, LE, Pow2, Space, Shape, Behind, Stacked, Narrow, HighBits, LowBits, Mod,
         Inc;
    ghost var D := At(pos)[..k];
    var f := Pow2(k - w0);
    LinkIndex(pos, w0, k);
    var to := Fill(tabs0[q], HighBits(i0, w0), f, z, r);
    CodePaints(tabs0[q], to, l, At(pos)[w0..k], r);
    tabs := tabs0[q := to];
    N := Claimed(L, q, D, r, to);
    NextCode(pos, code, k);
    i := Increment(i0, k, D);
    h, w := PopTables(i, l, x, h0, w0);
    LevelStep(l, h);
    if h < h0 {
      LevelMono(l, h + 1, h0);
    }
    TopIsWide(L, narrow, c, g, k, a, pos, u, x, h0, w0);
    CodeEnds(c, l, g, k, a, pos);
    PlaceCode(L, narrow, c, pos, pos + Unit(k), k, u, x, h0, h, r, to);
  }

  // ---- the whole builder

  /** Every symbol with a code before (k, r) has its entry in the tables. */
  ghost predicate Assigned(b: seq<nat>, s: nat, d: seq<nat>, e: seq<nat>, L: Layout, k: nat, r: nat)
    requires LengthsOk(b)
  {
    forall sym: nat :: sym < |b| && b[sym] > 0 && (b[sym] < k || (b[sym] == k && Rank(b, sym) < r)) ==>
      && Code(b, sym) in L.claims
      && L.claims[Code(b, sym)].entry.e == Extra(sym, s, e)
      && L.claims[Code(b, sym)].entry.v == Num(Base(sym, s, d))
  }

  /** The code (k, q), which may be a symbol's or a dummy. */
  function CodeOf(c: seq<nat>, k: nat, q: nat): BitString
    requires |c| == BMAX + 1 && k <= BMAX
  {
    BEBits(FirstCode(c, k) + q, k)
  }

  /** If every symbol has a code, the dummy codes before (k, r) are marked as invalid. */
  ghost predicate Spared(b: seq<nat>, c: seq<nat>, L: Layout, k: nat, r: nat)
    requires |c| == BMAX + 1
  {
    AllCoded(b) ==>
      forall j: nat, q: nat ::
        0 < j <= BMAX && Counts(b)[j] <= q < c[j] && (j < k || (j == k && q < r)) ==>
          CodeOf(c, j, q) in L.claims && L.claims[CodeOf(c, j, q)].entry.e == 99
  }

  lemma SparedKept(b: seq<nat>, c: seq<nat>, L: Layout, N: Layout, k: nat, r: nat)
    requires |c| == BMAX + 1 && Spared(b, c, L, k, r) && ClaimsKept(L, N)
    ensures Spared(b, c, N, k, r)
  {
    hide CodeOf, Counts, AllCoded;
  }

  /** A dummy code comes when the list of symbols is used up. */
  lemma UsedUp(b: seq<nat>, c: seq<nat>, g: nat, k: nat, r: nat, p: nat)
    requires LengthsOk(b) && Filled(b, c, g) && 1 <= k <= g && Reading(b, c, k, r, p)
    requires AllCoded(b) && Counts(b)[k] <= r < c[k]
    ensures p == |b|
  {
    hide Counts;
    assert k == g;
    TotalAgrees(c, Counts(b), g - 1);
    NoneBeyond(b, g);
    assert b[..|b|] == b;
    TotalOfCounts(b, |b|);
    NoneZero(b);
  }

  lemma NoneZero(b: seq<nat>)
    requires AllCoded(b)
    ensures Counts(b)[0] == 0
  {
    NoneCounted(b, 0);
  }

  lemma NoneBeyond(b: seq<nat>, g: nat)
    requires LengthsOk(b) && 1 <= g <= BMAX && forall i :: 0 <= i < |b| ==> b[i] <= g
    ensures Total(Counts(b), g - 1) + Counts(b)[g] == Total(Counts(b), BMAX)
  {
    forall k: nat | g < k <= BMAX
      ensures Counts(b)[k] == 0
    {
      NoneCounted(b, k);
    }
    hide Counts;
    TotalTail(Counts(b), g, BMAX);
  }

  lemma {:induction false} TotalTail(c: seq<nat>, g: nat, k: nat)
    requires |c| == BMAX + 1 && g <= k <= BMAX && forall j :: g < j <= k ==> c[j] == 0
    ensures Total(c, k) == Total(c, g)
    decreases k
  {
    if g < k {
      TotalTail(c, g, k - 1);
    }
  }

  lemma SpareNext(b: seq<nat>, c: seq<nat>, g: nat, k: nat, r: nat, p: nat, L: Layout, top: nat, D: BitString,
                  E: Huft, to: seq<Huft>)
    requires LengthsOk(b) && Filled(b, c, g) && 1 <= k <= g <= BMAX && r < c[k] && Reading(b, c, k, r, p)
    requires Spared(b, c, L, k, r) && top < |L.tabs| && D !in L.claims && D == CodeOf(c, k, r)
    requires p >= |b| ==> E.e == 99
    ensures Spared(b, c, Claimed(L, top, D, E, to), k, r + 1)
  {
    hide CodeOf, Counts, AllCoded, Filled, Reading;
    if AllCoded(b) && Counts(b)[k] <= r {
      UsedUp(b, c, g, k, r, p);
    }
  }

  lemma SparedLength(b: seq<nat>, c: seq<nat>, L: Layout, k: nat)
    requires |c| == BMAX + 1 && 1 <= k <= BMAX && Spared(b, c, L, k, c[k])
    ensures Spared(b, c, L, k + 1, 0)
  {
    hide CodeOf, Counts, AllCoded;
  }

  /** Every place of a full code space belongs to a code. */
  lemma {:induction false} CodeFound(c: seq<nat>, g: nat, v: nat) returns (k: nat, q: nat)
    requires |c| == BMAX + 1 && g <= BMAX && v < Space(c, g)
    ensures 1 <= k <= g && q < c[k]
    ensures Space(c, k - 1) + Times(q, Unit(k)) <= v < Space(c, k - 1) + Times(q + 1, Unit(k))
    decreases g
  {
    hide Unit, Times;
    if v < Space(c, g - 1) {
      k, q := CodeFound(c, g - 1, v);
    } else {
      k := g;
      q := Quotient(v - Space(c, g - 1), Unit(g));
      TimesLess(q, c[g], Unit(g));
    }
  }

  lemma Quotient(n: nat, u: nat) returns (q: nat)
    requires u > 0
    ensures Times(q, u) <= n < Times(q + 1, u)
  {
    DivNat(n, u);
    q := n / u;
    assert n == u * q + n % u;
    TimesStep(q, u);
  }

  lemma TimesLess(x: nat, y: nat, u: nat)
    ensures Times(x, u) < Times(y, u) ==> x < y
  {
    if y <= x {
      TimesMono(y, x, u);
    }
  }

  /** Bits of full length start with one of the codes, if they fill the code space. */
  lemma StartsWith(c: seq<nat>, g: nat, bits: BitString) returns (k: nat, q: nat)
    requires |c| == BMAX + 1 && g <= BMAX && Space(c, g) == FULL && |bits| >= BMAX
    ensures 1 <= k <= g && q < c[k] && CodeOf(c, k, q) <= bits
  {
    hide Space, Times, Unit, BE, Pow2, FirstCode, BEBits;
    var s := bits[..BMAX];
    BEBelow(s);
    Pow2Word();
    k, q := CodeFound(c, g, BE(s));
    var n := FirstCode(c, k) + q;
    FirstStarts(c, k);
    TimesAdd(FirstCode(c, k), q, Unit(k));
    TimesAdd(FirstCode(c, k), q + 1, Unit(k));
    PatternsFill(k);
    TimesLess(n, Pow2(k), Unit(k));
    BEOfBits(n, k);
    Within(CodeOf(c, k, q), s);
  }

  lemma AllRefused(b: seq<nat>, c: seq<nat>, g: nat, L: Layout, narrow: bool)
    requires LengthsOk(b) && Filled(b, c, g) && Shape(L, narrow, c) && narrow
    requires Spared(b, c, L, g + 1, 0) && Space(c, g) == FULL
    ensures Refuses(L.tabs, L.l, b)
  {
    hide Code, Shape, Walk, Rank, CodeOf, Counts, Space;
    if AllCoded(b) {
      forall bits: BitString | |bits| >= BMAX && NoCode(b, bits)
        ensures Walk(L.tabs, 0, L.l, bits).Some? && Walk(L.tabs, 0, L.l, bits).value.e == 99
      {
        var k, q := StartsWith(c, g, bits);
        if q < Counts(b)[k] {
          CodeIsSymbols(b, c, g, k, q, bits);
        } else {
          WalkFinds(L, narrow, c, CodeOf(c, k, q), bits);
        }
      }
    }
  }

  lemma CodeIsSymbols(b: seq<nat>, c: seq<nat>, g: nat, k: nat, q: nat, bits: BitString)
    requires LengthsOk(b) && Filled(b, c, g) && 1 <= k <= g && q < Counts(b)[k] && CodeOf(c, k, q) <= bits
    ensures !NoCode(b, bits)
  {
    hide FirstCode, BEBits;
    assert b[..|b|] == b;
    var sym := SymbolAt(b, k, q, |b|);
    hide Counts;
    FirstAgrees(c, Counts(b), k);
    assert Code(b, sym) == CodeOf(c, k, q);
  }

  lemma AssignedKept(b: seq<nat>, s: nat, d: seq<nat>, e: seq<nat>, L: Layout, N: Layout, k: nat, r: nat)
    requires LengthsOk(b) && Assigned(b, s, d, e, L, k, r) && ClaimsKept(L, N)
    ensures Assigned(b, s, d, e, N, k, r)
  {
    hide Code, Rank, Extra, Base;
  }

  /** `p` is the place of the code (k, r) in the list of symbols, or behind the list. */
  ghost predicate Reading(b: seq<nat>, c: seq<nat>, k: nat, r: nat, p: nat)
    requires |c| == BMAX + 1 && 1 <= k <= BMAX + 1
  {
    p == Min(|b|, Total(c, k - 1) + r)
  }

  ghost predicate Filled(b: seq<nat>, c: seq<nat>, g: nat)
    requires LengthsOk(b)
  {
    && |c| == BMAX + 1 && 1 <= g <= BMAX
    && (forall k :: 1 <= k < g ==> c[k] == Counts(b)[k])
    && (forall i :: 0 <= i < |b| ==> b[i] <= g)
  }

  lemma TotalAgrees(c: seq<nat>, d: seq<nat>, k: nat)
    requires |c| == BMAX + 1 == |d| && k <= BMAX && forall j :: 0 < j <= k ==> c[j] == d[j]
    ensures Total(c, k) == Total(d, k)
  {
  }

  /** A symbol whose code is (k, r) is the one listed at `p`. */
  lemma ReadsSymbol(b: seq<nat>, c: seq<nat>, g: nat, v: seq<nat>, k: nat, r: nat, p: nat, sym: nat)
    requires LengthsOk(b) && Filled(b, c, g) && 1 <= k <= g && Reading(b, c, k, r, p)
    requires Filed(b, v, |b|)
    requires sym < |b| && b[sym] == k && Rank(b, sym) == r
    ensures p < |b| && p < |v| && v[p] == sym
    ensures Code(b, sym) == BEBits(FirstCode(c, k) + r, k)
  {
    hide Counts, Total, Rank, FirstCode, BEBits;
    SlotBelow(b, sym);
    TotalAgrees(c, Counts(b), k - 1);
    FirstAgrees(c, Counts(b), k);
  }

  lemma AssignNext(b: seq<nat>, s: nat, d: seq<nat>, e: seq<nat>, c: seq<nat>, g: nat, v: seq<nat>,
                   k: nat, r: nat, p: nat, L: Layout, top: nat, D: BitString, E: Huft, to: seq<Huft>)
    requires LengthsOk(b) && Filled(b, c, g) && 1 <= k <= g && Reading(b, c, k, r, p) && Filed(b, v, |b|)
    requires Assigned(b, s, d, e, L, k, r) && top < |L.tabs| && D !in L.claims
    requires D == BEBits(FirstCode(c, k) + r, k)
    requires p < |b| && p < |v| ==> E.e == Extra(v[p], s, e) && E.v == Num(Base(v[p], s, d))
    ensures Assigned(b, s, d, e, Claimed(L, top, D, E, to), k, r + 1)
  {
    hide Code, Rank, Extra, Base, FirstCode, BEBits, Filled, Reading, Filed;
    var N := Claimed(L, top, D, E, to);
    forall sym: nat | sym < |b| && b[sym] > 0 && (b[sym] < k || (b[sym] == k && Rank(b, sym) < r + 1))
      ensures Code(b, sym) in N.claims
      ensures N.claims[Code(b, sym)].entry.e == Extra(sym, s, e)
      ensures N.claims[Code(b, sym)].entry.v == Num(Base(sym, s, d))
    {
      if b[sym] == k && Rank(b, sym) == r {
        ReadsSymbol(b, c, g, v, k, r, p, sym);
      }
    }
  }

  /** All codes of one length are done when as many are written as there are symbols. */
  lemma AssignedLength(b: seq<nat>, s: nat, d: seq<nat>, e: seq<nat>, L: Layout, k: nat, r: nat)
    requires LengthsOk(b) && 1 <= k <= BMAX && Assigned(b, s, d, e, L, k, r) && r >= Counts(b)[k]
    ensures Assigned(b, s, d, e, L, k + 1, 0)
  {
    hide Code, Rank, Extra, Base, Counts;
    forall sym: nat | sym < |b| && b[sym] == k
      ensures Rank(b, sym) < r
    {
      RankBelow(b, sym);
    }
  }

  /** Once every symbol has its entry, the tables decode the canonical code. */
  lemma AllAssigned(b: seq<nat>, s: nat, d: seq<nat>, e: seq<nat>, L: Layout, narrow: bool, c: seq<nat>, g: nat)
    requires LengthsOk(b) && |c| == BMAX + 1 && Shape(L, narrow, c) && narrow
    requires forall i :: 0 <= i < |b| ==> b[i] <= g
    requires Assigned(b, s, d, e, L, g + 1, 0) && ExtrasOk(e)
    ensures Decodes(L.tabs, L.l, b, s, d, e)
  {
    hide Code, Shape, Walk, Rank;
    forall sym, bits: BitString |
      0 <= sym < |b| && b[sym] > 0 && |bits| >= BMAX && Code(b, sym) <= bits
      ensures Means(Walk(L.tabs, 0, L.l, bits), sym, s, d, e, b[sym])
    {
      WalkFinds(L, narrow, c, Code(b, sym), bits);
    }
  }

  lemma AllFlat(b: seq<nat>, s: nat, d: seq<nat>, e: seq<nat>, L: Layout, narrow: bool, c: seq<nat>, g: nat)
    requires LengthsOk(b) && |c| == BMAX + 1 && Shape(L, narrow, c) && narrow && |L.tabs| <= 1
    requires forall i :: 0 <= i < |b| ==> b[i] <= g
    requires Assigned(b, s, d, e, L, g + 1, 0)
    ensures Flat(L.tabs, L.l, b, s, d, e)
  {
    hide Code, ClaimOk, Rank, LE, Extra, Base;
    forall sym, bits: BitString |
      0 <= sym < |b| && b[sym] > 0 && |bits| >= BMAX && Code(b, sym) <= bits
      ensures L.l <= BMAX && |L.tabs| == 1 && LE(bits[..L.l]) < |L.tabs[0]|
      ensures L.tabs[0][LE(bits[..L.l])] == Huft(Extra(sym, s, e), b[sym], Num(Base(sym, s, d)))
    {
      LookupHits(L, narrow, c, Code(b, sym), bits);
      assert TableOk(L, narrow, c, 0);
      assert bits[0..] == bits;
    }
  }

  /** The extra-bit lists hold real extra-bit counts, or 99 for a symbol that must not occur. */
  predicate ExtrasOk(e: seq<nat>) {
    forall i :: 0 <= i < |e| ==> e[i] <= 13 || e[i] == 99
  }

  /** The lookup widths at which the tables are promised to work: the longest code ends in the second
      table, or the code is complete and has fewer codes than the first table has entries. */
  predicate Fits(b: seq<nat>, l: nat) {
    Longest(Counts(b), BMAX) < 2 * l || (Kraft(b) == FULL && |b| < Pow2(l))
  }

  /** The width of the first table. */
  function LookupWidth(b: seq<nat>, m: nat): nat {
    Min(Longest(Counts(b), BMAX), Max(m, Shortest(Counts(b), 1)))
  }

  /** The builder's state between two codes: (k, r) is the next code, `p` its place in the list. */
  ghost predicate Writing(b: seq<nat>, s: nat, d: seq<nat>, e: seq<nat>, c: seq<nat>, L: Layout, narrow: bool,
                          pos: nat, k: nat, r: nat, i: nat, p: nat, u: seq<nat>, x: seq<nat>, h: int, w: int,
                          q: nat, z: nat)
    requires LengthsOk(b)
  {
    && 1 <= k <= BMAX + 1 && w < k
    && Between(L, narrow, c, pos, u, x, h, w)
    && i == LE(At(pos))
    && (h >= 0 && k <= w + L.l ==> q == u[h] && q < |L.tabs| && z == |L.tabs[q]|)
    && Reading(b, c, k, r, p)
    && Assigned(b, s, d, e, L, k, r) && Spared(b, c, L, k, r)
  }

  /** When the first table spans the longest code there is no other table. */
  predicate Single(g: nat, l: nat, h: int, w: int, n: nat) {
    g == l ==> w == (if h == -1 then 0 - l else 0) && h <= 0 && n == h + 1
  }

  /** Where the code (k, r) starts. */
  lemma CodeAt(c: seq<nat>, l: nat, g: nat, k: nat, r: nat, pos: nat)
    requires |c| == BMAX + 1 && 1 <= l <= g <= BMAX && 1 <= k <= g && r < c[k]
    requires Space(c, g) == FULL && Space(c, g - 1) < FULL
    requires pos == Times(FirstCode(c, k) + r, Unit(k))
    ensures AtCode(c, l, g, k, c[k] - r - 1, pos)
    ensures At(pos)[..k] == BEBits(FirstCode(c, k) + r, k)
  {
    hide Space, Times, Unit, At, LE, BE, Pow2, BEBits, FirstCode;
    FirstStarts(c, k);
    TimesAdd(FirstCode(c, k), r, Unit(k));
    TimesAdd(r, c[k] - r, Unit(k));
    SpaceLast(c, k);
    SpaceMono(c, k, g);
    TimesMono(1, c[k] - r, Unit(k));
    TimesIs(1, Unit(k));
    AtValue(pos);
    NextCode(pos, FirstCode(c, k) + r, k);
    StartOfPadded(BEBits(FirstCode(c, k) + r, k), At(pos));
  }

  /** The table entry for the next symbol in the list. */
  method MakeEntry(n: nat, s: nat, d: seq<nat>, e: seq<nat>, v: seq<nat>, p0: nat, b: nat, r0: Huft)
    returns (r: Huft, p: nat)
    requires n <= |v| && p0 <= n
    ensures r.b == b && p == Min(n, p0 + 1)
    ensures p0 < n ==> r.e == Extra(v[p0], s, e) && r.v == Num(Base(v[p0], s, d))
    ensures p0 == n ==> r.e == 99
  {
    p := p0;
    if p >= n {
      r := Huft(99, b, r0.v);
    } else if v[p] < s {
      r := Huft(if v[p] < 256 then 16 else 15, b, Num(v[p]));
      p := p + 1;
    } else {
      r := Huft(ListAt(e, v[p] - s), b, Num(ListAt(d, v[p] - s)));
      p := p + 1;
    }
  }

  /** One turn of the inner loop: the code (k, r), `a` more codes of `k` bits to follow. */
  method EmitCode(b: seq<nat>, s: nat, d: seq<nat>, e: seq<nat>, c: seq<nat>, l: nat, g: nat, k: nat, a: nat,
                  v: seq<nat>, i0: nat, p0: nat, tabs0: seq<seq<Huft>>, u0: seq<nat>, x0: seq<nat>, h0: int, w0: int,
                  q0: nat, z0: nat, r0: Huft,
                  ghost L0: Layout, ghost narrow: bool, ghost pos: nat)
    returns (i: nat, p: nat, tabs: seq<seq<Huft>>, u: seq<nat>, x: seq<nat>, h: int, w: int, q: nat, z: nat, r: Huft,
             ghost L: Layout)
    requires LengthsOk(b) && |b| <= |v| && Filled(b, c, g) && Filed(b, v, |b|)
    requires 1 <= l <= g && 1 <= k <= g && a < c[k]
    requires Space(c, g) == FULL && Space(c, g - 1) < FULL && (narrow <==> Narrow(c, g, l))
    requires pos == Times(FirstCode(c, k) + (c[k] - a - 1), Unit(k))
    requires Writing(b, s, d, e, c, L0, narrow, pos, k, c[k] - a - 1, i0, p0, u0, x0, h0, w0, q0, z0)
    requires L0.l == l && L0.tabs == tabs0 && Single(g, l, h0, w0, |tabs0|)
    ensures Writing(b, s, d, e, c, L, narrow, pos + Unit(k), k, c[k] - a, i, p, u, x, h, w, q, z)
    ensures L.l == l && L.tabs == tabs && Single(g, l, h, w, |tabs|)
  {
    hide Space, Times, Unit, At, LE, Narrow, Assigned, Spared, Counts, Filed, Level, AtCode, FirstCode, Extra, Base,
         BEBits, Ready, Start, Total;
    tabs, u, x, h, w, q, z, L := tabs0, u0, x0, h0, w0, q0, z0, L0;
    CodeAt(c, l, g, k, c[k] - a - 1, pos);
    while k > w + l
      invariant Opening(L, narrow, c, g, k, a, pos, u, x, h, w)
      invariant h >= 0 && k <= w + l ==> q == u[h] && q < |L.tabs| && z == |L.tabs[q]|
      invariant L.l == l && L.tabs == tabs && Assigned(b, s, d, e, L, k, c[k] - a - 1)
      invariant Spared(b, c, L, k, c[k] - a - 1)
      invariant Single(g, l, h, w, |tabs|)
      decreases k - w
    {
      ghost var before := L;
      tabs, u, x, h, w, q, z, L := OpenTable(c, l, g, k, a, i0, tabs, u, x, h, w, L, narrow, pos);
      AssignedKept(b, s, d, e, before, L, k, c[k] - a - 1);
      SparedKept(b, c, before, L, k, c[k] - a - 1);
    }
    r, p := MakeEntry(|b|, s, d, e, v, p0, k - w, r0);
    ghost var top, before := h, L;
    i, tabs, h, w, L := WriteCode(c, l, g, k, a, i0, tabs, u, x, h, w, q, z, r, L, narrow, pos,
                                  FirstCode(c, k) + (c[k] - a - 1));
    AssignNext(b, s, d, e, c, g, v, k, c[k] - a - 1, p0, before, q, At(pos)[..k], r, tabs[q]);
    SpareNext(b, c, g, k, c[k] - a - 1, p0, before, q, At(pos)[..k], r, tabs[q]);
  }

  lemma NothingAssigned(b: seq<nat>, s: nat, d: seq<nat>, e: seq<nat>, c: seq<nat>, g: nat, l: nat, k: nat)
    requires LengthsOk(b) && Filled(b, c, g) && 1 <= k <= g && forall j :: 1 <= j < k ==> c[j] == 0
    ensures Spared(b, c, Empty(l), k, 0)
    ensures Assigned(b, s, d, e, Empty(l), k, 0) && Reading(b, c, k, 0, 0) && Space(c, k - 1) == 0
  {
    hide Counts, Rank, Code;
    forall sym: nat | sym < |b| && b[sym] > 0
      ensures b[sym] >= k
    {
      RankBelow(b, sym);
    }
    ZeroTotal(c, k - 1);
  }

  lemma NoTables(l: nat, narrow: bool, c: seq<nat>, u: seq<nat>, x: seq<nat>)
    requires |c| == BMAX + 1 && 1 <= l <= BMAX && |u| == BMAX && |x| == BMAX + 1 && x[0] == 0
    ensures Between(Empty(l), narrow, c, 0, u, x, -1, 0 - l) && LE(At(0)) == 0
  {
    CodeString(0, 0);
    ZeroTimes(Unit(0));
    assert At(0) == Zeros(BMAX);
    LEZeros(Zeros(BMAX));
  }

  /** All codes of `k` bits are written. */
  lemma LengthDone(b: seq<nat>, s: nat, d: seq<nat>, e: seq<nat>, c: seq<nat>, g: nat, L: Layout, narrow: bool,
                   pos: nat, k: nat, i: nat, p: nat, u: seq<nat>, x: seq<nat>, h: int, w: int, q: nat, z: nat)
    requires LengthsOk(b) && Filled(b, c, g) && 1 <= k <= g && c[k] >= Counts(b)[k]
    requires Writing(b, s, d, e, c, L, narrow, pos, k, c[k], i, p, u, x, h, w, q, z)
    requires pos == Times(FirstCode(c, k) + c[k], Unit(k))
    ensures Writing(b, s, d, e, c, L, narrow, pos, k + 1, 0, i, p, u, x, h, w, q, z)
    ensures pos == Space(c, k)
  {
    hide Between, Times, Unit, At, LE, Counts, Assigned, Spared, FirstCode;
    AssignedLength(b, s, d, e, L, k, c[k]);
    SparedLength(b, c, L, k);
    FirstStarts(c, k);
    TimesAdd(FirstCode(c, k), c[k], Unit(k));
    SpaceLast(c, k);
  }

  /** Generates the codes in order and makes the table entries for each. */
  method BuildTables(b: seq<nat>, s: nat, d: seq<nat>, e: seq<nat>, c: seq<nat>, g: nat, l: nat, k0: nat,
                     v: seq<nat>, x0: seq<nat>)
    returns (tabs: seq<seq<Huft>>)
    requires LengthsOk(b) && ExtrasOk(e) && |b| <= |v| && Filled(b, c, g) && Filed(b, v, |b|)
    requires c[g] >= Counts(b)[g]
    requires 1 <= l <= g && 1 <= k0 <= g && forall j :: 1 <= j < k0 ==> c[j] == 0
    requires Space(c, g) == FULL && Space(c, g - 1) < FULL
    requires |x0| == BMAX + 1 && x0[0] == 0
    ensures Narrow(c, g, l) ==> Decodes(tabs, l, b, s, d, e) && Refuses(tabs, l, b)
    ensures l == g ==> Flat(tabs, l, b, s, d, e)
  {
    hide Space, Times, Unit, At, LE, Narrow, Assigned, Spared, Filed, FirstCode, Counts, Decodes, Refuses, Flat,
         ExtrasOk, Reading, Shape, Ready, Between;
    var k := k0;
    var i, p, h, w, q, z := 0, 0, -1, 0 - l, 0, 0;
    var u := seq(BMAX, i => 0);
    var x := x0;
    var r := Huft(0, 0, Num(0));
    tabs := [];
    ghost var L, pos, narrow := Empty(l), 0, Narrow(c, g, l);
    NothingAssigned(b, s, d, e, c, g, l, k);
    NoTables(l, narrow, c, u, x);
    while k <= g
      invariant k0 <= k <= g + 1 && pos == Space(c, k - 1)
      invariant Writing(b, s, d, e, c, L, narrow, pos, k, 0, i, p, u, x, h, w, q, z)
      invariant L.l == l && L.tabs == tabs && Single(g, l, h, w, |tabs|)
    {
      var a := c[k];
      FirstStarts(c, k);
      while a > 0
        invariant a <= c[k] && pos == Times(FirstCode(c, k) + (c[k] - a), Unit(k))
        invariant Writing(b, s, d, e, c, L, narrow, pos, k, c[k] - a, i, p, u, x, h, w, q, z)
        invariant L.l == l && L.tabs == tabs && Single(g, l, h, w, |tabs|)
      {
        a := a - 1;
        TimesStep(FirstCode(c, k) + (c[k] - a - 1), Unit(k));
        i, p, tabs, u, x, h, w, q, z, r, L := EmitCode(b, s, d, e, c, l, g, k, a, v, i, p, tabs, u, x, h, w, q, z, r,
                                                      L, narrow, pos);
        pos := pos + Unit(k);
      }
      LengthDone(b, s, d, e, c, g, L, narrow, pos, k, i, p, u, x, h, w, q, z);
      k := k + 1;
    }
    TablesDone(b, s, d, e, c, g, l, L, narrow, pos, k, i, p, u, x, h, w, q, z);
  }

  lemma TablesDone(b: seq<nat>, s: nat, d: seq<nat>, e: seq<nat>, c: seq<nat>, g: nat, l: nat, L: Layout, narrow: bool,
                   pos: nat, k: nat, i: nat, p: nat, u: seq<nat>, x: seq<nat>, h: int, w: int, q: nat, z: nat)
    requires LengthsOk(b) && ExtrasOk(e) && Filled(b, c, g) && k == g + 1 && (narrow <==> Narrow(c, g, l))
    requires Writing(b, s, d, e, c, L, narrow, pos, k, 0, i, p, u, x, h, w, q, z)
    requires L.l == l && Single(g, l, h, w, |L.tabs|) && Space(c, g) == FULL
    ensures Narrow(c, g, l) ==> Decodes(L.tabs, l, b, s, d, e) && Refuses(L.tabs, l, b)
    ensures l == g ==> Flat(L.tabs, l, b, s, d, e)
  {
    hide At, LE, Narrow, Assigned, Spared, Counts, Decodes, Refuses, Flat, ExtrasOk, Reading, Shape, Ready, Level,
         Start, Space;
    ReadyShape(L, narrow, c, pos, u, x, h);
    if l == g {
      FlatIsNarrow(c, g);
      AllFlat(b, s, d, e, L, narrow, c, g);
    }
    if narrow {
      AllAssigned(b, s, d, e, L, narrow, c, g);
      AllRefused(b, c, g, L, narrow);
    }
  }

  lemma FlatIsNarrow(c: seq<nat>, g: nat)
    requires |c| == BMAX + 1 && g > 0
    ensures Narrow(c, g, g)
  {
    hide Total;
  }

  lemma ReadyShape(L: Layout, narrow: bool, c: seq<nat>, pos: nat, u: seq<nat>, x: seq<nat>, h: int)
    requires |c| == BMAX + 1 && Ready(L, narrow, c, pos, u, x, h)
    ensures Shape(L, narrow, c)
  {
    hide TableOk, ClaimOk;
  }

  // ---- what the counts say about the whole code

  lemma NoCodes(b: seq<nat>)
    requires LengthsOk(b) && |b| > 0 && Counts(b)[0] == |b|
    ensures Kraft(b) == 0
  {
    hide Counts;
    assert b[..|b|] == b;
    TotalOfCounts(b, |b|);
    NoTotal(Counts(b), BMAX);
    ZeroTotal(Counts(b), BMAX);
  }

  lemma {:induction false} NoTotal(c: seq<nat>, k: nat)
    requires |c| == BMAX + 1 && k <= BMAX && Total(c, k) == 0
    ensures forall j :: 0 < j <= k ==> c[j] == 0
  {
    if k > 0 {
      NoTotal(c, k - 1);
    }
  }

  lemma SomeCodes(b: seq<nat>)
    requires LengthsOk(b) && |b| > 0 && Counts(b)[0] != |b|
    ensures Total(Counts(b), BMAX) > 0 && Kraft(b) > 0
  {
    hide Counts;
    assert b[..|b|] == b;
    TotalOfCounts(b, |b|);
    SpaceAtLeast(Counts(b), BMAX);
  }

  lemma {:induction false} SpaceAtLeast(c: seq<nat>, k: nat)
    requires |c| == BMAX + 1 && k <= BMAX
    ensures Space(c, k) >= Total(c, k)
  {
    if k > 0 {
      hide Unit, Times;
      SpaceAtLeast(c, k - 1);
      TimesMonoRight(c[k], 1, Unit(k));
      TimesIs(c[k], 1);
    }
  }

  lemma WidthIs(b: seq<nat>, m: nat, j: nat, g: nat, l: nat)
    requires j == Shortest(Counts(b), 1) && g == Longest(Counts(b), BMAX) && j <= g
    requires l == Min(g, Max(m, j))
    ensures l == LookupWidth(b, m)
  {
  }

  method HuftBuild(b: seq<nat>, s: nat, d: seq<nat>, e: seq<nat>, m: nat)
    returns (ret: nat, tabs: seq<seq<Huft>>, bits: nat)
    requires 0 < |b| <= N_MAX && LengthsOk(b) && ExtrasOk(e)
    ensures ret == 2 <==> Kraft(b) > FULL
    ensures ret == 1 <==> 0 < Kraft(b) < FULL && Longest(Counts(b), BMAX) != 1
    ensures ret <= 2
    ensures Kraft(b) == 0 ==> tabs == [] && bits == 0
    ensures Kraft(b) > 0 ==> bits == LookupWidth(b, m)
    ensures 0 < Kraft(b) <= FULL && Fits(b, bits) ==> Decodes(tabs, bits, b, s, d, e) && Refuses(tabs, bits, b)
    ensures 0 < Kraft(b) <= FULL && bits == Longest(Counts(b), BMAX) ==> Flat(tabs, bits, b, s, d, e)
  {
    hide Space, Times, Unit, Counts, Decodes, Refuses, Flat, Fits, Total, LookupWidth, Longest, Shortest, Filed;
    var c := CountLengths(b);
    if c[0] == |b| {
      NoCodes(b);
      return 0, [], 0;
    }
    SomeCodes(b);
    var j, g := Extent(c);
    var k := j;
    var l := m;
    if l < j {
      l := j;
    }
    if l > g {
      l := g;
    }
    WidthIs(b, m, j, g, l);
    var over, y;
    over, y, c := FillCodes(c, j, g);
    if over {
      return 2, [], l;
    }
    Leftover(Kraft(b), y, Unit(g));
    CountsFilled(b, c, g, y);
    var x := Offsets(c, g);
    OffsetsAgree(b, c, g);
    var stale := new nat[N_MAX];
    var v := SortSymbols(b, g, x, stale[..]);
    x := x[0 := 0];
    tabs := BuildTables(b, s, d, e, c, g, l, k, v, x);
    if Fits(b, l) {
      FitsIsNarrow(b, c, g, l, y);
    }
    return if y != 0 && g != 1 then 1 else 0, tabs, l;
  }

  lemma Leftover(n: nat, y: nat, u: nat)
    requires u > 0 && n + Times(y, u) == FULL
    ensures y == 0 <==> n == FULL
    ensures n <= FULL
  {
    if y > 0 {
      TimesMonoRight(y, 1, u);
      TimesIs(y, 1);
    }
  }

  lemma CountsFilled(b: seq<nat>, c: seq<nat>, g: nat, y: nat)
    requires LengthsOk(b) && 1 <= g <= BMAX && c == Counts(b)[g := Counts(b)[g] + y]
    requires Counts(b)[g] > 0 && forall j :: g < j <= BMAX ==> Counts(b)[j] == 0
    requires Space(c, g) == FULL
    ensures Filled(b, c, g) && c[g] >= Counts(b)[g] && Space(c, g - 1) < FULL
  {
    hide Counts, Rank, Unit;
    forall i | 0 <= i < |b|
      ensures b[i] <= g
    {
      RankBelow(b, i);
    }
    SpaceLast(c, g);
    TimesMonoRight(c[g], 1, Unit(g));
    TimesIs(c[g], 1);
  }

  lemma OffsetsAgree(b: seq<nat>, c: seq<nat>, g: nat)
    requires LengthsOk(b) && Filled(b, c, g)
    ensures forall k: nat :: k < g ==> Total(c, k) == Total(Counts(b), k)
  {
    hide Counts;
    forall k: nat | k < g
      ensures Total(c, k) == Total(Counts(b), k)
    {
      TotalAgrees(c, Counts(b), k);
    }
  }

  lemma FitsIsNarrow(b: seq<nat>, c: seq<nat>, g: nat, l: nat, y: nat)
    requires LengthsOk(b) && 1 <= g <= BMAX && g == Longest(Counts(b), BMAX)
    requires c == Counts(b)[g := Counts(b)[g] + y] && Kraft(b) + Times(y, Unit(g)) == FULL
    requires Fits(b, l)
    ensures Narrow(c, g, l)
  {
    hide Counts, Unit, Total;
    if y > 0 {
      TimesMonoRight(y, 1, Unit(g));
      TimesIs(y, 1);
    } else {
      assert c == Counts(b);
      assert b[..|b|] == b;
      TotalOfCounts(b, |b|);
    }
  }
}
