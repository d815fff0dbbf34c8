/** Canonical Huffman codes (section 3.2.2 of RFC 1951) and the multi-level tables that decode them. */
module Huffman {
  import opened Words
  import opened Arith
  import opened Bits

  const BMAX: nat := 16
  const N_MAX: nat := 288
  const FULL: nat := 0x1_0000

  /** How many entries of `b` equal `k`. */
  function Tally(b: seq<nat>, k: nat): (n: nat)
    ensures n <= |b|
  {
    if b == [] then 0
    else Tally(b[..|b| - 1], k) + if b[|b| - 1] == k then 1 else 0
  }

  function Counts(b: seq<nat>): (c: seq<nat>)
    ensures |c| == BMAX + 1
  {
    seq(BMAX + 1, k requires 0 <= k => Tally(b, k))
  }

  predicate LengthsOk(b: seq<nat>) {
    forall i :: 0 <= i < |b| ==> b[i] <= BMAX
  }

  /** The smallest code of `k` bits (section 3.2.2, step 2, of RFC 1951). */
  function FirstCode(c: seq<nat>, k: nat): nat
    requires |c| == BMAX + 1 && k <= BMAX
  {
    if k <= 1 then 0 else 2 * (FirstCode(c, k - 1) + c[k - 1])
  }

  /** How many earlier symbols have a code of the same length. */
  function Rank(b: seq<nat>, sym: nat): nat
    requires sym < |b|
  {
    Tally(b[..sym], b[sym])
  }

  /** The canonical code of a symbol, in the order its bits appear in the stream. */
  function Code(b: seq<nat>, sym: nat): (c: BitString)
    requires LengthsOk(b) && sym < |b|
    ensures |c| == b[sym]
  {
    BEBits(FirstCode(Counts(b), b[sym]) + Rank(b, sym), b[sym])
  }

  /** The part of the code space, in units of 2^-16, that one code of `k` bits takes. */
  function Unit(k: nat): (u: nat)
    requires k <= BMAX
    ensures u >= 1
  {
    Pow2(BMAX - k)
  }

  /** The part of the code space taken by all codes of at most `k` bits. */
  function Space(c: seq<nat>, k: nat): nat
    requires |c| == BMAX + 1 && k <= BMAX
  {
    if k == 0 then 0 else Space(c, k - 1) + Times(c[k], Unit(k))
  }

  function Kraft(b: seq<nat>): nat {
    Space(Counts(b), BMAX)
  }

  /** The interval of the code space below a bit string. */
  function Start(s: BitString): nat
    requires |s| <= BMAX
  {
    Times(BE(s), Unit(|s|))
  }

  function End(s: BitString): nat
    requires |s| <= BMAX
  {
    Times(BE(s) + 1, Unit(|s|))
  }

  /** What a table entry points at: a value, or another table. */
  datatype Link = Num(n: nat) | Sub(t: nat)

  /** `e`: 16 a literal, 15 end of block, 99 invalid, other values above 16 a sub-table of e - 16 bits,
      values below 15 a number of extra bits. `b`: bits to drop. */
  datatype Huft = Huft(e: nat, b: nat, v: Link)

  datatype Found = Found(e: nat, v: Link, used: nat)

  /** The table walk of the decoder: look up `n` bits, drop the entry's bits, follow sub-tables.
      An invalid entry ends the walk before its bits are dropped. */
  function Walk(tabs: seq<seq<Huft>>, t: nat, n: nat, s: BitString): Option<Found>
    decreases |s|
  {
    if n > BMAX || |s| < n || t >= |tabs| || LE(s[..n]) >= |tabs[t]| then None
    else
      var r := tabs[t][LE(s[..n])];
      if r.e == 99 then Some(Found(99, r.v, 0))
      else if r.b > n then None
      else if r.e <= 16 then Some(Found(r.e, r.v, r.b))
      else if r.b == 0 || r.v.Num? then None
      else Further(r.b, Walk(tabs, r.v.t, r.e - 16, s[r.b..]))
  }

  function Further(b: nat, f: Option<Found>): Option<Found> {
    match f
    case None => None
    case Some(x) => Some(Found(x.e, x.v, b + x.used))
  }

  /** A list entry; what lies behind the list is left open by the program and read as zero here. */
  function ListAt(list: seq<nat>, i: nat): nat {
    if i < |list| then list[i] else 0
  }

  /** The meaning of a symbol: simple below `s`, listed in `d` (base) and `e` (extra bits) from there. */
  function Extra(sym: nat, s: nat, e: seq<nat>): nat {
    if sym < s then (if sym < 256 then 16 else 15) else ListAt(e, sym - s)
  }

  function Base(sym: nat, s: nat, d: seq<nat>): nat {
    if sym < s then sym else ListAt(d, sym - s)
  }

  /** What the walk finds for a symbol: its meaning, and its whole code dropped. */
  predicate Means(f: Option<Found>, sym: nat, s: nat, d: seq<nat>, e: seq<nat>, used: nat) {
    && f.Some? && f.value.e == Extra(sym, s, e)
    && (f.value.e != 99 ==> f.value.v == Num(Base(sym, s, d)) && f.value.used == used)
  }

  /** Looking up any bits that start with a symbol's code gives that symbol and drops its code. */
  ghost predicate Decodes(tabs: seq<seq<Huft>>, n: nat, b: seq<nat>, s: nat, d: seq<nat>, e: seq<nat>)
    requires LengthsOk(b)
  {
    forall sym, bits: BitString ::
      0 <= sym < |b| && b[sym] > 0 && |bits| >= BMAX && Code(b, sym) <= bits ==>
        Means(Walk(tabs, 0, n, bits), sym, s, d, e, b[sym])
  }

  predicate AllCoded(b: seq<nat>) {
    forall i :: 0 <= i < |b| ==> b[i] > 0
  }

  /** The bits start with no symbol's code. */
  predicate NoCode(b: seq<nat>, bits: BitString)
    requires LengthsOk(b)
  {
    forall sym :: 0 <= sym < |b| && b[sym] > 0 ==> !(Code(b, sym) <= bits)
  }

  /** Looking up bits that start with no symbol's code finds them invalid, if every symbol has a code. */
  ghost predicate Refuses(tabs: seq<seq<Huft>>, n: nat, b: seq<nat>)
    requires LengthsOk(b)
  {
    AllCoded(b) ==> forall bits: BitString :: |bits| >= BMAX && NoCode(b, bits) ==>
      Walk(tabs, 0, n, bits).Some? && Walk(tabs, 0, n, bits).value.e == 99
  }

  /** One look into the first table is enough for every symbol. */
  ghost predicate Flat(tabs: seq<seq<Huft>>, n: nat, b: seq<nat>, s: nat, d: seq<nat>, e: seq<nat>)
    requires LengthsOk(b)
  {
    forall sym, bits: BitString ::
      0 <= sym < |b| && b[sym] > 0 && |bits| >= BMAX && Code(b, sym) <= bits ==>
        && n <= BMAX && |tabs| == 1 && LE(bits[..n]) < |tabs[0]|
        && tabs[0][LE(bits[..n])] == Huft(Extra(sym, s, e), b[sym], Num(Base(sym, s, d)))
  }
}
