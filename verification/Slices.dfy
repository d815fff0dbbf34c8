/** Taking slices of slices. */
module Slices {
  lemma SubSlice<T>(s: seq<T>, a: nat, n: nat, off: nat, size: nat)
    requires a + n <= |s| && off + size <= n
    ensures s[a..a + n][off..off + size] == s[a + off..a + off + size]
  {
    var x, y := s[a..a + n][off..off + size], s[a + off..a + off + size];
    forall i | 0 <= i < size
      ensures x[i] == y[i]
    {
      assert x[i] == s[a..a + n][off + i] == s[a + off + i];
    }
  }

  /** Two neighbouring slices. */
  lemma Glue<T>(s: seq<T>, a: nat, b: nat, n: nat)
    requires a <= b && b + n <= |s|
    ensures s[a..b] + s[b..b + n] == s[a..b + n]
  {
  }

  /** What lies around a part of a slice. */
  lemma Around<T>(s: seq<T>, a: nat, n: nat, k: nat, m: nat)
    requires k <= m <= n && a + n <= |s|
    ensures s[..a] + s[a..a + n][..k] == s[..a + k]
    ensures s[a..a + n][m..] + s[a + n..] == s[a + m..]
  {
  }
}
