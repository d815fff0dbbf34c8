/** Copies from the output already produced, as all the LZ formats make them. */
module History {
  import opened Words

  /** The output extended by `n` bytes copied from `distance` back; the source of the copy may
      overlap what is being appended. */
  function Copy(out: seq<Byte>, distance: nat, n: nat): (r: seq<Byte>)
    requires 1 <= distance <= |out|
    ensures |r| == |out| + n && out <= r
    decreases n
  {
    if n == 0 then out else Copy(out + [out[|out| - distance]], distance, n - 1)
  }

  /** A match copied in two parts is the match copied at once. */
  lemma {:induction false} CopySplit(out: seq<Byte>, distance: nat, a: nat, b: nat)
    requires 1 <= distance <= |out|
    ensures Copy(Copy(out, distance, a), distance, b) == Copy(out, distance, a + b)
    decreases a
  {
    if a > 0 {
      CopySplit(out + [out[|out| - distance]], distance, a - 1, b);
    }
  }

  /** Each copied byte repeats the one `distance` before it. */
  lemma {:induction false} CopyPeriodic(out: seq<Byte>, distance: nat, n: nat, i: nat)
    requires 1 <= distance <= |out| <= i < |out| + n
    ensures Copy(out, distance, n)[i] == Copy(out, distance, n)[i - distance]
    decreases n
  {
    var next := out + [out[|out| - distance]];
    if i > |out| {
      CopyPeriodic(next, distance, n - 1, i);
    }
  }
}
