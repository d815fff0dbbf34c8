/** Whole files: what was written as a deflate stream is what the reader gives back. */
module GunzipFile {
  import opened Words
  import opened Bits
  import opened BitInput
  import opened Deflate
  import opened DeflateStream
  import Gunzip

  /** Two reads, one after the other, of a file that was written give its output from the start on. */
  method ReadWritten(file: seq<Byte>, pieces: seq<Piece>, ghost tail: BitString, ghost o: seq<Byte>, n: nat, m: nat)
    returns (a: seq<Byte>, b: seq<Byte>)
    requires Written(pieces, [], FileBits(file), tail, o) && n + m <= |o|
    ensures a == o[..n] && b == o[n..n + m]
  {
    hide Written, FileBits, Inflate, Gunzip.Gunzip.Valid;
    InflateUndone(pieces, FileBits(file), tail, o);
    var r := new Gunzip.Gunzip(file);
    var got;
    got, a := r.Read(n);
    Opening(o, n, a);
    got, b := r.Read(m);
  }

  lemma Opening(o: seq<Byte>, n: nat, a: seq<Byte>)
    requires n <= |o| && Gunzip.Delivered(o, 0, n, a)
    ensures a == o[..n]
  {
  }
}
