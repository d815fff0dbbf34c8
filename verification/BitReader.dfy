/** The input side of the inflater: a buffered byte source and the bit buffer filled from it. */
module BitInput {
  import opened Words
  import opened Arith
  import opened Bits

  const INBUFSIZ: nat := 0x2000

  /** The bits of a byte string, in the order a deflate stream is read. */
  function FileBits(s: seq<Byte>): (b: BitString)
    ensures |b| == 8 * |s|
  {
    if s == [] then [] else LEBits(s[0], 8) + FileBits(s[1..])
  }

  /** Bytes in order, each from its lowest bit on. */
  lemma {:induction false} FileBitsAre(s: seq<Byte>, i: nat, j: nat)
    requires i < |s| && j < 8
    ensures FileBits(s)[8 * i + j] == s[i] / Pow2(j) % 2
    decreases i
  {
    hide LEBits, Pow2;
    if i == 0 {
      LEBitsAt(s[0], 8, j);
    } else {
      FileBitsAre(s[1..], i - 1, j);
    }
  }

  lemma {:induction false} LEBitsAt(v: nat, n: nat, j: nat)
    requires j < n
    ensures LEBits(v, n)[j] == v / Pow2(j) % 2
    decreases n
  {
    if j > 0 {
      LEBitsAt(v / 2, n - 1, j - 1);
      DivTwice(v, Pow2(j - 1));
    }
  }

  lemma DivTwice(v: nat, p: nat)
    requires p > 0
    ensures v / 2 / p == v / (2 * p)
  {
    var q := v / 2 / p;
    var r := v / 2 - q * p;
    assert 0 <= r < p;
    assert v == q * (2 * p) + (2 * r + v % 2);
    DivUnique(v, 2 * p, q, 2 * r + v % 2);
  }

  lemma ShiftIn(bb: nat, bk: nat, x: Byte)
    requires bb < Pow2(bk)
    ensures LEBits(bb, bk) + LEBits(x, 8) == LEBits(bb + x * Pow2(bk), bk + 8)
  {
    hide LE, LEBits, Pow2;
    Pow2Byte();
    var s := LEBits(bb, bk) + LEBits(x, 8);
    LEAppend(LEBits(bb, bk), LEBits(x, 8));
    LEOfBits(bb, bk);
    LEOfBits(x, 8);
    BitsOfLE(s);
  }

  lemma ShiftedBelow(bb: nat, bk: nat, x: Byte)
    requires bb < Pow2(bk)
    ensures bb + x * Pow2(bk) < Pow2(bk + 8)
  {
    hide Pow2;
    Pow2Byte();
    Pow2Add(bk, 8);
    DigitBelow(x, bb, Pow2(bk), 256);
  }

  lemma Shifted(bb: nat, bk: nat, n: nat)
    requires bb < Pow2(bk) && n <= bk
    ensures LEBits(bb, bk)[n..] == LEBits(HighBits(bb, n), bk - n)
    ensures LE(LEBits(bb, bk)[..n]) == LowBits(bb, n)
    ensures HighBits(bb, n) < Pow2(bk - n)
  {
    hide LE, LEBits, Pow2;
    var s := LEBits(bb, bk);
    LEOfBits(bb, bk);
    LEPrefix(s, n);
    BitsOfLE(s[n..]);
    LEBelow(s[n..]);
  }

  class BitReader {
    const file: seq<Byte>
    const inbuf: array<Byte>
    var filepos: nat
    var bufloc: nat
    ghost var start: nat
    var bb: nat
    var bk: nat

    /** The buffer holds the part of the file that was read last. */
    ghost predicate Buffered()
      reads this`filepos, this`bufloc, this`start, inbuf
    {
      && inbuf.Length == INBUFSIZ && bufloc <= INBUFSIZ && filepos <= |file|
      && (filepos > 0 ==>
            && start + bufloc <= filepos == Min(start + INBUFSIZ, |file|)
            && forall i :: 0 <= i < filepos - start ==> inbuf[i] == file[start + i])
    }

    /** The next byte of the file that get_byte delivers. */
    ghost function Next(): (n: nat)
      requires Buffered()
      reads this`filepos, this`bufloc, this`start, inbuf
      ensures n <= |file|
    {
      if filepos == 0 then 0 else start + bufloc
    }

    ghost predicate Valid()
      reads this, inbuf
    {
      Buffered() && bk <= 23 && bb < Pow2(bk)
    }

    /** The bits still to be read: those in the bit buffer, then those of the rest of the file. */
    ghost function Rest(): BitString
      requires Valid()
      reads this, inbuf
    {
      LEBits(bb, bk) + FileBits(file[Next()..])
    }

    constructor (data: seq<Byte>)
      ensures Valid() && fresh(this) && fresh(inbuf) && file == data && Rest() == FileBits(data)
    {
      file := data;
      inbuf := new Byte[INBUFSIZ];
      filepos, bufloc, start, bb, bk := 0, 0, 0, 0, 0;
      new;
      assert file[0..] == data;
    }

    /** Back to the beginning of the compressed data. */
    method Rewind()
      requires inbuf.Length == INBUFSIZ
      modifies this
      ensures Valid() && Rest() == FileBits(file)
    {
      filepos := 0;
      bk := 0;
      bb := 0;
      bufloc := 0;
      assert file[0..] == file;
    }

    method GetByte() returns (x: Byte)
      requires Buffered() && Next() < |file|
      modifies this`filepos, this`bufloc, this`start, inbuf
      ensures Buffered() && Next() == old(Next()) + 1 && x == file[old(Next())]
    {
      if filepos == 0 || bufloc == INBUFSIZ {
        bufloc := 0;
        start := filepos;
        var n := Min(INBUFSIZ, |file| - filepos);
        forall i | 0 <= i < n {
          inbuf[i] := file[filepos + i];
        }
        filepos := filepos + n;
      }
      x := inbuf[bufloc];
      bufloc := bufloc + 1;
    }

    /** A byte read past the bit buffer, which is empty. */
    method TakeByte() returns (x: Byte)
      requires Valid() && bk == 0 && |Rest()| >= 8
      modifies this, inbuf
      ensures Valid() && bk == 0 && Rest() == old(Rest())[8..] && x == LE(old(Rest())[..8])
    {
      hide LE, Pow2, LEBits;
      assert Rest() == FileBits(file[Next()..]);
      x := GetByte();
      assert file[old(Next())..][1..] == file[Next()..];
      Pow2Byte();
      LEOfBits(x, 8);
      assert LEBits(bb, bk) == [];
    }

    method NeedBits(n: nat)
      requires Valid() && n <= 16 && |Rest()| >= n
      modifies this, inbuf
      ensures Valid() && bk >= n && Rest() == old(Rest())
      ensures old(bk) >= n ==> bk == old(bk)
      ensures old(bk) < n ==> bk < n + 8
    {
      hide LE, Pow2, LEBits, FileBits, Buffered;
      while bk < n
        invariant Valid() && Rest() == old(Rest())
        invariant bk == old(bk) || bk < n + 8
        decreases n - bk
      {
        AddByte();
      }
    }

    /** Puts one more byte on top of the bit buffer. */
    method AddByte()
      requires Valid() && bk < 16 && |Rest()| > bk
      modifies this, inbuf
      ensures Valid() && bk == old(bk) + 8 && Rest() == old(Rest())
    {
      hide LE, Pow2, LEBits, FileBits, Buffered;
      ghost var p := Next();
      var x := GetByte();
      Shift(p, x);
      ShiftedBelow(bb, bk, x);
      bb := bb + x * Pow2(bk);
      bk := bk + 8;
    }

    /** Moving a byte from the source to the bit buffer leaves the bits to be read as they are. */
    lemma Shift(p: nat, x: Byte)
      requires p < |file| && x == file[p] && bb < Pow2(bk)
      ensures LEBits(bb, bk) + FileBits(file[p..])
           == LEBits(bb + x * Pow2(bk), bk + 8) + FileBits(file[p + 1..])
    {
      hide LE, Pow2, LEBits;
      assert file[p..][1..] == file[p + 1..];
      ShiftIn(bb, bk, x);
      assert LEBits(bb, bk) + (LEBits(x, 8) + FileBits(file[p + 1..]))
          == (LEBits(bb, bk) + LEBits(x, 8)) + FileBits(file[p + 1..]);
    }

    /** b & mask_bits[n] */
    function Peek(n: nat): nat
      reads this`bb
    {
      LowBits(bb, n)
    }

    lemma PeekIs(n: nat)
      requires Valid() && n <= bk
      ensures n <= |Rest()| && Peek(n) == LE(Rest()[..n])
    {
      hide LE, Pow2, LEBits, Buffered, LowBits;
      Shifted(bb, bk, n);
      assert Rest()[..n] == LEBits(bb, bk)[..n];
    }

    lemma RestLength()
      requires Valid()
      ensures Buffered() && |Rest()| == bk + 8 * (|file| - Next()) && bk <= 23
    {
    }

    method DumpBits(n: nat)
      requires Valid() && n <= bk
      modifies this`bb, this`bk
      ensures Valid() && Rest() == old(Rest())[n..] && bk == old(bk) - n
      ensures LE(old(Rest())[..n]) == old(Peek(n))
    {
      hide LE, Pow2, LEBits, Buffered, LowBits, HighBits;
      Shifted(bb, bk, n);
      assert Rest()[..n] == LEBits(bb, bk)[..n];
      bb := HighBits(bb, n);
      bk := bk - n;
    }

    /** Takes a field of `n` bits: NEEDBITS, mask, DUMPBITS. */
    method Fetch(n: nat) returns (v: nat)
      requires Valid() && n <= 16 && |Rest()| >= n
      modifies this, inbuf
      ensures Valid() && Rest() == old(Rest())[n..] && v == LE(old(Rest())[..n])
    {
      hide LE, Pow2, LEBits, Buffered;
      NeedBits(n);
      v := Peek(n);
      DumpBits(n);
    }
  }
}
