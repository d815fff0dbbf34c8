/** Opening an LZMA file (stage2/dec_lzma.c): what its header of 13 bytes says, and which are accepted. */
module LzmaHeader {
  import opened Words
  import opened LzmaStream

  const HEADER_SIZE: nat := 13
  const DIC_MIN: nat := 0x1000
  /** A length that is not known. */
  const UNKNOWN: nat := 0xFFFF_FFFF_FFFF_FFFF

  datatype Header = Header(props: Props, length: nat)
  {
    predicate Valid() {
      && props.lc < 9 && props.lp < 5 && props.pb < 5
      && 0x1000 <= props.dicSize && 0x8000_0000 % props.dicSize == 0 && length < 0xFFFF_FFFF_FFFF_FFFF
    }
  }

  /** A number with its low byte first. */
  function Little(s: seq<Byte>): nat {
    if s == [] then 0 else s[0] + 256 * Little(s[1..])
  }

  function LittleBytes(n: nat, k: nat): (s: seq<Byte>)
    ensures |s| == k
  {
    if k == 0 then [] else [n % 256] + LittleBytes(n / 256, k - 1)
  }

  /** dec_lzma_open: property byte, size of the dictionary, length of the output. */
  function Open(file: seq<Byte>): Option<Header> {
    if |file| < HEADER_SIZE then None
    else
      var dicSize := Little(file[1..5]);
      if dicSize == 0 || 0x8000_0000 % dicSize != 0 || dicSize < DIC_MIN then None
      else
        var d: nat := file[0];
        var length := Little(file[5..13]);
        if d >= 9 * 5 * 5 || length == UNKNOWN then None
        else Some(Header(Props(d % 9, d / 9 % 5, d / 9 / 5, dicSize), length))
  }

  /** The bytes of a header. */
  function Encode(h: Header): (s: seq<Byte>)
    requires h.Valid()
    ensures |s| == HEADER_SIZE
  {
    [h.props.lc + 9 * (h.props.lp + 5 * h.props.pb)] + LittleBytes(h.props.dicSize, 4) + LittleBytes(h.length, 8)
  }

  /** 256 to the power of `k`. */
  function Bytes(k: nat): (n: nat)
    ensures n >= 1
  {
    if k == 0 then 1 else 256 * Bytes(k - 1)
  }

  lemma FourAndEight()
    ensures Bytes(4) == WORD && Bytes(8) == UNKNOWN + 1
  {
    assert Bytes(2) == 0x1_0000 && Bytes(4) == 0x1_0000 * Bytes(2);
    assert Bytes(6) == 0x1_0000 * Bytes(4) && Bytes(8) == 0x1_0000 * Bytes(6);
  }

  lemma {:induction false} LittleBack(n: nat, k: nat)
    requires n < Bytes(k)
    ensures Little(LittleBytes(n, k)) == n
    decreases k
  {
    if k > 0 {
      LittleBack(n / 256, k - 1);
      assert LittleBytes(n, k)[1..] == LittleBytes(n / 256, k - 1);
    }
  }

  lemma {:induction false} BytesBack(s: seq<Byte>)
    ensures Little(s) < Bytes(|s|) && LittleBytes(Little(s), |s|) == s
    decreases |s|
  {
    if s != [] {
      BytesBack(s[1..]);
      assert s == [s[0]] + s[1..];
    }
  }

  lemma Divides(d: nat)
    requires d > 0 && 0x8000_0000 % d == 0
    ensures d <= 0x8000_0000
  {
  }

  lemma PropsOfByte(lc: nat, lp: nat, pb: nat)
    requires lc < 9 && lp < 5 && pb < 5
    ensures var d := lc + 9 * (lp + 5 * pb); d < 9 * 5 * 5 && d % 9 == lc && d / 9 % 5 == lp && d / 9 / 5 == pb
  {
    var d := lc + 9 * (lp + 5 * pb);
    assert d / 9 == lp + 5 * pb;
  }

  lemma ByteOfProps(d: nat)
    requires d < 9 * 5 * 5
    ensures d == d % 9 + 9 * (d / 9 % 5 + 5 * (d / 9 / 5)) && d / 9 / 5 < 5
  {
  }

  /** A header written is read back, whatever follows it. */
  lemma OpenEncoded(h: Header, rest: seq<Byte>)
    requires h.Valid()
    ensures Open(Encode(h) + rest) == Some(h)
  {
    hide Little, LittleBytes, Bytes;
    var p, file := h.props, Encode(h) + rest;
    Divides(p.dicSize);
    FourAndEight();
    LittleBack(p.dicSize, 4);
    LittleBack(h.length, 8);
    PropsOfByte(p.lc, p.lp, p.pb);
    assert file[1..5] == LittleBytes(p.dicSize, 4) && file[5..13] == LittleBytes(h.length, 8);
  }

  /** Exactly the files that begin with such a header are opened: what is not refused is a valid setting
      for the decoder, and the header is the one way to write it. */
  lemma OpenExact(file: seq<Byte>)
    ensures Open(file).Some? <==> exists h: Header :: h.Valid() && Encode(h) <= file
    ensures Open(file).Some? ==>
              var h := Open(file).value; h.Valid() && h.props.Valid() && file[..HEADER_SIZE] == Encode(h)
  {
    if Open(file).Some? {
      OpenedIs(file);
    }
    forall h: Header | h.Valid() && Encode(h) <= file
      ensures Open(file).Some?
    {
      OpenEncoded(h, file[HEADER_SIZE..]);
      assert file == Encode(h) + file[HEADER_SIZE..];
    }
  }

  lemma OpenedIs(file: seq<Byte>)
    requires Open(file).Some?
    ensures var h := Open(file).value; h.Valid() && h.props.Valid() && Encode(h) == file[..HEADER_SIZE]
    ensures Open(file).value.Valid() && Encode(Open(file).value) <= file
  {
    hide Little, LittleBytes, Bytes;
    var h := Open(file).value;
    FourAndEight();
    BytesBack(file[1..5]);
    BytesBack(file[5..13]);
    Divides(h.props.dicSize);
    ByteOfProps(file[0]);
    assert file[..HEADER_SIZE] == [file[0]] + file[1..5] + file[5..13];
  }
}
