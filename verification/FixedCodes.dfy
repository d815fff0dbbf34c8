/** The fixed codes of deflate (RFC 1951, section 3.2.6), bit by bit. */
module FixedCodes {
  import opened Words
  import opened Arith
  import opened Bits
  import opened Huffman
  import opened HuftCanonical
  import opened Deflate
  import opened GunzipHeaders

  /** Where a symbol stands in order of the codes. */
  function Place(i: nat): nat
    requires i < 288
  {
    if i < 144 then 24 + i else if i < 256 then 176 + (i - 144) else if i < 280 then i - 256 else 168 + (i - 280)
  }

  /** The symbol with the code before. */
  function Previous(i: nat): (j: nat)
    requires i < 288 && i != 256
    ensures j < 288 && Place(j) + 1 == Place(i)
  {
    if i == 0 then 279 else if i == 280 then 143 else if i == 144 then 287 else i - 1
  }

  lemma PlacedNext(i: nat)
    requires i < 288 && i != 256
    ensures IsNext(FixedLit(), Previous(i), i)
  {
    hide FixedLit;
    FixedLengthsOk();
  }

  lemma PlacedFirst()
    ensures IsFirst(FixedLit(), 256)
  {
    hide FixedLit;
    FixedLengthsOk();
  }

  /** The codes of the table: 00110000 to 10111111, 110010000 to 111111111, 0000000 to 0010111, and 11000000
      to 11000111. */
  lemma {:induction false} FixedCode(i: nat)
    requires i < 288
    ensures LengthsOk(FixedLit())
    ensures BE(Code(FixedLit(), i))
         == if i < 144 then 0x30 + i else if i < 256 then 0x190 + (i - 144) else if i < 280 then i - 256
            else 0xC0 + (i - 280)
    decreases Place(i)
  {
    hide FixedLit, Code, Kraft, IsNext, IsFirst, Pow2, BE;
    FixedLengthsOk();
    FixedLitKraft();
    if i == 256 {
      PlacedFirst();
      FirstCodeZero(FixedLit(), 256);
    } else {
      FixedCode(Previous(i));
      PlacedNext(i);
      NextIsBehind(FixedLit(), Previous(i), i);
      SmallPowers();
    }
  }
}
