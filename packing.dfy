/** A two-bit packing of DNA k-mers, four bases per byte, first base in the high bits. It shows
    that a packer that tells DNA k-mers apart exists, so the properties that assume one are not
    vacuous. */
module Packing {
  import opened KmerTypes

  /** The base whose two-bit code is `d`. */
  function Base(d: nat): Byte
    requires d < 4
  {
    if d == 0 then BASE_A else if d == 1 then BASE_C else if d == 2 then BASE_G else BASE_T
  }

  /** Two-bit code of a symbol: A, C, G, T as 0 to 3, any other byte as 0. */
  function Code(b: Byte): (d: nat)
    ensures d < 4
    ensures IsBase(b) ==> Base(d) == b
  {
    if b == BASE_C then 1 else if b == BASE_G then 2 else if b == BASE_T then 3 else 0
  }

  /** Code of the symbol at position `p`, 0 past the end of the k-mer. */
  function Digit(k: Kmer, p: nat): (d: nat)
    ensures d < 4
  {
    if p < KMER_LENGTH then Code(k[p]) else 0
  }

  /** Packed byte `j` holds the codes of symbols 4j to 4j+3. */
  function PackByte(k: Kmer, j: nat): Byte
  {
    Digit(k, 4 * j) * 64 + Digit(k, 4 * j + 1) * 16 + Digit(k, 4 * j + 2) * 4 + Digit(k, 4 * j + 3)
  }

  function TwoBitPack(k: Kmer): PackedKmer
  {
    seq(KMER_PACKED_LENGTH, j requires 0 <= j => PackByte(k, j))
  }

  /** A byte determines its four two-bit codes. */
  lemma DigitsOfByte(d0: nat, d1: nat, d2: nat, d3: nat, e0: nat, e1: nat, e2: nat, e3: nat)
    requires d0 < 4 && d1 < 4 && d2 < 4 && d3 < 4 && e0 < 4 && e1 < 4 && e2 < 4 && e3 < 4
    requires d0 * 64 + d1 * 16 + d2 * 4 + d3 == e0 * 64 + e1 * 16 + e2 * 4 + e3
    ensures d0 == e0 && d1 == e1 && d2 == e2 && d3 == e3
  {
  }

  /** Equal packed bytes hold equal codes for the four symbols they pack. */
  lemma PackByteDigits(a: Kmer, b: Kmer, j: nat)
    requires PackByte(a, j) == PackByte(b, j)
    ensures Digit(a, 4 * j) == Digit(b, 4 * j) && Digit(a, 4 * j + 1) == Digit(b, 4 * j + 1)
    ensures Digit(a, 4 * j + 2) == Digit(b, 4 * j + 2) && Digit(a, 4 * j + 3) == Digit(b, 4 * j + 3)
  {
    DigitsOfByte(Digit(a, 4 * j), Digit(a, 4 * j + 1), Digit(a, 4 * j + 2), Digit(a, 4 * j + 3),
                 Digit(b, 4 * j), Digit(b, 4 * j + 1), Digit(b, 4 * j + 2), Digit(b, 4 * j + 3));
  }

  /** Two DNA k-mers with the same two-bit packing agree at position `p`. */
  lemma SameSymbol(a: Kmer, b: Kmer, p: nat)
    requires IsDna(a) && IsDna(b) && TwoBitPack(a) == TwoBitPack(b) && p < KMER_LENGTH
    ensures a[p] == b[p]
  {
    var j := p / 4;
    assert PackByte(a, j) == TwoBitPack(a)[j] == TwoBitPack(b)[j] == PackByte(b, j);
    PackByteDigits(a, b, j);
    assert p == 4 * j || p == 4 * j + 1 || p == 4 * j + 2 || p == 4 * j + 3;
    assert Code(a[p]) == Digit(a, p) == Digit(b, p) == Code(b[p]);
    assert IsBase(a[p]) && IsBase(b[p]);
  }

  /** Two DNA k-mers with the same two-bit packing are the same k-mer. */
  lemma TwoBitPackInjective()
    ensures Injective(TwoBitPack)
  {
    forall a: Kmer, b: Kmer | IsDna(a) && IsDna(b) && TwoBitPack(a) == TwoBitPack(b)
      ensures a == b
    {
      forall p | 0 <= p < KMER_LENGTH
        ensures a[p] == b[p]
      {
        SameSymbol(a, b, p);
      }
    }
  }
}
