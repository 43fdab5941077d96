/** Constants, k-mer types and the packed record stored in the distributed k-mer hash table. */
module KmerTypes {

  /** Number of bases in a k-mer (KMER_LENGTH). */
  const KMER_LENGTH: nat := 19

  /** Buckets allocated per expected entry (LOAD_FACTOR). */
  const LOAD_FACTOR: nat := 1

  /** Width of one UFX line: the k-mer, a separator, two extension symbols and a newline (LINE_SIZE). */
  const LINE_SIZE: nat := KMER_LENGTH + 4

  /** Bytes of a packed k-mer (KMER_PACKED_LENGTH). The packing code that defines it is not part of
      this model; four bases per byte is assumed here, and only the two-bit packing witness
      depends on the value. */
  const KMER_PACKED_LENGTH: nat := (KMER_LENGTH + 3) / 4

  /** A C `char` or `unsigned char`, as the unsigned value of the 8 bits it holds. */
  type Byte = b: int | 0 <= b < 256

  /** The raw k-mer handed to the table: KMER_LENGTH symbols. */
  type Kmer = s: seq<Byte> | |s| == KMER_LENGTH witness seq(KMER_LENGTH, _ => 0)

  /** The packed key that the table hashes and compares: KMER_PACKED_LENGTH bytes. */
  type PackedKmer = s: seq<Byte> | |s| == KMER_PACKED_LENGTH witness seq(KMER_PACKED_LENGTH, _ => 0)

  /** packSequence: a deterministic map from k-mers to packed keys, supplied by the caller. */
  type Packer = Kmer -> PackedKmer

  /** The bytes of the four bases, 'A', 'C', 'G' and 'T'. */
  const BASE_A: Byte := 65
  const BASE_C: Byte := 67
  const BASE_G: Byte := 71
  const BASE_T: Byte := 84

  predicate IsBase(b: Byte)
  {
    b == BASE_A || b == BASE_C || b == BASE_G || b == BASE_T
  }

  /** A DNA k-mer: every symbol is one of the four bases. */
  predicate IsDna(k: Kmer)
  {
    forall i :: 0 <= i < |k| ==> IsBase(k[i])
  }

  /** Two distinct DNA k-mers never pack to the same bytes. Only DNA k-mers can be told apart:
      there are more byte strings of KMER_LENGTH than packed keys. */
  ghost predicate Injective(pack: Packer)
  {
    forall a: Kmer, b: Kmer :: IsDna(a) && IsDna(b) && pack(a) == pack(b) ==> a == b
  }

  datatype Option<T> = None | Some(value: T)

  /** kmer_t: the packed key, the left and right extensions, and the chain link, a heap slot index
      standing for the link (None is NULL). The source declares the link as a local `kmer_t *`,
      not as a pointer to shared memory; the model treats it as a global reference. */
  datatype Record = Record(key: PackedKmer, lExt: Byte, rExt: Byte, next: Option<nat>)

  /** The value given to heap slots before any unit writes them. */
  const BLANK: Record := Record(seq(KMER_PACKED_LENGTH, _ => 0), 0, 0, None)
}
