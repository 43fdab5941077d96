/** hashseq and hashkmer: Bernstein's djb2 string hash in unsigned 64-bit arithmetic,
    reduced modulo the number of buckets. */
module Hashing {
  import opened KmerTypes

  /** 2^64: `unsigned long` arithmetic wraps modulo this. */
  const TWO_64: int := 0x1_0000_0000_0000_0000

  /** The djb2 seed. */
  const SEED: nat := 5381

  /** The value a packed byte adds to the hash. The bytes are read through `char *`, read here as a
      signed `char`, as on x86-64, so a byte of 0x80 or more counts as negative. */
  function CharValue(b: Byte): int
  {
    if b < 0x80 then b else b - 0x100
  }

  /** One djb2 step, `hashval = seq[i] + (hashval << 5) + hashval`, in unsigned 64-bit arithmetic:
      the shift and the sum wrap modulo 2^64 (a negative `char` is converted modulo 2^64 too). */
  function Step(h: nat, b: Byte): (r: nat)
    ensures r < TWO_64
  {
    (CharValue(b) + (h * 32) % TWO_64 + h) % TWO_64
  }

  /** The djb2 left fold of `s` from `seed`, peeled at the last byte the way the loop extends it. */
  function Fold(seed: nat, s: seq<Byte>): nat
    decreases |s|
  {
    if s == [] then seed else Step(Fold(seed, s[..|s| - 1]), s[|s| - 1])
  }

  /** The unreduced djb2 hash of `s`. */
  function Djb2(s: seq<Byte>): nat
  {
    Fold(SEED, s)
  }

  /** An independent reading of the same fold: consume the first byte, then hash the rest. */
  function FoldFront(seed: nat, s: seq<Byte>): nat
    decreases |s|
  {
    if s == [] then seed else FoldFront(Step(seed, s[0]), s[1..])
  }

  /** Hashing a concatenation continues from the hash of its first part. */
  lemma {:induction false} FoldAppend(seed: nat, a: seq<Byte>, b: seq<Byte>)
    ensures Fold(seed, a + b) == Fold(Fold(seed, a), b)
    decreases |b|
  {
    if b == [] {
      assert a + b == a;
    } else {
      FoldAppend(seed, a, b[..|b| - 1]);
      assert (a + b)[..|a + b| - 1] == a + b[..|b| - 1];
    }
  }

  /** A step is djb2's documented update: the byte plus 33 times the hash, modulo 2^64. */
  lemma StepClosed(h: nat, b: Byte)
    requires h < TWO_64
    ensures Step(h, b) == (CharValue(b) + h * 33) % TWO_64
  {
  }

  /** The loop's fold and the front-first fold compute the same value on every input. */
  lemma {:induction false} FoldIsFoldFront(seed: nat, s: seq<Byte>)
    ensures Fold(seed, s) == FoldFront(seed, s)
    decreases |s|
  {
    if s != [] {
      FoldAppend(seed, [s[0]], s[1..]);
      assert [s[0]] + s[1..] == s;
      assert Fold(seed, [s[0]]) == Step(seed, s[0]) by {
        assert [s[0]][..0] == [];
      }
      FoldIsFoldFront(Step(seed, s[0]), s[1..]);
    }
  }

  /** Bucket index of `key` in a table of `tableSize` buckets: djb2 modulo the size. */
  function Hash(tableSize: int, key: seq<Byte>): (r: nat)
    requires tableSize > 0
    ensures r < tableSize
  {
    Djb2(key) % tableSize
  }

  /** hashseq: djb2 over the first `size` bytes of `s`, reduced modulo `hashtableSize`. */
  method HashSeq(hashtableSize: int, s: seq<Byte>, size: int) returns (r: int)
    requires hashtableSize > 0
    requires size <= |s|
    ensures 0 <= r < hashtableSize
    ensures r == Fold(SEED, s[..if size < 0 then 0 else size]) % hashtableSize
  {
    ghost var n := if size < 0 then 0 else size;
    var hashval: nat := SEED;
    var i := 0;
    while i < size
      invariant 0 <= i <= n
      invariant hashval == Fold(SEED, s[..i])
    {
      assert s[..i + 1][..i] == s[..i];
      hashval := (CharValue(s[i]) + (hashval * 32) % TWO_64 + hashval) % TWO_64;
      i := i + 1;
    }
    assert i == n;
    r := hashval % hashtableSize;
  }

  /** hashkmer: the bucket of a packed key, hashing exactly KMER_PACKED_LENGTH bytes. */
  method HashKmer(hashtableSize: int, key: PackedKmer) returns (r: int)
    requires hashtableSize > 0
    ensures 0 <= r < hashtableSize
    ensures r == Hash(hashtableSize, key)
  {
    r := HashSeq(hashtableSize, key, KMER_PACKED_LENGTH);
    assert key[..KMER_PACKED_LENGTH] == key;
  }
}
