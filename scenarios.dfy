/** Callers of the table: what a sequence of insertions and lookups guarantees, derived from the
    contracts of AddKmer and LookupKmer alone. */
module KmerHashScenarios {
  import opened KmerTypes
  import opened Hashing
  import opened Chains
  import opened KmerHash

  /** A lookup right after an insertion returns the record just written: its packed key, both
      extensions, and the old head of the bucket as its link. */
  method InsertThenLookup(t: HashTable, m: MemoryHeap, u: nat, kmer: Kmer, leftExt: Byte, rightExt: Byte,
                          pack: Packer) returns (result: Option<Record>)
    requires Valid(t, m) && t.size > 0
    requires u < m.threads && m.posInHeap[u] < u * m.cap + m.cap
    modifies t, t.table, m, m.heap
    ensures Valid(t, m)
    ensures result == Some(Record(pack(kmer), leftExt, rightExt, old(t.table[Hash(t.size, pack(kmer))])))
  {
    var _ := AddKmer(t, m, u, kmer, leftExt, rightExt, pack);
    result := LookupKmer(t, m, kmer, pack);
    var b := Hash(t.size, pack(kmer));
    LookupFindsNewest(m.heap[..], old(t.chains[b]), old(m.posInHeap[u]));
  }

  /** A k-mer inserted, then another k-mer inserted by any unit, into any bucket: a lookup of the
      first still returns the record written for it. */
  method LookupAfterOtherInsert(t: HashTable, m: MemoryHeap, uA: nat, a: Kmer, la: Byte, ra: Byte,
                                uB: nat, b: Kmer, lb: Byte, rb: Byte, pack: Packer)
    returns (result: Option<Record>)
    requires Valid(t, m) && t.size > 0
    requires Injective(pack) && IsDna(a) && IsDna(b) && a != b
    requires uA < m.threads && uB < m.threads
    requires m.posInHeap[uA] < uA * m.cap + m.cap && m.posInHeap[uB] < uB * m.cap + m.cap
    requires uA == uB ==> m.posInHeap[uA] + 1 < uA * m.cap + m.cap
    modifies t, t.table, m, m.heap
    ensures Valid(t, m)
    ensures result == Some(Record(pack(a), la, ra, old(t.table[Hash(t.size, pack(a))])))
  {
    var _ := AddKmer(t, m, uA, a, la, ra, pack);
    ghost var hA := Hash(t.size, pack(a));
    LookupFindsNewest(m.heap[..], old(t.chains[hA]), old(m.posInHeap[uA]));
    AddKeepsOtherLookups(t.size, t.table[..], t.chains, m.heap[..], m.posInHeap, m.threads, m.cap,
                         uB, pack, b, lb, rb, a);
    var _ := AddKmer(t, m, uB, b, lb, rb, pack);
    result := LookupKmer(t, m, a, pack);
  }

  /** A unit's start list, begun empty, after the unit inserts one k-mer and records it: the list
      holds exactly the slot just written, which holds the k-mer's key and extensions. */
  method StartWithOneKmer(t: HashTable, m: MemoryHeap, u: nat, kmer: Kmer, leftExt: Byte, rightExt: Byte,
                          pack: Packer) returns (startKmersList: StartList)
    requires Valid(t, m) && t.size > 0
    requires u < m.threads && m.posInHeap[u] < u * m.cap + m.cap
    modifies t, t.table, m, m.heap
    ensures Valid(t, m) && fresh(startKmersList) && StartListOk(startKmersList, m)
    ensures startKmersList.entries == [old(m.posInHeap[u])]
    ensures var s := startKmersList.entries[0];
      s < m.heap.Length && m.heap[s].key == pack(kmer) && m.heap[s].lExt == leftExt && m.heap[s].rExt == rightExt
  {
    startKmersList := new StartList();
    var _ := AddKmer(t, m, u, kmer, leftExt, rightExt, pack);
    AddKmerToStartList(m, u, startKmersList);
  }

  /** Two k-mers inserted one after the other into the same bucket, by any units: the bucket heads
      at the second record, whose link is the first, and the rest of the chain is as it was. */
  method ChainOrder(t: HashTable, m: MemoryHeap, uA: nat, a: Kmer, uB: nat, b: Kmer, pack: Packer)
    requires Valid(t, m) && t.size > 0
    requires Hash(t.size, pack(a)) == Hash(t.size, pack(b))
    requires uA < m.threads && uB < m.threads
    requires m.posInHeap[uA] < uA * m.cap + m.cap && m.posInHeap[uB] < uB * m.cap + m.cap
    requires uA == uB ==> m.posInHeap[uA] + 1 < uA * m.cap + m.cap
    modifies t, t.table, m, m.heap
    ensures Valid(t, m)
    ensures var bucket, sA := Hash(t.size, pack(a)), old(m.posInHeap[uA]);
      var sB := if uA == uB then sA + 1 else old(m.posInHeap[uB]);
      && t.table[bucket] == Some(sB) && m.heap[sB].next == Some(sA)
      && t.chains[bucket] == [sB, sA] + old(t.chains[bucket])
  {
    var _ := AddKmer(t, m, uA, a, 0, 0, pack);
    ghost var bucket, sA := Hash(t.size, pack(a)), old(m.posInHeap[uA]);
    ghost var chain1 := t.chains[bucket];
    assert chain1 == [sA] + old(t.chains[bucket]) && t.table[bucket] == Some(sA);
    ghost var sB := m.posInHeap[uB];
    assert sB == if uA == uB then sA + 1 else old(m.posInHeap[uB]);
    var _ := AddKmer(t, m, uB, b, 0, 0, pack);
    assert m.heap[..][sB] == Record(pack(b), 0, 0, Some(sA));
    assert t.chains[bucket] == [sB] + chain1;
  }

  /** Inserting the same k-mer twice keeps both records: the bucket's chain starts with both slots,
      newest first, and both hold the key. */
  method DuplicateInsert(t: HashTable, m: MemoryHeap, u: nat, kmer: Kmer, pack: Packer)
    requires Valid(t, m) && t.size > 0
    requires u < m.threads && m.posInHeap[u] + 1 < u * m.cap + m.cap
    modifies t, t.table, m, m.heap
    ensures Valid(t, m)
    ensures var bucket, s := Hash(t.size, pack(kmer)), old(m.posInHeap[u]);
      && t.chains[bucket] == [s + 1, s] + old(t.chains[bucket])
      && m.heap[s].key == pack(kmer) && m.heap[s + 1].key == pack(kmer)
  {
    var _ := AddKmer(t, m, u, kmer, 0, 0, pack);
    var _ := AddKmer(t, m, u, kmer, 0, 0, pack);
  }
}
