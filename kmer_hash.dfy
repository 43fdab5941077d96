/** The distributed k-mer hash table: a fixed bucket array whose chains thread through a shared,
    partitioned record heap, filled by per-unit bump cursors. All units' accesses are applied one
    at a time to one store, and the insertion lock is a no-op. */
module KmerHash {
  import opened KmerTypes
  import opened Hashing
  import opened Chains
  import opened Arena

  /** hash_table_t: the bucket count and the bucket heads. The count is fixed at creation; nothing
      rehashes. `chains` lists each bucket's chain, head first. */
  class HashTable {
    const size: int
    const table: array<Option<nat>>
    ghost var chains: seq<seq<nat>>

    /** A table of `nBuckets` empty buckets. */
    constructor (nBuckets: nat)
      ensures size == nBuckets && table.Length == nBuckets && fresh(table)
      ensures forall b :: 0 <= b < nBuckets ==> table[b] == None
      ensures chains == seq(nBuckets, _ => [])
    {
      size := nBuckets;
      table := new Option<nat>[nBuckets](_ => None);
      chains := seq(nBuckets, _ => []);
    }
  }

  /** memory_heap_t of every unit: the one shared record heap and each unit's cursor posInHeap.
      The heap holds `threads` slices of `cap` slots. */
  class MemoryHeap {
    const heap: array<Record>
    var posInHeap: seq<nat>
    ghost const threads: nat
    ghost const cap: nat

    /** The shared heap for `threads` units expecting `nEntries` records in all, with every unit's
        cursor at the start of its own slice. */
    constructor (nEntries: nat, threads: nat)
      requires threads > 0
      ensures this.threads == threads && cap == nEntries / threads + 1
      ensures heap.Length == threads * cap && fresh(heap)
      ensures |posInHeap| == threads
      ensures forall u :: 0 <= u < threads ==> posInHeap[u] == u * cap
    {
      var c := Capacity(nEntries, threads);
      this.threads := threads;
      cap := c;
      heap := new Record[threads * c](_ => BLANK);
      posInHeap := seq(threads, u => u * c);
    }
  }

  /** Bucket `b` heads the chain `c`, every slot of which has been claimed and holds a key that
      hashes to `b`. */
  ghost predicate BucketOk(size: int, heap: seq<Record>, posInHeap: seq<nat>, cap: nat,
                           b: nat, head: Option<nat>, c: seq<nat>)
  {
    && size > 0
    && IsChain(heap, head, c)
    && forall k :: 0 <= k < |c| ==> Claimed(posInHeap, cap, c[k]) && Hash(size, heap[c[k]].key) == b
  }

  /** The invariant of the table and the heap, stated on their values. */
  ghost predicate StoreOk(size: int, table: seq<Option<nat>>, chains: seq<seq<nat>>,
                          heap: seq<Record>, posInHeap: seq<nat>, threads: nat, cap: nat)
  {
    && size == |table| == |chains|
    && threads > 0 && cap > 0
    && |heap| == threads * cap
    && CursorsInSlices(posInHeap, threads, cap)
    && forall b :: 0 <= b < |chains| ==> BucketOk(size, heap, posInHeap, cap, b, table[b], chains[b])
  }

  ghost predicate Valid(t: HashTable, m: MemoryHeap)
    reads t, t.table, m, m.heap
  {
    StoreOk(t.size, t.table[..], t.chains, m.heap[..], m.posInHeap, m.threads, m.cap)
  }

  /** Inserting `rec` at unit `u`'s cursor and prepending it to its bucket keeps the invariant:
      `table'`, `chains'`, `heap'` and `posInHeap'` are the state after the insertion. */
  lemma AddKeepsStoreOk(size: int, table: seq<Option<nat>>, chains: seq<seq<nat>>,
                        heap: seq<Record>, posInHeap: seq<nat>, threads: nat, cap: nat,
                        u: nat, rec: Record,
                        table': seq<Option<nat>>, chains': seq<seq<nat>>,
                        heap': seq<Record>, posInHeap': seq<nat>)
    requires StoreOk(size, table, chains, heap, posInHeap, threads, cap) && size > 0
    requires u < threads && posInHeap[u] < u * cap + cap
    requires rec.next == table[Hash(size, rec.key)]
    requires var pos, b := posInHeap[u], Hash(size, rec.key);
      && pos < |heap| && heap' == heap[pos := rec]
      && table' == table[b := Some(pos)] && chains' == chains[b := [pos] + chains[b]]
      && posInHeap' == posInHeap[u := pos + 1]
    ensures StoreOk(size, table', chains', heap', posInHeap', threads, cap)
  {
    var pos, b := posInHeap[u], Hash(size, rec.key);
    SliceInHeap(u, threads, cap);
    ClaimNext(posInHeap, threads, cap, u);
    forall b' | 0 <= b' < |chains'|
      ensures BucketOk(size, heap', posInHeap', cap, b', table'[b'], chains'[b'])
    {
      var c := chains[b'];
      assert BucketOk(size, heap, posInHeap, cap, b', table[b'], c);
      assert pos !in c by {
        assert forall k :: 0 <= k < |c| ==> c[k] != pos;
      }
      if b' == b {
        PrependChain(heap, table[b], c, pos, rec);
        forall k | 0 <= k < |chains'[b']|
          ensures Claimed(posInHeap', cap, chains'[b'][k]) && Hash(size, heap'[chains'[b'][k]].key) == b'
        {
          if k > 0 {
            assert chains'[b'][k] == c[k - 1];
          }
        }
      } else {
        IsChainFrame(heap, table[b'], c, pos, rec);
      }
    }
  }

  /** upc_create_hash_table, called by all units together: nEntries * LOAD_FACTOR empty buckets and
      a heap of `threads` slices of nEntries/threads + 1 records, every unit's cursor at the start of
      its own slice. */
  method CreateHashTable(nEntries: nat, threads: nat) returns (t: HashTable, m: MemoryHeap)
    requires threads > 0
    ensures fresh(t) && fresh(t.table) && fresh(m) && fresh(m.heap)
    ensures Valid(t, m)
    ensures t.size == nEntries * LOAD_FACTOR
    ensures m.threads == threads && m.cap == nEntries / threads + 1
    ensures m.heap.Length == threads * (nEntries / threads + 1)
    ensures forall u :: 0 <= u < threads ==> m.posInHeap[u] == u * (nEntries / threads + 1)
    ensures forall b :: 0 <= b < t.table.Length ==> t.table[b] == None && t.chains[b] == []
  {
    var nBuckets := nEntries * LOAD_FACTOR;
    t := new HashTable(nBuckets);
    m := new MemoryHeap(nEntries, threads);
    forall u | 0 <= u < threads
      ensures u * m.cap <= m.posInHeap[u] <= u * m.cap + m.cap <= threads * m.cap
    {
      SliceInHeap(u, threads, m.cap);
    }
  }

  /** add_kmer, run by unit `myThread`: writes the packed key and the extensions into the slot at
      the unit's cursor, links that slot in front of its bucket's chain, advances the cursor by one
      and returns 0. Nothing else in the table or the heap changes, and no duplicate is detected.
      The source never checks that the unit's slice has room; here that is a precondition. */
  method AddKmer(t: HashTable, m: MemoryHeap, myThread: nat, kmer: Kmer, leftExt: Byte, rightExt: Byte,
                 pack: Packer) returns (r: int)
    requires Valid(t, m) && t.size > 0
    requires myThread < m.threads
    requires m.posInHeap[myThread] < myThread * m.cap + m.cap
    modifies t, t.table, m, m.heap
    ensures Valid(t, m) && r == 0
    ensures var pos, b := old(m.posInHeap[myThread]), Hash(t.size, pack(kmer));
      && myThread * m.cap <= pos < myThread * m.cap + m.cap
      && m.heap[..] == old(m.heap[..])[pos := Record(pack(kmer), leftExt, rightExt, old(t.table[b]))]
      && t.table[..] == old(t.table[..])[b := Some(pos)]
      && t.chains == old(t.chains)[b := [pos] + old(t.chains[b])]
      && m.posInHeap == old(m.posInHeap)[myThread := pos + 1]
  {
    var packedKmer := pack(kmer);
    var hashval := HashKmer(t.size, packedKmer);
    var pos := m.posInHeap[myThread];
    ghost var rec := Record(packedKmer, leftExt, rightExt, t.table[hashval]);
    ghost var table0, chains0, heap0, posInHeap0 := t.table[..], t.chains, m.heap[..], m.posInHeap;
    m.heap[pos] := m.heap[pos].(key := packedKmer, lExt := leftExt, rExt := rightExt);
    // The insertion lock is held from here to the end of the link step.
    m.heap[pos] := m.heap[pos].(next := t.table[hashval]);
    t.table[hashval] := Some(pos);
    t.chains := t.chains[hashval := [pos] + t.chains[hashval]];
    m.posInHeap := m.posInHeap[myThread := pos + 1];
    assert m.heap[..] == heap0[pos := rec];
    assert t.table[..] == table0[hashval := Some(pos)];
    AddKeepsStoreOk(t.size, table0, chains0, heap0, posInHeap0, m.threads, m.cap, myThread, rec,
                    t.table[..], t.chains, m.heap[..], m.posInHeap);
    r := 0;
  }

  /** lookup_kmer: walks the chain of the key's bucket from its head and returns the first record
      whose packed key equals the packed query. A miss, which the source leaves undefined, returns
      None here. */
  method LookupKmer(t: HashTable, m: MemoryHeap, kmer: Kmer, pack: Packer) returns (result: Option<Record>)
    requires Valid(t, m) && t.size > 0
    ensures var c := t.chains[Hash(t.size, pack(kmer))];
      InHeap(m.heap[..], c) && result == FirstMatch(m.heap[..], c, pack(kmer))
  {
    var packedKmer := pack(kmer);
    var hashval := HashKmer(t.size, packedKmer);
    ghost var c := t.chains[hashval];
    assert BucketOk(t.size, m.heap[..], m.posInHeap, m.cap, hashval, t.table[hashval], c);
    var resultPtr := t.table[hashval];
    ghost var k := 0;
    while resultPtr.Some?
      invariant 0 <= k <= |c|
      invariant resultPtr == HeadOf(c[k..])
      invariant FirstMatch(m.heap[..], c[k..], packedKmer) == FirstMatch(m.heap[..], c, packedKmer)
      decreases |c| - k
    {
      var record := m.heap[resultPtr.value];
      if record.key == packedKmer {
        return Some(record);
      }
      resultPtr := record.next;
      assert c[k..][1..] == c[k + 1..];
      k := k + 1;
    }
    result := None;
  }

  /** start_kmer_t list of one unit: the kmerPtr of each entry, head first. */
  class StartList {
    var entries: seq<nat>

    constructor ()
      ensures entries == []
    {
      entries := [];
    }
  }

  /** Every entry of the start list refers to a slot that has been written. */
  ghost predicate StartListOk(list: StartList, m: MemoryHeap)
    reads list, m
  {
    forall e :: e in list.entries ==> Claimed(m.posInHeap, m.cap, e)
  }

  /** addKmerToStartList: prepends an entry for the record at posInHeap - 1, the one the unit has
      just added; the heap and the cursors are not touched. */
  method AddKmerToStartList(m: MemoryHeap, myThread: nat, startKmersList: StartList)
    requires m.cap > 0 && CursorsInSlices(m.posInHeap, m.threads, m.cap) && myThread < m.threads
    requires m.posInHeap[myThread] > myThread * m.cap
    modifies startKmersList
    ensures startKmersList.entries == [m.posInHeap[myThread] - 1] + old(startKmersList.entries)
    ensures old(StartListOk(startKmersList, m)) ==> StartListOk(startKmersList, m)
  {
    var prevPosInHeap := m.posInHeap[myThread] - 1;
    SlotOwner(myThread, m.cap, prevPosInHeap);
    startKmersList.entries := [prevPosInHeap] + startKmersList.entries;
  }

  /** A unit adding a DNA k-mer other than the DNA k-mer `kmer` leaves the lookup of `kmer` as it
      was, because the packing tells distinct DNA k-mers apart. */
  lemma AddKeepsOtherLookups(size: int, table: seq<Option<nat>>, chains: seq<seq<nat>>,
                             heap: seq<Record>, posInHeap: seq<nat>, threads: nat, cap: nat,
                             u: nat, pack: Packer, added: Kmer, l: Byte, r: Byte, kmer: Kmer)
    requires StoreOk(size, table, chains, heap, posInHeap, threads, cap) && size > 0
    requires u < threads && posInHeap[u] < u * cap + cap
    requires Injective(pack) && IsDna(added) && IsDna(kmer) && added != kmer
    ensures var pos, b := posInHeap[u], Hash(size, pack(added));
      var rec := Record(pack(added), l, r, table[b]);
      var chains' := chains[b := [pos] + chains[b]];
      var c, c' := chains[Hash(size, pack(kmer))], chains'[Hash(size, pack(kmer))];
      && pos < |heap| && InHeap(heap, c) && InHeap(heap[pos := rec], c')
      && FirstMatch(heap[pos := rec], c', pack(kmer)) == FirstMatch(heap, c, pack(kmer))
  {
    var pos, b := posInHeap[u], Hash(size, pack(added));
    var rec := Record(pack(added), l, r, table[b]);
    var hk := Hash(size, pack(kmer));
    var c := chains[hk];
    assert BucketOk(size, heap, posInHeap, cap, hk, table[hk], c);
    ClaimNext(posInHeap, threads, cap, u);
    assert pos !in c by {
      assert forall k :: 0 <= k < |c| ==> c[k] != pos;
    }
    FirstMatchFrame(heap, c, pack(kmer), pos, rec);
    if hk == b {
      assert pack(added) != pack(kmer);
      LookupSkipsOtherKey(heap[pos := rec], c, pos, pack(kmer));
    }
  }
}
