# UPC k-mer hash table, modelled in Dafny

This project models the distributed k-mer hash table of `src/upc_kmer_hash.h`. The table is built from two shared arrays:

- a bucket array whose size is fixed when it is created;
- a record heap divided into one equal slice per unit (process). Each unit fills its own slice with a bump cursor, `posInHeap`.

`add_kmer` writes a record at the calling unit's cursor, puts it at the front of its bucket's chain, and advances the cursor. `lookup_kmer` walks a bucket's chain and compares packed keys. `addKmerToStartList` puts the record just inserted on the front of a unit-local list. `getNumKmersInUFX` counts the fixed-width lines of a UFX file so that the table can be sized.

Modules:

- `KmerTypes` (`kmer_types.dfy`): the constants `KMER_LENGTH`, `LOAD_FACTOR`, `LINE_SIZE` and `KMER_PACKED_LENGTH`, k-mers and packed keys, the DNA alphabet, and the `kmer_t` record. A chain link is the index of a heap slot; `None` stands for NULL.
- `Hashing` (`hashing.dfy`): `hashseq` and `hashkmer`. This is djb2 with seed 5381 and the step `hashval = seq[i] + (hashval << 5) + hashval`, computed in unsigned 64-bit arithmetic and reduced modulo the table size. The wrap-around at 2^64 is written out as `% 2^64`. The bytes are read through `char *`, so bytes of 0x80 or more count as negative, as they do where `char` is signed.
- `Chains` (`chains.dfy`): a chain is the list of heap slots reached from a bucket head. This module defines the record a chain walk returns, and proves how writing a slot and prepending to a chain affect a lookup.
- `Arena` (`arena.dfy`): the slice arithmetic. A slice has `nEntries/THREADS + 1` slots. A slot belongs to the unit whose slice holds it, and distinct units never share a slot.
- `KmerHash` (`kmer_hash.dfy`): the `HashTable` and `MemoryHeap` classes, the invariant they keep, and creation, insertion, lookup and the start list.
  - The shared bucket array and the shared heap are Dafny arrays.
  - Each `HashTable` keeps a ghost list of every bucket's chain.
  - The per-unit `memory_heap_t` structs are gathered into one `MemoryHeap`. It holds the shared heap and one cursor per unit. `THREADS` and `MYTHREAD` become parameters.
- `Packing` (`packing.dfy`): a two-bit packing of four bases per byte. It is proved to tell DNA k-mers apart, so a packer with that property exists.
- `KmerHashScenarios` (`scenarios.dfy`): sequences of calls, such as an insertion followed by a lookup, or two insertions into one bucket. Each one's result follows from the operations' contracts.
- `Ufx` (`ufx.dfy`): the validity and arithmetic part of `getNumKmersInUFX`, as a pure function. It takes as inputs what the file reads return.

The invariant `KmerHash.Valid` says five things:

- the bucket count equals the table size;
- every cursor lies within its unit's slice, and every slice lies within the heap;
- every bucket head starts a null-terminated chain;
- every slot on a chain is one that some unit has claimed;
- every record on chain `b` hashes to `b`.

`AddKmer` keeps this invariant. `LookupKmer`'s loop relies on it.

## Model

| member | source | states |
|---|---|---|
| `Hashing.Step` | src/upc_kmer_hash.h:159 | one djb2 step stays in the 64-bit range: the shift, the sum and the sign-extended `char` wrap modulo 2^64 |
| `Hashing.StepClosed` | src/upc_kmer_hash.h:159 | for a hash below 2^64, a step equals djb2's update (byte + 33 * hash) modulo 2^64 |
| `Hashing.FoldAppend` | src/upc_kmer_hash.h:157-160 | hashing a concatenation continues from the hash of its first part (the loop is a left fold) |
| `Hashing.FoldIsFoldFront` | src/upc_kmer_hash.h:157-160 | the loop's fold (extended at the last byte) equals the front-first fold (seed 5381, consume a byte, hash the rest) on every input |
| `Hashing.Hash` | src/upc_kmer_hash.h:162 | the bucket index is below the table size for every positive size |
| `Hashing.HashSeq` | src/upc_kmer_hash.h:154-163 | hashseq returns a value in [0, hashtable_size) equal to the djb2 fold over exactly the first `size` bytes (none when `size` is not positive), reduced modulo the size |
| `Hashing.HashKmer` | src/upc_kmer_hash.h:166-169 | hashkmer hashes exactly the KMER_PACKED_LENGTH bytes of the packed key and lands in [0, size) |
| `Chains.FirstMatch` | src/upc_kmer_hash.h:185-191 | a chain walk finds a record exactly when some record of the chain has the key; the record found has that key, and no record before it on the chain does |
| `Chains.FirstMatchFrame` | src/upc_kmer_hash.h:208-210 | writing a heap slot that is not on a chain leaves every lookup on that chain unchanged |
| `Chains.IsChainFrame` | src/upc_kmer_hash.h:208-210 | writing a heap slot that is not on a chain leaves the chain's links intact |
| `Chains.PrependChain` | src/upc_kmer_hash.h:218-223 | setting the new slot's link to the old head and the head to the new slot yields the old chain with the new slot in front |
| `Chains.LookupFindsNewest` | src/upc_kmer_hash.h:185-188 | a walk of a chain headed by a slot returns that slot's record when the key is its key (LIFO: the newest insertion wins) |
| `Chains.LookupSkipsOtherKey` | src/upc_kmer_hash.h:186-190 | a record with a different key at the head does not change what a lookup finds |
| `Arena.Capacity` | src/upc_kmer_hash.h:143-144 | the slice size nEntries/THREADS + 1 is positive, and THREADS slices hold more than nEntries records |
| `Arena.SlotOwner` | src/upc_kmer_hash.h:149 | a slot of unit u's slice [u*cap, (u+1)*cap) belongs to unit u (the slot divided by cap is u) |
| `Arena.PartitionsDisjoint` | src/upc_kmer_hash.h:149 | for distinct units and offsets below cap, the slots u1*cap + i1 and u2*cap + i2 differ: units write disjoint slot ranges |
| `Arena.SliceInHeap` | src/upc_kmer_hash.h:143-144 | every unit's slice ends within the heap of THREADS*cap slots |
| `Arena.ClaimNext` | src/upc_kmer_hash.h:203 | the slot at a unit's cursor is unclaimed; advancing the cursor by one claims it, keeps every earlier claim and keeps every cursor in its slice |
| `KmerHash.HashTable.constructor` | src/upc_kmer_hash.h:128-135 | a table of nBuckets buckets, all empty, whose size is the bucket count |
| `KmerHash.MemoryHeap.constructor` | src/upc_kmer_hash.h:143-149 | a heap of THREADS slices of nEntries/THREADS + 1 records, with unit u's cursor at u * (nEntries/THREADS + 1) |
| `KmerHash.AddKeepsStoreOk` | src/upc_kmer_hash.h:203-226 | writing the record at a unit's cursor, linking it at the head of its bucket and advancing the cursor keeps the table invariant (null-terminated chains of claimed slots whose keys hash to their bucket) |
| `KmerHash.CreateHashTable` | src/upc_kmer_hash.h:125-152 | creation gives size = nEntries * LOAD_FACTOR with every bucket empty, a heap of THREADS * (nEntries/THREADS + 1) slots, and cursor u at u * (nEntries/THREADS + 1); the invariant holds |
| `KmerHash.AddKmer` | src/upc_kmer_hash.h:197-229 | add_kmer returns 0. The slot at the old cursor holds the packed key, both extensions and the bucket's old head as its link. Bucket hashkmer(key) now heads at that slot, and its chain is the old one with the slot in front. The cursor advances by exactly 1. No other bucket, heap slot or cursor changes, and the size never changes. The slot lies in the unit's own slice |
| `KmerHash.LookupKmer` | src/upc_kmer_hash.h:172-194 | lookup_kmer returns the first record, head to tail, of chain hashkmer(packed key) whose key equals the packed key |
| `KmerHash.AddKmerToStartList` | src/upc_kmer_hash.h:233-244 | one entry pointing at heap slot posInHeap - 1 is prepended and the old list becomes its tail. Every entry still refers to a claimed slot. The heap and the cursors are not in its frame |
| `KmerHash.AddKeepsOtherLookups` | src/upc_kmer_hash.h:186-189 | for a packing that tells DNA k-mers apart, inserting a DNA k-mer leaves the lookup result of every other DNA k-mer unchanged |
| `KmerHashScenarios.InsertThenLookup` | src/upc_kmer_hash.h:219-222 | looking a k-mer up right after inserting it returns its packed key and the extensions just inserted |
| `KmerHashScenarios.LookupAfterOtherInsert` | src/upc_kmer_hash.h:185-191 | after inserting DNA k-mer A and then a different DNA k-mer B, by any units and into any buckets (the same one included), a lookup of A still returns A's packed key and extensions |
| `KmerHashScenarios.StartWithOneKmer` | src/upc_kmer_hash.h:197-244 | an empty start list, after add_kmer and addKmerToStartList, holds exactly the slot just written, which holds the k-mer's packed key and extensions; every entry is a claimed slot |
| `KmerHash.StartList.constructor` | src/upc_kmer_hash.h:53-57 | a unit's start list begins empty (NULL) |
| `KmerHashScenarios.ChainOrder` | src/upc_kmer_hash.h:218-223 | after inserting A and then B into the same bucket, the head is B's slot, B's link is A's slot, and the chain is [B, A] followed by the old chain |
| `KmerHashScenarios.DuplicateInsert` | src/upc_kmer_hash.h:197-229 | inserting the same k-mer twice yields two chain entries with that key, the newest first: no duplicate detection |
| `Ufx.NumKmersInUfx` | src/upc_kmer_hash.h:81-118 | the result is a count exactly when the file opened, LINE_SIZE bytes were read, the byte at KMER_LENGTH is a space or tab, and the size is known and a multiple of LINE_SIZE; the count times LINE_SIZE is the size; a failed open gives -1, a short first read -2, a failed fstat after a good first line -5; every other outcome is -4 or -6, and -3 never occurs |
| `Ufx.CountsWholeLines` | src/upc_kmer_hash.h:109-117 | a file of n lines with a well-formed first line counts as n records |
| `Ufx.PartialLineRejected` | src/upc_kmer_hash.h:110-113 | a size that is not a multiple of LINE_SIZE is reported as -6, not as a count |
| `Packing.TwoBitPackInjective` | src/upc_kmer_hash.h:174-175 | packing four bases per byte, two bits each, maps distinct DNA k-mers to distinct packed keys |
| `Ufx.FormatCheckedBeforeSize` | src/upc_kmer_hash.h:98-101 | a first line without a space or tab at index KMER_LENGTH gives -4, whatever the size |

## Left out

- Concurrency: `upc_lock`/`upc_unlock`, the `shared` qualifiers and the remote `upc_memget`/`upc_memput` are not modelled. All units' operations are applied one at a time to one store, and the lock is a no-op. The disjointness of the units' slices is proved (`Arena.PartitionsDisjoint`); interleavings are not.
- Chain links as local pointers: `kmer_t.next` is declared as a local `kmer_t *` (src/upc_kmer_hash.h:50), while bucket heads and start-list entries are pointers to shared memory. `add_kmer` stores a shared pointer into it, and `lookup_kmer` turns it back into a shared pointer. In UPC that conversion is undefined for a record held by another unit, and a local pointer does not carry the owning unit. The model treats every link as a global heap slot index. So what it proves about chains whose records belong to different units (`KmerHashScenarios.ChainOrder`, `KmerHashScenarios.LookupAfterOtherInsert`, `KmerHash.AddKeepsOtherLookups` "by any unit") holds for the evidently intended global link, not for the pointer conversions as written.
- Allocation failure: when `upc_all_alloc` fails, the source calls `exit(1)`; the model does not include this path. This also covers a negative `nEntries`, whose allocation request cannot be met, so `nEntries` is a `nat` here. The 64-bit products `nEntries * LOAD_FACTOR` and the heap's byte size are unbounded integers in the model.
- Teardown: `dealloc_heap` and `dealloc_hashtable` only call `upc_free`, and Dafny has no explicit deallocation.
- `gettime` reads the system clock and returns floating point.
- `packSequence` and the value of `KMER_PACKED_LENGTH` are defined outside `src/upc_kmer_hash.h`; `packingDNAseq.h` is not part of this model. Packing is a parameter of type `Kmer -> PackedKmer`. It is deterministic by construction. Where a property needs distinct k-mers to have distinct keys, it requires a packing that is one-to-one on DNA k-mers (`Injective`) and k-mers made of A, C, G and T only. No packing into KMER_PACKED_LENGTH bytes can be one-to-one on all byte strings of KMER_LENGTH. `Packing.TwoBitPackInjective` shows that such a packing exists. `KMER_PACKED_LENGTH` is taken as (KMER_LENGTH + 3) / 4, and only the `Packing` witness depends on its value: it needs room for two bits per base. `Packing.TwoBitPack` is not the source's `packSequence`, whose encoding is not modelled.
- File handling in `getNumKmersInUFX` is abstracted: `fopen`, `fread`, `fstat`, `fclose` and the messages. Whether the file opened, the first LINE_SIZE bytes (or a short read) and the size (or a failed `fstat`) are inputs.
- KmerHash.LookupKmer: on a miss the source reads through a NULL pointer and returns a stale buffer; the model returns None instead. No claim is made about the source's behaviour on a miss.
- KmerHash.AddKmer: requires that the unit's slice still has a free slot. The source never checks this; it overwrites the next unit's slice instead.
- KmerHash.AddKmer: requires a table of at least one bucket. The source divides by the table size, so a table created with `nEntries = 0` has no defined insertion or lookup; KmerHash.LookupKmer requires the same.
- KmerHash.AddKmerToStartList: requires that the unit has already inserted a record into its own slice. The source's comment says the k-mer was just added; the source itself computes the address of slot posInHeap - 1 unconditionally.
- Initial memory: the model starts every bucket head as NULL and every heap slot as a blank record. The source never initialises either: it relies on the runtime's fresh shared memory reading as NULL. The model never reads a heap slot that no unit has written.
- `char` signedness is implementation-defined. The hash is modelled for a signed `char`, which is the common case on x86-64. `unsigned long` is taken to be 64 bits wide.
- The start list is a list of nodes allocated with `malloc`, linked through local pointers. It is modelled as a sequence of heap-slot indices held by a `StartList` object; a `malloc` failure is not modelled.
- The source's two-step write to the new slot is kept: first the key and extensions, then the link under the lock. No intermediate state is visible to a lookup in a sequential model.
