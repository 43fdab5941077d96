/** The memory heap's partition: `threads` equal slices of `cap` slots, one per unit, each filled
    by its unit's bump cursor. */
module Arena {

  /** Slots per unit: nEntries/THREADS + 1 (integer division; nEntries is never negative here). */
  function Capacity(nEntries: nat, threads: nat): (cap: nat)
    requires threads > 0
    ensures cap > 0 && threads * cap > nEntries
  {
    var cap := nEntries / threads + 1;
    assert nEntries == threads * (nEntries / threads) + nEntries % threads;
    cap
  }

  lemma MulMono(a: nat, b: nat, c: nat)
    requires a <= b
    ensures a * c <= b * c
  {
  }

  /** A slot of unit `u`'s slice belongs to `u`: dividing it by the slice size gives `u`. */
  lemma SlotOwner(u: nat, cap: nat, s: nat)
    requires cap > 0 && u * cap <= s < u * cap + cap
    ensures s / cap == u
  {
    var q := s / cap;
    assert s == q * cap + s % cap;
    if q < u {
      MulMono(q + 1, u, cap);
    } else if q > u {
      MulMono(u + 1, q, cap);
    }
  }

  /** Units write to disjoint slots: distinct units never reach the same slot while each stays
      inside its own slice. */
  lemma PartitionsDisjoint(cap: nat, u1: nat, u2: nat, i1: nat, i2: nat)
    requires i1 < cap && i2 < cap && u1 != u2
    ensures u1 * cap + i1 != u2 * cap + i2
  {
    SlotOwner(u1, cap, u1 * cap + i1);
    SlotOwner(u2, cap, u2 * cap + i2);
  }

  /** Every slice of a heap of `threads` slices lies inside it. */
  lemma SliceInHeap(u: nat, threads: nat, cap: nat)
    requires u < threads
    ensures u * cap + cap <= threads * cap
  {
    MulMono(u + 1, threads, cap);
  }

  /** Every unit's cursor lies inside its own slice, and every slice inside the heap. */
  ghost predicate CursorsInSlices(posInHeap: seq<nat>, threads: nat, cap: nat)
  {
    |posInHeap| == threads &&
    forall u :: 0 <= u < threads ==> u * cap <= posInHeap[u] <= u * cap + cap <= threads * cap
  }

  /** Slot `x` has been claimed: it lies below the cursor of the unit whose slice holds it. */
  ghost predicate Claimed(posInHeap: seq<nat>, cap: nat, x: nat)
  {
    cap > 0 && x / cap < |posInHeap| && x < posInHeap[x / cap]
  }

  /** The slot at a unit's cursor has not been claimed, and after the cursor moves past it the
      slot is claimed and so is everything claimed before. */
  lemma ClaimNext(posInHeap: seq<nat>, threads: nat, cap: nat, u: nat)
    requires cap > 0 && CursorsInSlices(posInHeap, threads, cap)
    requires u < threads && posInHeap[u] < u * cap + cap
    ensures !Claimed(posInHeap, cap, posInHeap[u])
    ensures CursorsInSlices(posInHeap[u := posInHeap[u] + 1], threads, cap)
    ensures Claimed(posInHeap[u := posInHeap[u] + 1], cap, posInHeap[u])
    ensures forall x: nat :: Claimed(posInHeap, cap, x) ==> Claimed(posInHeap[u := posInHeap[u] + 1], cap, x)
  {
    SlotOwner(u, cap, posInHeap[u]);
  }
}
