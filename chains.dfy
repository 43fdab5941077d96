/** Collision chains as lists of heap slots, and the record a lookup finds on one. */
module Chains {
  import opened KmerTypes

  /** The head reference a bucket holds for the chain `c`, listed head first (None is NULL). */
  function HeadOf(c: seq<nat>): Option<nat>
  {
    if c == [] then None else Some(c[0])
  }

  /** Every slot of `c` lies inside the heap. */
  ghost predicate InHeap(heap: seq<Record>, c: seq<nat>)
  {
    forall k :: 0 <= k < |c| ==> c[k] < |heap|
  }

  /** `c` lists, head first, the slots reached from `head` by following `next` until NULL. */
  ghost predicate IsChain(heap: seq<Record>, head: Option<nat>, c: seq<nat>)
  {
    && head == HeadOf(c)
    && InHeap(heap, c)
    && forall k :: 0 <= k < |c| ==> heap[c[k]].next == HeadOf(c[k + 1..])
  }

  /** The record a chain walk returns: the first record of `c`, head to tail, whose key is `key`;
      None when no record of the chain has that key. */
  function FirstMatch(heap: seq<Record>, c: seq<nat>, key: PackedKmer): (r: Option<Record>)
    requires InHeap(heap, c)
    ensures r.Some? <==> exists j :: 0 <= j < |c| && heap[c[j]].key == key
    ensures r.Some? ==> exists j :: 0 <= j < |c| && r.value == heap[c[j]] && r.value.key == key
                                    && forall i :: 0 <= i < j ==> heap[c[i]].key != key
    decreases |c|
  {
    if c == [] then None
    else if heap[c[0]].key == key then Some(heap[c[0]])
    else
      var r := FirstMatch(heap, c[1..], key);
      assert forall j :: 1 <= j < |c| ==> c[1..][j - 1] == c[j];
      r
  }

  /** Writing a slot that is not on the chain changes nothing a lookup on that chain returns. */
  lemma {:induction false} FirstMatchFrame(heap: seq<Record>, c: seq<nat>, key: PackedKmer, s: nat, rec: Record)
    requires InHeap(heap, c) && s < |heap| && s !in c
    ensures InHeap(heap[s := rec], c)
    ensures FirstMatch(heap[s := rec], c, key) == FirstMatch(heap, c, key)
    decreases |c|
  {
    if c != [] {
      FirstMatchFrame(heap, c[1..], key, s, rec);
    }
  }

  /** Writing a slot that is not on the chain keeps the chain's links. */
  lemma IsChainFrame(heap: seq<Record>, head: Option<nat>, c: seq<nat>, s: nat, rec: Record)
    requires IsChain(heap, head, c) && s < |heap| && s !in c
    ensures IsChain(heap[s := rec], head, c)
  {
  }

  /** Writing a fresh slot whose link is the old head, and making it the head, prepends it. */
  lemma PrependChain(heap: seq<Record>, head: Option<nat>, c: seq<nat>, s: nat, rec: Record)
    requires IsChain(heap, head, c) && s < |heap| && s !in c && rec.next == head
    ensures IsChain(heap[s := rec], Some(s), [s] + c)
  {
    var c' := [s] + c;
    IsChainFrame(heap, head, c, s, rec);
    forall k | 0 <= k < |c'|
      ensures heap[s := rec][c'[k]].next == HeadOf(c'[k + 1..])
    {
      if k > 0 {
        assert c'[k] == c[k - 1] && c'[k + 1..] == c[k..];
      }
    }
  }

  /** A lookup for the key just prepended returns the record just written. */
  lemma LookupFindsNewest(heap: seq<Record>, c: seq<nat>, s: nat)
    requires InHeap(heap, c) && s < |heap|
    ensures InHeap(heap, [s] + c)
    ensures FirstMatch(heap, [s] + c, heap[s].key) == Some(heap[s])
  {
  }

  /** Prepending a record with another key leaves every lookup for `key` as it was. */
  lemma LookupSkipsOtherKey(heap: seq<Record>, c: seq<nat>, s: nat, key: PackedKmer)
    requires InHeap(heap, c) && s < |heap| && heap[s].key != key
    ensures InHeap(heap, [s] + c)
    ensures FirstMatch(heap, [s] + c, key) == FirstMatch(heap, c, key)
  {
    assert ([s] + c)[1..] == c;
  }
}
