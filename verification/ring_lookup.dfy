/**
 Routing a query position on the ring: the owner of the first ring position at or
 after the query in signed order, wrapping round to the smallest position when the
 query lies beyond every position.
 */
module RingLookup {
  import opened JavaTypes
  import opened SortedMaps

  /** `p` is the smallest ring position that is at least `q`. */
  ghost predicate IsSuccessor(buckets: map<Int32, nat>, q: Int32, p: Int32) {
    p in buckets && q <= p && forall p' :: p' in buckets && q <= p' ==> p <= p'
  }

  /** Every ring position lies strictly before `q`, and `p` is the smallest of them. */
  ghost predicate IsWrapTarget(buckets: map<Int32, nat>, q: Int32, p: Int32) {
    (forall p' :: p' in buckets ==> p' < q) && IsLeast(buckets.Keys, p)
  }

  /** The position the circular ring assigns to query `q`. */
  ghost predicate Selects(buckets: map<Int32, nat>, q: Int32, p: Int32) {
    IsSuccessor(buckets, q, p) || IsWrapTarget(buckets, q, p)
  }

  /** A query selects at most one position. */
  lemma SelectsUnique(buckets: map<Int32, nat>, q: Int32, p1: Int32, p2: Int32)
    requires Selects(buckets, q, p1) && Selects(buckets, q, p2)
    ensures p1 == p2
  {
  }

  /** `hash(v)` once the key is hashed: the owner of the first entry of the tail map
      from `q`, or of the whole map's first entry when the tail is empty. */
  function Lookup(buckets: map<Int32, nat>, q: Int32): (owner: nat)
    requires |buckets| > 0
    ensures exists p :: Selects(buckets, q, p) && owner == buckets[p]
  {
    var tail := TailMap(buckets, q);
    if |tail| == 0 then
      var p := FirstKey(buckets);
      assert tail.Keys == {};
      assert IsWrapTarget(buckets, q, p);
      buckets[p]
    else
      var p := FirstKey(tail);
      assert IsSuccessor(buckets, q, p);
      tail[p]
  }

  /** Lookup returns the owner of the smallest position at or after the query. */
  lemma LookupReturnsSuccessor(buckets: map<Int32, nat>, q: Int32, p: Int32)
    requires IsSuccessor(buckets, q, p)
    ensures |buckets| > 0 && Lookup(buckets, q) == buckets[p]
  {
    LookupIsOwnerOfSelected(buckets, q, p);
  }

  /** A query beyond every position wraps round to the owner of the smallest position. */
  lemma LookupWrapsAround(buckets: map<Int32, nat>, q: Int32, p: Int32)
    requires forall p' :: p' in buckets ==> p' < q
    requires IsLeast(buckets.Keys, p)
    ensures |buckets| > 0 && Lookup(buckets, q) == buckets[p]
  {
    LookupIsOwnerOfSelected(buckets, q, p);
  }

  /** Every query is answered by an owner stored in the ring. */
  lemma LookupReturnsStoredOwner(buckets: map<Int32, nat>, q: Int32)
    requires |buckets| > 0
    ensures Lookup(buckets, q) in buckets.Values
  {
    var owner := Lookup(buckets, q);
    var p :| Selects(buckets, q, p) && owner == buckets[p];
    assert buckets[p] in buckets.Values;
  }

  /** The ring with every position owned by real node `j` removed. */
  function WithoutNode(buckets: map<Int32, nat>, j: nat): (rest: map<Int32, nat>)
    ensures forall p :: p in rest <==> p in buckets && buckets[p] != j
    ensures forall p :: p in rest ==> rest[p] == buckets[p]
  {
    map p | p in buckets && buckets[p] != j :: buckets[p]
  }

  /** A position selected in a ring stays selected in any smaller ring that keeps it. */
  lemma SubRingKeepsSelection(small: map<Int32, nat>, big: map<Int32, nat>, q: Int32, p: Int32)
    requires small.Keys <= big.Keys
    requires Selects(big, q, p) && p in small
    ensures Selects(small, q, p)
  {
  }

  /** Lookup answers with the owner of whichever position the query selects. */
  lemma LookupIsOwnerOfSelected(buckets: map<Int32, nat>, q: Int32, p: Int32)
    requires Selects(buckets, q, p)
    ensures |buckets| > 0 && Lookup(buckets, q) == buckets[p]
  {
    assert p in buckets.Keys;
    var owner := Lookup(buckets, q);
    var p' :| Selects(buckets, q, p') && owner == buckets[p'];
    SelectsUnique(buckets, q, p, p');
  }

  /** Removing node `j` never routes a query to `j`. */
  lemma RemovedNodeGetsNothing(buckets: map<Int32, nat>, j: nat, q: Int32)
    requires |WithoutNode(buckets, j)| > 0
    ensures Lookup(WithoutNode(buckets, j), q) != j
  {
    LookupReturnsStoredOwner(WithoutNode(buckets, j), q);
  }

  /** Minimal disruption: once node `j`'s positions are removed, every query that was
      not routed to `j` is still routed to the same node, and none is routed to `j`. */
  lemma RemovingNodeKeepsOtherOwners(buckets: map<Int32, nat>, j: nat, q: Int32)
    requires |WithoutNode(buckets, j)| > 0
    ensures |buckets| > 0
    ensures Lookup(buckets, q) != j ==> Lookup(WithoutNode(buckets, j), q) == Lookup(buckets, q)
    ensures Lookup(WithoutNode(buckets, j), q) != j
  {
    var rest := WithoutNode(buckets, j);
    var p0 :| p0 in rest;
    assert p0 in buckets.Keys;
    var owner := Lookup(buckets, q);
    var p :| Selects(buckets, q, p) && owner == buckets[p];
    if owner != j {
      SubRingKeepsSelection(rest, buckets, q, p);
      LookupIsOwnerOfSelected(rest, q, p);
    }
    RemovedNodeGetsNothing(buckets, j, q);
  }
}
