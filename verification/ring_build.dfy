/**
 Building the ring: every virtual slot `n` of every real node `i` is hashed to a
 position and the pair `position -> i` is put into the sorted bucket map, real
 node by real node and slot by slot, a later put overwriting an earlier one.
 */
module RingBuild {
  import opened JavaTypes
  import opened VirtualNodeNames

  /** The string hash used both to place virtual nodes and to route keys. */
  type HashFunction = string -> Int32

  /** Ring position of virtual slot `n` of real node `i`. */
  function Position(hash: HashFunction, i: nat, n: nat): Int32 {
    hash(VirtualNodeName(i, n))
  }

  /** `buckets` after putting slots `0 .. n-1` of real node `i`, in that order. */
  function PlaceSlots(hash: HashFunction, i: nat, n: nat, buckets: map<Int32, nat>): map<Int32, nat>
    decreases n
  {
    if n == 0 then buckets else PlaceSlots(hash, i, n - 1, buckets)[Position(hash, i, n - 1) := i]
  }

  /** The bucket map after the outer loop has handled real nodes `0 .. r-1`. */
  function PlaceNodes(hash: HashFunction, r: nat, v: nat): map<Int32, nat>
    decreases r
  {
    if r == 0 then map[] else PlaceSlots(hash, r - 1, v, PlaceNodes(hash, r - 1, v))
  }

  /** Position `p` is where some slot `n < v` of some real node `i < r` hashes. */
  ghost predicate IsVirtualPosition(hash: HashFunction, r: nat, v: nat, p: Int32) {
    exists i, n :: 0 <= i < r && 0 <= n < v && Position(hash, i, n) == p
  }

  /** No two virtual slots of the first `r` real nodes share a position. */
  ghost predicate DistinctPositions(hash: HashFunction, r: nat, v: nat) {
    forall i, n, i', n' ::
      0 <= i < r && 0 <= n < v && 0 <= i' < r && 0 <= n' < v && (i != i' || n != n')
      ==> Position(hash, i, n) != Position(hash, i', n')
  }

  /** The constructor's double loop, writing into one bucket map. */
  method BuildBuckets(hash: HashFunction, realNodeCount: nat, virtualNodeCount: nat)
    returns (buckets: map<Int32, nat>)
    ensures buckets == PlaceNodes(hash, realNodeCount, virtualNodeCount)
  {
    buckets := map[];
    var i := 0;
    while i < realNodeCount
      invariant 0 <= i <= realNodeCount
      invariant buckets == PlaceNodes(hash, i, virtualNodeCount)
    {
      ghost var before := buckets;
      var n := 0;
      while n < virtualNodeCount
        invariant 0 <= n <= virtualNodeCount
        invariant buckets == PlaceSlots(hash, i, n, before)
      {
        buckets := buckets[Position(hash, i, n) := i];
        n := n + 1;
      }
      i := i + 1;
    }
  }

  /** Putting slots of node `i` only adds keys, and every entry either belongs to a
      slot of `i` (owned by `i`) or is an untouched entry of `buckets`. */
  lemma {:induction false} PlaceSlotsEntries(hash: HashFunction, i: nat, n: nat, buckets: map<Int32, nat>, p: Int32)
    ensures p in PlaceSlots(hash, i, n, buckets) <==>
            p in buckets || exists k :: 0 <= k < n && Position(hash, i, k) == p
    ensures p in PlaceSlots(hash, i, n, buckets) && (exists k :: 0 <= k < n && Position(hash, i, k) == p)
            ==> PlaceSlots(hash, i, n, buckets)[p] == i
    ensures p in PlaceSlots(hash, i, n, buckets) && !(exists k :: 0 <= k < n && Position(hash, i, k) == p)
            ==> PlaceSlots(hash, i, n, buckets)[p] == buckets[p]
    decreases n
  {
    if n > 0 {
      PlaceSlotsEntries(hash, i, n - 1, buckets, p);
      if Position(hash, i, n - 1) != p {
        if exists k :: 0 <= k < n && Position(hash, i, k) == p {
          var k :| 0 <= k < n && Position(hash, i, k) == p;
          assert k < n - 1;
        }
      }
    }
  }

  /** Last write wins: a ring position is present exactly when some virtual slot hashes
      there, and it is owned by the greatest real node among the slots that do. */
  lemma {:induction false} PlaceNodesOwnership(hash: HashFunction, r: nat, v: nat, p: Int32)
    ensures p in PlaceNodes(hash, r, v) <==> IsVirtualPosition(hash, r, v, p)
    ensures p in PlaceNodes(hash, r, v) ==>
              var owner := PlaceNodes(hash, r, v)[p];
              && owner < r
              && (exists n :: 0 <= n < v && Position(hash, owner, n) == p)
              && (forall i, n :: 0 <= i < r && 0 <= n < v && Position(hash, i, n) == p ==> i <= owner)
    decreases r
  {
    if r > 0 {
      var before := PlaceNodes(hash, r - 1, v);
      PlaceNodesOwnership(hash, r - 1, v, p);
      PlaceSlotsEntries(hash, r - 1, v, before, p);
      if IsVirtualPosition(hash, r, v, p) && !IsVirtualPosition(hash, r - 1, v, p) {
        var i, n :| 0 <= i < r && 0 <= n < v && Position(hash, i, n) == p;
        assert i == r - 1;
      }
      var last := r - 1;
      if p in PlaceNodes(hash, r, v) && !(exists k :: 0 <= k < v && Position(hash, last, k) == p) {
        forall i, n | 0 <= i < r && 0 <= n < v && Position(hash, i, n) == p
          ensures i <= before[p]
        {
          assert i < r - 1;
        }
      }
    }
  }

  /** Every owner stored in the ring is a real node index in `[0, r)`. */
  lemma OwnersInRange(hash: HashFunction, r: nat, v: nat)
    ensures forall p :: p in PlaceNodes(hash, r, v) ==> PlaceNodes(hash, r, v)[p] < r
  {
    forall p | p in PlaceNodes(hash, r, v)
      ensures PlaceNodes(hash, r, v)[p] < r
    {
      PlaceNodesOwnership(hash, r, v, p);
    }
  }

  /** With at least one real node and one virtual slot, the ring is not empty. */
  lemma RingNonEmpty(hash: HashFunction, r: nat, v: nat)
    requires r > 0 && v > 0
    ensures |PlaceNodes(hash, r, v)| > 0
  {
    PlaceNodesOwnership(hash, r, v, Position(hash, 0, 0));
  }

  lemma {:induction false} PlaceSlotsSize(hash: HashFunction, i: nat, n: nat, buckets: map<Int32, nat>)
    ensures |PlaceSlots(hash, i, n, buckets)| <= |buckets| + n
    decreases n
  {
    if n > 0 {
      PlaceSlotsSize(hash, i, n - 1, buckets);
    }
  }

  /** The ring never holds more than `r * v` entries. */
  lemma {:induction false} RingSizeBound(hash: HashFunction, r: nat, v: nat)
    ensures |PlaceNodes(hash, r, v)| <= r * v
    decreases r
  {
    if r > 0 {
      RingSizeBound(hash, r - 1, v);
      PlaceSlotsSize(hash, r - 1, v, PlaceNodes(hash, r - 1, v));
      assert (r - 1) * v + v == r * v;
    }
  }

  lemma {:induction false} PlaceSlotsExactSize(hash: HashFunction, i: nat, n: nat, buckets: map<Int32, nat>)
    requires forall k :: 0 <= k < n ==> Position(hash, i, k) !in buckets
    requires forall k, k' :: 0 <= k < k' < n ==> Position(hash, i, k) != Position(hash, i, k')
    ensures |PlaceSlots(hash, i, n, buckets)| == |buckets| + n
    decreases n
  {
    if n > 0 {
      PlaceSlotsExactSize(hash, i, n - 1, buckets);
      PlaceSlotsEntries(hash, i, n - 1, buckets, Position(hash, i, n - 1));
    }
  }

  /** Without collisions, no slot of real node `r` lands on a position already taken
      by nodes `0 .. r-1`. */
  lemma LaterSlotIsFresh(hash: HashFunction, r: nat, v: nat, k: nat)
    requires DistinctPositions(hash, r + 1, v)
    requires k < v
    ensures Position(hash, r, k) !in PlaceNodes(hash, r, v)
  {
    var p := Position(hash, r, k);
    PlaceNodesOwnership(hash, r, v, p);
    assert !IsVirtualPosition(hash, r, v, p);
  }

  lemma DistinctPositionsShrink(hash: HashFunction, r: nat, v: nat)
    requires r > 0 && DistinctPositions(hash, r, v)
    ensures DistinctPositions(hash, r - 1, v)
  {
  }

  lemma SlotsOfOneNodeDistinct(hash: HashFunction, r: nat, v: nat, i: nat)
    requires i < r && DistinctPositions(hash, r, v)
    ensures forall k, k' :: 0 <= k < k' < v ==> Position(hash, i, k) != Position(hash, i, k')
  {
  }

  /** Without collisions, node `last`'s slots are pairwise distinct and all land on
      positions not yet taken by nodes `0 .. last-1`. */
  lemma LastNodeSlotsFresh(hash: HashFunction, last: nat, v: nat)
    requires DistinctPositions(hash, last + 1, v)
    ensures forall k :: 0 <= k < v ==> Position(hash, last, k) !in PlaceNodes(hash, last, v)
    ensures forall k, k' :: 0 <= k < k' < v ==> Position(hash, last, k) != Position(hash, last, k')
  {
    forall k | 0 <= k < v
      ensures Position(hash, last, k) !in PlaceNodes(hash, last, v)
    {
      LaterSlotIsFresh(hash, last, v, k);
    }
    SlotsOfOneNodeDistinct(hash, last + 1, v, last);
  }

  lemma MulStep(a: nat, v: nat)
    ensures a * v + v == (a + 1) * v
  {
  }

  /** Without position collisions among the virtual slots, the ring holds exactly `r * v` entries. */
  lemma {:induction false} RingSizeExact(hash: HashFunction, r: nat, v: nat)
    requires DistinctPositions(hash, r, v)
    ensures |PlaceNodes(hash, r, v)| == r * v
    decreases r
  {
    if r > 0 {
      var last := r - 1;
      DistinctPositionsShrink(hash, r, v);
      RingSizeExact(hash, last, v);
      LastNodeSlotsFresh(hash, last, v);
      PlaceSlotsExactSize(hash, last, v, PlaceNodes(hash, last, v));
      MulStep(last, v);
    }
  }

  /** A hash that is injective on the generated virtual-node names places every
      virtual slot at its own position. */
  lemma InjectiveHashFillsRing(hash: HashFunction, r: nat, v: nat)
    requires forall i, n, i', n' ::
      0 <= i < r && 0 <= n < v && 0 <= i' < r && 0 <= n' < v &&
      hash(VirtualNodeName(i, n)) == hash(VirtualNodeName(i', n'))
      ==> VirtualNodeName(i, n) == VirtualNodeName(i', n')
    ensures |PlaceNodes(hash, r, v)| == r * v
  {
    forall i, n, i', n' |
      0 <= i < r && 0 <= n < v && 0 <= i' < r && 0 <= n' < v && (i != i' || n != n')
      ensures Position(hash, i, n) != Position(hash, i', n')
    {
      if Position(hash, i, n) == Position(hash, i', n') {
        VirtualNodeNameInjective(i, n, i', n');
      }
    }
    RingSizeExact(hash, r, v);
  }
}
