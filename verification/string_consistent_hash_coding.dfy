/**
 A consistent-hash coding of string keys onto real shard indexes, with virtual nodes:
 construction validates both counts and builds the ring; `hash(key)` routes a key
 to the owner of the first ring position at or after the key's hash, wrapping round.
 */
module StringConsistentHashCoding {
  import opened JavaTypes
  import opened SortedMaps
  import opened VirtualNodeNames
  import opened RingBuild
  import opened RingLookup

  datatype Argument = RealNodeCount | VirtualNodeCount

  /** The `IllegalArgumentException` a failed precondition check throws: which
      argument it names and the value its message reports. */
  datatype InvalidArgument = InvalidArgument(argument: Argument, value: int)

  datatype Outcome = Pass | Fail(error: InvalidArgument)

  datatype Result<T> = Ok(value: T) | Err(error: InvalidArgument)

  /** The message names `e.argument`, reports that argument's own value, and that value
      is indeed not positive. */
  predicate ReportsOffendingValue(e: InvalidArgument, realNodeCount: int, virtualNodeCount: int) {
    && e.value == (match e.argument case RealNodeCount => realNodeCount case VirtualNodeCount => virtualNodeCount)
    && e.value <= 0
  }

  /** The two precondition checks as written: the second one names `virtualNodeCount`
      but formats `realNodeCount` into its message. */
  function ValidateAsWritten(realNodeCount: Int32, virtualNodeCount: Int32): (o: Outcome)
    ensures o.Pass? <==> realNodeCount > 0 && virtualNodeCount > 0
    ensures realNodeCount <= 0 ==> o.Fail? && o.error.argument == RealNodeCount
    ensures realNodeCount > 0 && virtualNodeCount <= 0 ==> o.Fail? && o.error.argument == VirtualNodeCount
    ensures o.Fail? ==> o.error.value == realNodeCount
  {
    if !(realNodeCount > 0) then Fail(InvalidArgument(RealNodeCount, realNodeCount))
    else if !(virtualNodeCount > 0) then Fail(InvalidArgument(VirtualNodeCount, realNodeCount))
    else Pass
  }

  /** Whenever the second check fails, the as-written message reports a positive value,
      not the offending `virtualNodeCount`. */
  lemma AsWrittenMisreportsVirtualNodeCount(realNodeCount: Int32, virtualNodeCount: Int32)
    requires realNodeCount > 0 && virtualNodeCount <= 0
    ensures ValidateAsWritten(realNodeCount, virtualNodeCount).Fail?
    ensures !ReportsOffendingValue(ValidateAsWritten(realNodeCount, virtualNodeCount).error, realNodeCount, virtualNodeCount)
  {
  }

  /** The precondition checks, in order, each reporting its own argument's value. */
  function Validate(realNodeCount: Int32, virtualNodeCount: Int32): (o: Outcome)
    ensures o.Pass? <==> realNodeCount > 0 && virtualNodeCount > 0
    ensures realNodeCount <= 0 ==> o.Fail? && o.error.argument == RealNodeCount
    ensures realNodeCount > 0 && virtualNodeCount <= 0 ==> o.Fail? && o.error.argument == VirtualNodeCount
    ensures o.Fail? ==> ReportsOffendingValue(o.error, realNodeCount, virtualNodeCount)
  {
    if !(realNodeCount > 0) then Fail(InvalidArgument(RealNodeCount, realNodeCount))
    else if !(virtualNodeCount > 0) then Fail(InvalidArgument(VirtualNodeCount, virtualNodeCount))
    else Pass
  }

  /** A constructed coding: the counts it was built from, its hash function and its ring. */
  datatype Coding = Coding(
    realNodeCount: Int32,
    virtualNodeCount: Int32,
    hash: HashFunction,
    bucketMap: map<Int32, nat>)

  /** What the validating constructor guarantees of every coding it returns. */
  ghost predicate Valid(coding: Coding) {
    && coding.realNodeCount > 0
    && coding.virtualNodeCount > 0
    && coding.bucketMap == PlaceNodes(coding.hash, coding.realNodeCount as nat, coding.virtualNodeCount as nat)
  }

  /** The validating constructor: fails unless both counts are positive, otherwise
      builds the ring of `realNodeCount * virtualNodeCount` virtual slots. */
  function New(realNodeCount: Int32, virtualNodeCount: Int32, hash: HashFunction): (r: Result<Coding>)
    ensures r.Ok? <==> realNodeCount > 0 && virtualNodeCount > 0
    ensures r.Err? ==> ReportsOffendingValue(r.error, realNodeCount, virtualNodeCount)
    ensures realNodeCount <= 0 ==> r.Err? && r.error.argument == RealNodeCount
    ensures realNodeCount > 0 && virtualNodeCount <= 0 ==> r.Err? && r.error.argument == VirtualNodeCount
    ensures r.Ok? ==>
              && Valid(r.value)
              && r.value.realNodeCount == realNodeCount
              && r.value.virtualNodeCount == virtualNodeCount
              && r.value.hash == hash
              && 0 < |r.value.bucketMap| <= realNodeCount as int * virtualNodeCount as int
              && forall p :: p in r.value.bucketMap ==> r.value.bucketMap[p] < realNodeCount as int
  {
    match Validate(realNodeCount, virtualNodeCount)
    case Fail(e) => Err(e)
    case Pass =>
      var r, v := realNodeCount as nat, virtualNodeCount as nat;
      RingNonEmpty(hash, r, v);
      RingSizeBound(hash, r, v);
      OwnersInRange(hash, r, v);
      Ok(Coding(realNodeCount, virtualNodeCount, hash, PlaceNodes(hash, r, v)))
  }

  /** `hash(key)`: the node owning the first ring position at or after the key's hash,
      or the node owning the smallest position when the key hashes past them all. */
  function Hash(coding: Coding, key: string): (node: nat)
    requires |coding.bucketMap| > 0
    ensures exists p :: Selects(coding.bucketMap, coding.hash(key), p) && node == coding.bucketMap[p]
  {
    Lookup(coding.bucketMap, coding.hash(key))
  }

  /** On a validly constructed coding `hash` is total, for every key including the empty
      string, and always answers with a real node index. */
  lemma HashInRange(coding: Coding, key: string)
    requires Valid(coding)
    ensures |coding.bucketMap| > 0
    ensures 0 <= Hash(coding, key) < coding.realNodeCount as int
  {
    var r, v := coding.realNodeCount as nat, coding.virtualNodeCount as nat;
    RingNonEmpty(coding.hash, r, v);
    OwnersInRange(coding.hash, r, v);
    LookupReturnsStoredOwner(coding.bucketMap, coding.hash(key));
  }

  /** Consistent hashing when a real node is added: building with one more real node
      moves a key, if at all, only onto the new node. */
  lemma AddingNodeMovesKeysOnlyToIt(hash: HashFunction, r: nat, v: nat, q: Int32)
    requires r > 0 && v > 0
    ensures |PlaceNodes(hash, r, v)| > 0 && |PlaceNodes(hash, r + 1, v)| > 0
    ensures var before, after := Lookup(PlaceNodes(hash, r, v), q), Lookup(PlaceNodes(hash, r + 1, v), q);
      after == before || after == r
  {
    var small, big := PlaceNodes(hash, r, v), PlaceNodes(hash, r + 1, v);
    RingNonEmpty(hash, r, v);
    RingNonEmpty(hash, r + 1, v);
    assert big == PlaceSlots(hash, r, v, small);
    forall p | p in small
      ensures p in big
    {
      PlaceSlotsEntries(hash, r, v, small, p);
    }
    var owner := Lookup(big, q);
    var p :| Selects(big, q, p) && owner == big[p];
    if owner != r {
      PlaceSlotsEntries(hash, r, v, small, p);
      SubRingKeepsSelection(small, big, q, p);
      LookupIsOwnerOfSelected(small, q, p);
    }
  }

  /** A stand-in hash for a worked example: two virtual nodes at 10 and 20. */
  function ExampleHash(s: string): Int32 {
    if s == VirtualNodeName(0, 0) then 10
    else if s == VirtualNodeName(1, 0) then 20
    else if s == "fifteen" then 15
    else 25
  }

  /** Two real nodes with one virtual slot each: a key at 15 goes to node 1 (position 20);
      a key at 25 wraps round to node 0 (position 10). */
  lemma ExampleTwoNodes()
    ensures New(2, 1, ExampleHash).Ok?
    ensures Hash(New(2, 1, ExampleHash).value, "fifteen") == 1
    ensures Hash(New(2, 1, ExampleHash).value, "twenty-five") == 0
  {
    var coding := New(2, 1, ExampleHash).value;
    assert VirtualNodeName(0, 0) == "VIRTUAL-0-NODE-0";
    assert VirtualNodeName(1, 0) == "VIRTUAL-1-NODE-0";
    assert Position(ExampleHash, 0, 0) == 10;
    assert Position(ExampleHash, 1, 0) == 20;
    assert PlaceNodes(ExampleHash, 1, 1) == map[10 := 0];
    assert coding.bucketMap == PlaceSlots(ExampleHash, 1, 1, map[10 := 0]);
    assert coding.bucketMap == map[10 := 0, 20 := 1];
    LookupReturnsSuccessor(coding.bucketMap, 15, 20);
    LookupWrapsAround(coding.bucketMap, 25, 10);
  }
}
