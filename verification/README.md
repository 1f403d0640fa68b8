# Consistent-hash coding with virtual nodes

A Dafny model of `StringConsistentHashCoding`, the component of the sharding layer
that routes a string key to one of `realNodeCount` real shards.

- **Construction** checks that `realNodeCount > 0` and `virtualNodeCount > 0`, then,
  for each real node `i` and each virtual slot `n` in that order, hashes the name
  `VIRTUAL-i-NODE-n` to a signed 32-bit position and puts `position -> i` into a
  sorted map. A later put on the same position overwrites the earlier one.
- **Lookup** (`hash(key)`) hashes the key and takes the tail map from that position.
  It answers with the owner of the tail's first entry. When the tail is empty it
  wraps round to the owner of the whole map's first entry.

Modules:

- `JavaTypes`: Java `int` as the subset type `Int32`.
- `SortedMaps`: the `firstKey()` and `tailMap(from)` operations of `java.util.SortedMap`.
- `VirtualNodeNames`: decimal rendering, its parser, and the virtual-node name.
- `RingBuild`: the ring as a fold over the `(i, n)` pairs, the double-loop method, and
  the ownership and size lemmas.
- `RingLookup`: lookup, its successor/wrap-around meaning, and minimal disruption.
- `StringConsistentHashCoding`: validation, the constructor, `hash`, adding a node,
  and a worked example.

The murmur3 hash is a parameter `hash: string -> Int32`. The same function places
virtual nodes and routes keys. The ring is a `map<Int32, nat>` ordered by signed value.

## Model

| member | source | states |
|---|---|---|
| VirtualNodeNames.DecimalString | ace-fw-dal-sharding/src/main/java/ace/fw/dal/sharding/hash/StringConsistentHashCoding.java:45 | an index renders as a non-empty string of digits with a leading '0' only for zero and one digit exactly below ten |
| VirtualNodeNames.ParseDecimalString | ace-fw-dal-sharding/src/main/java/ace/fw/dal/sharding/hash/StringConsistentHashCoding.java:45 | parsing the rendering of an index gives back the index, so the rendering is injective |
| VirtualNodeNames.VirtualNodeNameInjective | ace-fw-dal-sharding/src/main/java/ace/fw/dal/sharding/hash/StringConsistentHashCoding.java:42-45 | two virtual-node names are equal only for the same real node and the same slot |
| RingBuild.BuildBuckets | ace-fw-dal-sharding/src/main/java/ace/fw/dal/sharding/hash/StringConsistentHashCoding.java:43-47 | the nested loops over real nodes then slots build exactly the ring defined by putting the pairs in that order |
| RingBuild.PlaceSlotsEntries | ace-fw-dal-sharding/src/main/java/ace/fw/dal/sharding/hash/StringConsistentHashCoding.java:44-46 | the inner loop keeps every earlier key, adds exactly the slot positions of node i, gives those to i and leaves every other entry unchanged |
| RingBuild.PlaceNodesOwnership | ace-fw-dal-sharding/src/main/java/ace/fw/dal/sharding/hash/StringConsistentHashCoding.java:43-46 | a position is in the ring iff some virtual slot hashes to it; its owner is a real node with a slot there and is the greatest such node (last write wins) |
| RingBuild.OwnersInRange | ace-fw-dal-sharding/src/main/java/ace/fw/dal/sharding/hash/StringConsistentHashCoding.java:43-46 | every owner in the ring is a real node index below realNodeCount |
| RingBuild.RingNonEmpty | ace-fw-dal-sharding/src/main/java/ace/fw/dal/sharding/hash/StringConsistentHashCoding.java:43-47 | with positive counts the ring has at least one entry |
| RingBuild.RingSizeBound | ace-fw-dal-sharding/src/main/java/ace/fw/dal/sharding/hash/StringConsistentHashCoding.java:43-47 | the ring has at most realNodeCount * virtualNodeCount entries |
| RingBuild.RingSizeExact | ace-fw-dal-sharding/src/main/java/ace/fw/dal/sharding/hash/StringConsistentHashCoding.java:43-47 | when no two virtual slots share a position the ring has exactly realNodeCount * virtualNodeCount entries |
| RingBuild.InjectiveHashFillsRing | ace-fw-dal-sharding/src/main/java/ace/fw/dal/sharding/hash/StringConsistentHashCoding.java:42-47 | with a hash that is injective on the generated names VIRTUAL-i-NODE-n (i < realNodeCount, n < virtualNodeCount) the ring has exactly realNodeCount * virtualNodeCount entries, because distinct slots have distinct names |
| RingLookup.Lookup | ace-fw-dal-sharding/src/main/java/ace/fw/dal/sharding/hash/StringConsistentHashCoding.java:53-57 | the answer is the owner of the position the query selects: the smallest position at or after it, or the smallest position when none is |
| RingLookup.LookupReturnsSuccessor | ace-fw-dal-sharding/src/main/java/ace/fw/dal/sharding/hash/StringConsistentHashCoding.java:53-57 | if some position is at or after the query, lookup returns the owner of the smallest such position |
| RingLookup.LookupWrapsAround | ace-fw-dal-sharding/src/main/java/ace/fw/dal/sharding/hash/StringConsistentHashCoding.java:54-55 | if the query is past every position, lookup returns the owner of the smallest position |
| RingLookup.LookupReturnsStoredOwner | ace-fw-dal-sharding/src/main/java/ace/fw/dal/sharding/hash/StringConsistentHashCoding.java:52-58 | lookup on a non-empty ring always answers with an owner stored in the ring |
| RingLookup.RemovingNodeKeepsOtherOwners | ace-fw-dal-sharding/src/main/java/ace/fw/dal/sharding/hash/StringConsistentHashCoding.java:52-58 | removing every position of node j (some other node remaining) keeps the owner of every query not routed to j and routes no query to j |
| StringConsistentHashCoding.ValidateAsWritten | ace-fw-dal-sharding/src/main/java/ace/fw/dal/sharding/hash/StringConsistentHashCoding.java:33-34 | the checks as written pass iff both counts are positive, the realNodeCount check first; every failure reports realNodeCount's value |
| StringConsistentHashCoding.AsWrittenMisreportsVirtualNodeCount | ace-fw-dal-sharding/src/main/java/ace/fw/dal/sharding/hash/StringConsistentHashCoding.java:34 | whenever the virtualNodeCount check fails, the as-written message reports a value that is not the offending one |
| StringConsistentHashCoding.Validate | ace-fw-dal-sharding/src/main/java/ace/fw/dal/sharding/hash/StringConsistentHashCoding.java:33-34 | the checks pass iff both counts are positive; a failure names the first non-positive argument and reports its own value |
| StringConsistentHashCoding.New | ace-fw-dal-sharding/src/main/java/ace/fw/dal/sharding/hash/StringConsistentHashCoding.java:32-48 | construction succeeds iff both counts are positive; a success keeps the counts and hash and has a non-empty ring of at most R * V entries whose owners are all below R |
| StringConsistentHashCoding.Hash | ace-fw-dal-sharding/src/main/java/ace/fw/dal/sharding/hash/StringConsistentHashCoding.java:52-58 | a key goes to the owner of the position its hash selects on the circular ring |
| StringConsistentHashCoding.HashInRange | ace-fw-dal-sharding/src/main/java/ace/fw/dal/sharding/hash/StringConsistentHashCoding.java:52-58 | on a validly built coding, hash is defined for every key, including the empty string, and returns an index in [0, realNodeCount) |
| StringConsistentHashCoding.AddingNodeMovesKeysOnlyToIt | ace-fw-dal-sharding/src/main/java/ace/fw/dal/sharding/hash/StringConsistentHashCoding.java:43-57 | building with one more real node changes a key's owner only to the new node |
| StringConsistentHashCoding.ExampleTwoNodes | ace-fw-dal-sharding/src/main/java/ace/fw/dal/sharding/hash/StringConsistentHashCoding.java:52-58 | with two nodes at positions 10 and 20, a key at 15 goes to node 1 and a key at 25 wraps to node 0 |

## Left out

- `main` and `getMap` (lines 60-87) are a timing and printing benchmark. They use the clock, standard output and `LongAdder`, and are not modelled.
- The murmur3 hash (`Hashing.murmur3_32().hashUnencodedChars(...).asInt()`) is a library call. It is the parameter `hash`, applied the same way at build and at lookup.
- The text of the exception messages is not modelled. An error records only which argument failed and one reported value.
- StringConsistentHashCoding.New: its error carries the offending argument's own value (the corrected message, via `Validate`). When only the `virtualNodeCount` check fails, line 34 reports `realNodeCount`'s value instead. `ValidateAsWritten` models that value, and the finding below records it.
- The `@AllArgsConstructor` (line 21) builds a coding from a caller-supplied map without validation. It is not modelled. `Hash` asks only for a non-empty ring, because `firstKey()` on an empty map throws.
- The `HashCoding` interface is not part of this model.
- Keys are Dafny strings, which are sequences of Unicode scalar values. A Java key is a sequence of UTF-16 code units and may hold unpaired surrogates, which the model cannot express. A character outside the Basic Multilingual Plane is one element here but two code units that `hashUnencodedChars` hashes one by one; the abstract `hash` parameter absorbs that encoding. The lookup lemmas are stated for every 32-bit query position, so they cover whatever position such a key hashes to.
- A `null` key, for which `hash` throws `NullPointerException` at line 53, is not modelled.
- Determinism is not stated as a lemma. `New` and `Hash` are pure functions of their arguments, so equal inputs give equal rings and answers.
- RingLookup.RemovingNodeKeepsOtherOwners: stated for deleting node `j`'s entries from a ring. It is not stated for rebuilding with fewer real nodes. Under position collisions, rebuilding can give back positions that `j` had overwritten.
- The other repository files are not part of this model: the AOP exception-throwing test fixture and the entity-configuration holder have no behaviour to model.

## Findings

| source | as written | input that shows it | evidently intended | confidence | as-written member | corrected member |
|---|---|---|---|---|---|---|
| ace-fw-dal-sharding/src/main/java/ace/fw/dal/sharding/hash/StringConsistentHashCoding.java:34 | the failure message of the `virtualNodeCount` check reports the value of `realNodeCount` | `realNodeCount = 1, virtualNodeCount = 0` reports 1 | report the offending `virtualNodeCount` (0) | high, not executed | StringConsistentHashCoding.AsWrittenMisreportsVirtualNodeCount | StringConsistentHashCoding.Validate |

`New` uses the corrected `Validate`. Which argument fails, and in which order, is the same in both versions.
