/**
 The two `java.util.SortedMap` operations the ring relies on, over maps keyed
 by signed 32-bit integers: `firstKey()` and `tailMap(from)`.
 */
module SortedMaps {
  import opened JavaTypes

  /** `k` is the smallest element of `s` in signed order. */
  predicate IsLeast(s: set<Int32>, k: Int32) {
    k in s && forall k' :: k' in s ==> k <= k'
  }

  /** Every finite non-empty set of positions has a least element. */
  lemma {:induction false} LeastExists(s: set<Int32>)
    requires s != {}
    ensures exists k :: IsLeast(s, k)
    decreases |s|
  {
    var x :| x in s;
    if s == {x} {
      assert IsLeast(s, x);
    } else {
      LeastExists(s - {x});
      var y :| IsLeast(s - {x}, y);
      assert forall k' :: k' in s ==> k' == x || k' in s - {x};
      if x <= y {
        assert IsLeast(s, x);
      } else {
        assert IsLeast(s, y);
      }
    }
  }

  /** `firstKey()`: the least key of a non-empty sorted map. */
  function FirstKey<V>(m: map<Int32, V>): (k: Int32)
    requires |m| > 0
    ensures k in m
    ensures forall k' :: k' in m ==> k <= k'
  {
    assert m.Keys != {};
    LeastExists(m.Keys);
    var k :| k in m && forall k' :: k' in m ==> k <= k';
    k
  }

  /** `tailMap(from)`: the entries whose key is at least `from`, values unchanged. */
  function TailMap<V>(m: map<Int32, V>, from: Int32): (t: map<Int32, V>)
    ensures forall k :: k in t <==> k in m && from <= k
    ensures forall k :: k in t ==> t[k] == m[k]
  {
    map k | k in m && from <= k :: m[k]
  }
}
