/**
 * The LRU deque of GraphEngine.touchSegment as a value: the indices of the
 * resident shards, most recently used first. Touching a shard moves it to the
 * front; when that makes the deque longer than MAX_ACTIVE_SEGMENTS, the last
 * index is popped and that shard is evicted.
 */
module Lru {
  import opened Wrappers
  import opened Routing

  /** No index occurs twice. */
  predicate Distinct(q: seq<int>) {
    forall i, j | 0 <= i < j < |q| :: q[i] != q[j]
  }

  /** The deque the engine keeps: distinct shard indices, at most MAX_ACTIVE_SEGMENTS of them. */
  predicate LruOk(q: seq<int>) {
    |q| <= MaxActiveSegments && Distinct(q) && forall i | 0 <= i < |q| :: 0 <= q[i] < BucketCount
  }

  /** Deque.remove(Object): drop the first occurrence of `x`, if any. */
  function RemoveFirst(q: seq<int>, x: int): seq<int> {
    if q == [] then []
    else if q[0] == x then q[1..]
    else [q[0]] + RemoveFirst(q[1..], x)
  }

  /** Without `x` in the deque, remove changes nothing; with it, the deque loses one element and gains none. */
  lemma {:induction false} RemoveFirstLength(q: seq<int>, x: int)
    ensures x !in q ==> RemoveFirst(q, x) == q
    ensures x in q ==> |RemoveFirst(q, x)| == |q| - 1
    ensures forall y | y in RemoveFirst(q, x) :: y in q
  {
    if q != [] && q[0] != x {
      RemoveFirstLength(q[1..], x);
      assert x in q ==> x in q[1..];
    }
  }

  /** On a distinct deque, remove leaves exactly the other elements, still distinct. */
  lemma {:induction false} RemoveFirstDistinct(q: seq<int>, x: int)
    requires Distinct(q)
    ensures Distinct(RemoveFirst(q, x))
    ensures forall y :: y in RemoveFirst(q, x) <==> y in q && y != x
  {
    if q != [] {
      assert Distinct(q[1..]) by {
        forall i, j | 0 <= i < j < |q[1..]| ensures q[1..][i] != q[1..][j] {
          assert q[1..][i] == q[i + 1] && q[1..][j] == q[j + 1];
        }
      }
      assert forall y :: y in q <==> y == q[0] || y in q[1..];
      assert q[0] !in q[1..] by {
        forall i | 0 <= i < |q[1..]| ensures q[1..][i] != q[0] {
          assert q[1..][i] == q[i + 1];
        }
      }
      if q[0] != x {
        RemoveFirstDistinct(q[1..], x);
        var r := RemoveFirst(q[1..], x);
        var c := [q[0]] + r;
        forall i, j | 0 <= i < j < |c| ensures c[i] != c[j] {
          assert c[j] == r[j - 1];
          if i > 0 {
            assert c[i] == r[i - 1];
          }
        }
      }
    }
  }

  /** The new deque and the index popped from its tail, if any. */
  datatype Touched = Touched(queue: seq<int>, evicted: Option<int>)

  /** touchSegment's bookkeeping: remove, addFirst, then pollLast when over the limit. */
  function TouchQueue(q: seq<int>, s: int): Touched {
    var r := [s] + RemoveFirst(q, s);
    if |r| > MaxActiveSegments then Touched(r[..|r| - 1], Some(r[|r| - 1])) else Touched(r, None)
  }

  /**
   * After touching `s`: `s` is at the head, the deque stays distinct, in range
   * and within MAX_ACTIVE_SEGMENTS. A shard is evicted exactly when `s` was not
   * resident and the deque was full; it is then the previous tail, never `s`.
   * The resident set is the old one plus `s`, minus the evicted shard.
   */
  lemma TouchFacts(q: seq<int>, s: int)
    requires LruOk(q) && 0 <= s < BucketCount
    ensures var t := TouchQueue(q, s);
            && LruOk(t.queue) && t.queue[0] == s
            && (t.evicted.Some? <==> s !in q && |q| == MaxActiveSegments)
            && (t.evicted.Some? ==> t.evicted.value == q[|q| - 1] && t.evicted.value != s)
            && (forall x :: x in t.queue <==> x == s || (x in q && t.evicted != Some(x)))
  {
    RemoveFirstLength(q, s);
    RemoveFirstDistinct(q, s);
    var rest := RemoveFirst(q, s);
    var r := [s] + rest;
    assert Distinct(r) by {
      forall i, j | 0 <= i < j < |r| ensures r[i] != r[j] {
        assert r[j] == rest[j - 1];
        if i > 0 {
          assert r[i] == rest[i - 1];
        }
      }
    }
    assert forall i | 0 <= i < |r| :: 0 <= r[i] < BucketCount by {
      forall i | 1 <= i < |r| ensures 0 <= r[i] < BucketCount {
        assert r[i] == rest[i - 1] && r[i] in q;
      }
    }
    if |r| > MaxActiveSegments {
      assert s !in q && rest == q;
      assert r[..|r| - 1] == [s] + q[..|q| - 1];
      DropLast(q);
    }
  }

  /** Dropping the tail of a distinct deque removes exactly the tail's index. */
  lemma DropLast(q: seq<int>)
    requires Distinct(q) && q != []
    ensures forall x :: x in q[..|q| - 1] <==> x in q && x != q[|q| - 1]
  {
    var p := q[..|q| - 1];
    forall x | x in q && x != q[|q| - 1] ensures x in p {
      var i :| 0 <= i < |q| && q[i] == x;
      assert p[i] == x;
    }
    forall x | x in p ensures x in q && x != q[|q| - 1] {
      var i :| 0 <= i < |p| && p[i] == x;
      assert q[i] == x;
    }
  }
}
