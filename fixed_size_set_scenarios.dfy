/**
 * Concrete runs of the deduplication set: eviction of the oldest key, the
 * absence of any refresh on re-adding, and the failure at capacity 0.
 */
module FixedSizeSetScenarios {
  import opened FixedSizeSetSpec

  /** Capacity 2, distinct keys a, b, c: a is evicted, b and c remain. */
  lemma ScenarioEvictOldest<T>(a: T, b: T, c: T)
    requires a != b && a != c && b != c
    ensures AddAll([], 2, [a, b, c]) == Ok([b, c])
  {
    AddAllDistinct(2, [a, b, c]);
  }

  /** Capacity 2, keys a, b, a: the second a changes nothing. */
  lemma ScenarioReAdd<T>(a: T, b: T)
    requires a != b
    ensures AddAll([], 2, [a, b, a]) == Ok([a, b])
  {
    var k1, k2 := [a], [a, b];
    assert AddAll([], 2, k1) == Ok(k1) by {
      assert k1 == [] + [a];
      AddAllSnoc([], 2, [], a);
      AddNotFull([], 2, a);
    }
    assert AddAll([], 2, k2) == Ok(k2) by {
      assert k2 == k1 + [b];
      AddAllSnoc([], 2, k1, b);
      AddNotFull(k1, 2, b);
    }
    assert [a, b, a] == k2 + [a];
    AddAllSnoc([], 2, k2, a);
    AddPresentIsNoOp(k2, 2, a);
  }

  /**
   * Capacity 2, keys a, b, a, c: re-adding a does not refresh it, so a (the
   * oldest) is the one evicted by c.
   */
  lemma ScenarioNoRefresh<T>(a: T, b: T, c: T)
    requires a != b && a != c && b != c
    ensures AddAll([], 2, [a, b, a, c]) == Ok([b, c])
  {
    ScenarioReAdd(a, b);
    assert [a, b, a, c] == [a, b, a] + [c];
    AddAllSnoc([], 2, [a, b, a], c);
    assert [a, b][1..] + [c] == [b, c];
  }

  /** Capacity 0: the very first add fails, whatever the key. */
  lemma ScenarioZeroCapacity<T>(x: T)
    ensures AddAll([], 0, [x]) == Err(PopFromEmptyDeque)
  {
  }
}
