/**
 * The bounded, insertion-ordered set of recently seen keys (for instance
 * event identifiers used to drop re-delivered events). Two fields are kept in
 * step: `items`, the FIFO deque of keys in insertion order, and `itemSet`, the
 * hash set used for membership tests.
 */
module Utils {
  import opened FixedSizeSetSpec

  class OrderedFixedSizeSet<T(==)> {
    const maxsize: nat
    var items: seq<T>
    var itemSet: set<T>

    /** The representation invariant: the two fields agree, the deque has no duplicates and respects its bound. */
    ghost predicate Valid()
      reads this
    {
      itemSet == Elems(items) && NoDuplicates(items) && |items| <= maxsize
    }

    /** A new, empty set of capacity `maxsize` (10 when not given). */
    constructor (maxsize: nat := 10)
      ensures Valid()
      ensures this.maxsize == maxsize
      ensures items == [] && itemSet == {}
    {
      this.maxsize := maxsize;
      items := [];
      itemSet := {};
    }

    /**
     * Remembers `x`. A key already present changes nothing (it is not moved to
     * the back); at capacity the oldest key is dropped first. At capacity 0 the
     * drop fails on the empty deque and nothing changes.
     */
    method Add(x: T) returns (r: Outcome)
      requires Valid()
      modifies this
      ensures Valid()
      ensures AddKey(old(items), maxsize, x) == if r.Pass? then Ok(items) else Err(r.error)
      ensures x in old(items) ==> r.Pass? && items == old(items) && itemSet == old(itemSet)
      ensures x !in old(items) && |old(items)| < maxsize ==>
        r.Pass? && items == old(items) + [x] && itemSet == old(itemSet) + {x}
      ensures x !in old(items) && 0 < |old(items)| == maxsize ==>
        r.Pass? && items == old(items)[1..] + [x] &&
        itemSet == old(itemSet) - {old(items)[0]} + {x} && old(items)[0] !in itemSet
      ensures r.Fail? <==> x !in old(items) && maxsize == 0
      ensures r.Fail? ==> items == old(items) && itemSet == old(itemSet)
      ensures r.Pass? ==> x in itemSet
    {
      if x !in itemSet {
        if |items| >= maxsize {
          if |items| == 0 {
            return Fail(PopFromEmptyDeque);
          }
          var oldest := items[0];
          AddWhenFull(items, maxsize, x);
          items := items[1..];
          itemSet := itemSet - {oldest};
        } else {
          AddNotFull(items, maxsize, x);
        }
        AddPreservesInvariant(old(items), maxsize, x);
        items := DequeAppend(items, maxsize, x);
        itemSet := itemSet + {x};
      }
      r := Pass;
    }

    /** Membership, answered by the hash set, is membership in the deque. */
    function Contains(x: T): (b: bool)
      reads this
      requires Valid()
      ensures b <==> x in items
    {
      x in itemSet
    }

    /** The number of remembered keys: also the size of the hash set, never above capacity. */
    function Len(): (n: nat)
      reads this
      requires Valid()
      ensures n == |items| && n == |itemSet| && n <= maxsize
    {
      DistinctCard(items);
      |items|
    }

    /** The listing `[k1, k2, ...]` of the keys, oldest first, each rendered with `repr`. */
    function Str(repr: T -> string): (s: string)
      reads this
      requires Valid()
      ensures items == [] ==> s == "[]"
      ensures items != [] ==> s == "[" + JoinReprs(items, repr) + "]"
    {
      ListRepr(items, repr)
    }
  }
}
