/**
 * proj1/deque/MaxArrayDeque.java: an array deque with a default comparator
 * and a linear scan for the largest item. The Java class extends
 * `ArrayDeque`; here it holds one.
 *
 * A `java.util.Comparator` is a function to `int` whose sign orders two
 * items; `IsComparator` is the contract that interface requires.
 */
module MaxArrayDeques {
  import opened Wrappers
  import opened ArrayDeques

  type Comparator<!T> = (T, T) -> int

  /**
   * The `Comparator` contract: the sign flips when the arguments are
   * swapped, "greater" is transitive, and items that compare equal compare
   * alike with every third item.
   */
  ghost predicate IsComparator<T(!new)>(c: Comparator<T>)
  {
    && (forall x, y :: c(x, y) > 0 <==> c(y, x) < 0)
    && (forall x, y, z :: c(x, y) > 0 && c(y, z) > 0 ==> c(x, z) > 0)
    && (forall x, y, z :: c(x, y) == 0 ==> (c(x, z) > 0 <==> c(y, z) > 0))
    && (forall x, y, z :: c(x, y) == 0 ==> (c(x, z) < 0 <==> c(y, z) < 0))
  }

  /** An item greater than `z` is greater than any item not greater than `z`. */
  lemma AboveOverNotAbove<T(!new)>(c: Comparator<T>, x: T, y: T, z: T)
    requires IsComparator(c)
    requires c(x, z) > 0 && c(y, z) <= 0
    ensures c(x, y) > 0
  {
    if c(y, z) == 0 {
      assert c(z, x) < 0;
      assert c(y, x) < 0;
    } else {
      assert c(z, y) > 0;
    }
  }

  /**
   * Among the first `i` items, `s[m]` is the first of the largest: nothing
   * there compares greater than it, and it compares greater than every item
   * before it.
   */
  ghost predicate MaxSoFar<T>(s: seq<T>, c: Comparator<T>, i: int, m: int)
  {
    && 0 <= m < i <= |s|
    && (forall k :: 0 <= k < i ==> c(s[k], s[m]) <= 0)
    && (forall k :: 0 <= k < m ==> c(s[m], s[k]) > 0)
  }

  /** `s[m]` is the first of the largest items of `s`. */
  ghost predicate IsEarliestMax<T>(s: seq<T>, c: Comparator<T>, m: int)
  {
    MaxSoFar(s, c, |s|, m)
  }

  /**
   * One step of the scan of `max`: the candidate is replaced only by an
   * item that compares strictly greater, and stays the first of the largest.
   */
  lemma MaxSoFarStep<T(!new)>(s: seq<T>, c: Comparator<T>, i: int, m: int)
    requires IsComparator(c) && MaxSoFar(s, c, i, m) && i < |s|
    ensures MaxSoFar(s, c, i + 1, if c(s[i], s[m]) > 0 then i else m)
  {
    if c(s[i], s[m]) > 0 {
      forall k | 0 <= k < i
        ensures c(s[i], s[k]) > 0 && c(s[k], s[i]) < 0
      {
        AboveOverNotAbove(c, s[i], s[k], s[m]);
      }
      assert c(s[i], s[i]) <= 0;
    }
  }

  /** No other position is the earliest maximum: the result of `max` is determined. */
  lemma EarliestMaxUnique<T(!new)>(s: seq<T>, c: Comparator<T>, m: int, other: int)
    requires IsComparator(c)
    requires IsEarliestMax(s, c, m) && 0 <= other < |s| && other != m
    ensures !IsEarliestMax(s, c, other)
  {
    if other < m {
      assert c(s[m], s[other]) > 0;
    } else {
      assert c(s[other], s[m]) <= 0;
    }
  }

  class MaxArrayDeque<T(==,!new)> {
    const deque: ArrayDeque<T>
    const defaultComparator: Comparator<T>

    /** `new MaxArrayDeque(c)`: an empty deque remembering `c`. */
    constructor (c: Comparator<T>)
      ensures fresh(deque) && fresh(deque.items)
      ensures deque.Valid() && deque.Contents == [] && defaultComparator == c
    {
      deque := new ArrayDeque<T>();
      defaultComparator := c;
    }

    /**
     * `max(c)`: `null` on an empty deque; otherwise a scan from the front
     * that replaces the candidate only on a strictly greater item, which
     * yields the first of the largest items.
     */
    method MaxBy(c: Comparator<T>) returns (r: Option<T>)
      requires deque.Valid() && IsComparator(c)
      ensures r.None? <==> deque.Contents == []
      ensures r.Some? ==>
                exists m :: IsEarliestMax(deque.Contents, c, m) && r.value == deque.Contents[m]
    {
      if deque.IsEmpty() {
        return None;
      }
      ghost var s := deque.Contents;
      var maxItem := deque.Get(0).value;
      ghost var m := 0;
      for i := 1 to deque.Size()
        invariant MaxSoFar(s, c, i, m) && maxItem == s[m]
      {
        var item := deque.Get(i).value;
        MaxSoFarStep(s, c, i, m);
        if c(item, maxItem) > 0 {
          maxItem, m := item, i;
        }
      }
      r := Some(maxItem);
    }

    /** `max()`: `max(c)` with the comparator given at construction. */
    method Max() returns (r: Option<T>)
      requires deque.Valid() && IsComparator(defaultComparator)
      ensures r.None? <==> deque.Contents == []
      ensures r.Some? ==>
                exists m :: IsEarliestMax(deque.Contents, defaultComparator, m)
                            && r.value == deque.Contents[m]
    {
      if deque.IsEmpty() {
        return None;
      }
      r := MaxBy(defaultComparator);
    }
  }
}
