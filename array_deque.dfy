/**
 * proj1/deque/ArrayDeque.java: a double-ended queue kept in a circular
 * array. The array starts with 8 slots, doubles when an add finds it full,
 * and shrinks to a quarter when a removal leaves it at least 16 slots long
 * and less than a quarter used. Empty slots hold `null`, here `None`; the
 * deque's items themselves are never `null`.
 *
 * `Contents` is the abstract value: the items from front to back.
 */
module ArrayDeques {
  import opened Wrappers
  import opened Ratios

  /** `n` is 1, 2, 4, 8, ... */
  predicate PowerOfTwo(n: nat)
  {
    n == 1 || (n > 1 && n % 2 == 0 && PowerOfTwo(n / 2))
  }

  /** A power of two of at least 16 divides by 4 into a power of two of at least 4. */
  lemma QuarterOfPowerOfTwo(n: nat)
    requires PowerOfTwo(n) && n >= 16
    ensures n % 4 == 0 && PowerOfTwo(n / 4) && n / 4 >= 4
  {
    assert PowerOfTwo(n / 2);
    assert n / 2 / 2 == n / 4;
  }

  /** The slot `x` of a circular array of length `n`, for `0 <= x < 2 * n`. */
  function Wrap(x: int, n: int): int
  {
    if x < n then x else x - n
  }

  /** `%` on an index below twice the length is one wrap-around. */
  lemma ModIsWrap(x: int, n: int)
    requires 0 <= x < 2 * n
    ensures x % n == Wrap(x, n)
  {
    if x >= n {
      assert x == n + (x - n);
    }
  }

  /** How far slot `j` lies after slot `head`, going round an array of length `n`. */
  function Offset(j: int, head: int, n: int): int
  {
    if j >= head then j - head else j + n - head
  }

  /**
   * The slots `a` hold `contents` from slot `head` onwards, wrapping round,
   * and every other slot is empty.
   */
  ghost predicate Laid<T>(a: seq<Option<T>>, head: int, contents: seq<T>)
  {
    && 0 <= head < |a| && |contents| <= |a|
    && forall j :: 0 <= j < |a| ==>
         a[j] == if Offset(j, head, |a|) < |contents|
                 then Some(contents[Offset(j, head, |a|)]) else None
  }

  /** Where item `i` of a laid-out sequence sits. */
  lemma LaidAt<T>(a: seq<Option<T>>, head: int, contents: seq<T>, i: int)
    requires Laid(a, head, contents) && 0 <= i < |contents|
    ensures 0 <= Wrap(head + i, |a|) < |a|
    ensures a[Wrap(head + i, |a|)] == Some(contents[i])
  {
    assert Offset(Wrap(head + i, |a|), head, |a|) == i;
  }

  /** Storing one slot before `head` prepends an item. */
  lemma LaidPushFront<T>(a: seq<Option<T>>, head: int, contents: seq<T>, x: T)
    requires Laid(a, head, contents) && |contents| < |a|
    ensures Laid(a[Wrap(head - 1 + |a|, |a|) := Some(x)], Wrap(head - 1 + |a|, |a|), [x] + contents)
  {
    var h := Wrap(head - 1 + |a|, |a|);
    var a' := a[h := Some(x)];
    forall j | 0 <= j < |a'|
      ensures a'[j] == if Offset(j, h, |a|) < |contents| + 1
                       then Some(([x] + contents)[Offset(j, h, |a|)]) else None
    {
      if j != h {
        assert Offset(j, h, |a|) == Offset(j, head, |a|) + 1;
      }
    }
  }

  /** Storing in the slot after the last item appends an item. */
  lemma LaidPushBack<T>(a: seq<Option<T>>, head: int, contents: seq<T>, x: T)
    requires Laid(a, head, contents) && |contents| < |a|
    ensures Laid(a[Wrap(head + |contents|, |a|) := Some(x)], head, contents + [x])
  {
    var t := Wrap(head + |contents|, |a|);
    var a' := a[t := Some(x)];
    assert Offset(t, head, |a|) == |contents|;
    forall j | 0 <= j < |a'|
      ensures a'[j] == if Offset(j, head, |a|) < |contents| + 1
                       then Some((contents + [x])[Offset(j, head, |a|)]) else None
    {
    }
  }

  /** Emptying slot `head` and stepping past it drops the front item. */
  lemma LaidPopFront<T>(a: seq<Option<T>>, head: int, contents: seq<T>)
    requires Laid(a, head, contents) && |contents| > 0
    ensures a[head] == Some(contents[0])
    ensures Laid(a[head := None], Wrap(head + 1, |a|), contents[1..])
  {
    assert Offset(head, head, |a|) == 0;
    var h := Wrap(head + 1, |a|);
    var a' := a[head := None];
    forall j | 0 <= j < |a'|
      ensures a'[j] == if Offset(j, h, |a|) < |contents| - 1
                       then Some(contents[1..][Offset(j, h, |a|)]) else None
    {
      if j != head {
        assert Offset(j, h, |a|) == Offset(j, head, |a|) - 1;
      }
    }
  }

  /** Emptying the slot of the last item drops the back item. */
  lemma LaidPopBack<T>(a: seq<Option<T>>, head: int, contents: seq<T>)
    requires Laid(a, head, contents) && |contents| > 0
    ensures 0 <= Wrap(head + |contents| - 1, |a|) < |a|
    ensures a[Wrap(head + |contents| - 1, |a|)] == Some(contents[|contents| - 1])
    ensures Laid(a[Wrap(head + |contents| - 1, |a|) := None], head, contents[..|contents| - 1])
  {
    var t := Wrap(head + |contents| - 1, |a|);
    assert Offset(t, head, |a|) == |contents| - 1;
    var a' := a[t := None];
    forall j | 0 <= j < |a'|
      ensures a'[j] == if Offset(j, head, |a|) < |contents| - 1
                       then Some(contents[..|contents| - 1][Offset(j, head, |a|)]) else None
    {
    }
  }

  class ArrayDeque<T(==)> {
    var items: array<Option<T>>
    var size: nat
    var head: nat
    var tail: nat
    ghost var Contents: seq<T>

    /**
     * The items occupy `size` consecutive slots from `head`, wrapping round;
     * `tail` is the slot after the last; every other slot is empty; the
     * length is a power of two of at least 4.
     */
    ghost predicate Consistent()
      reads this, items
    {
      && PowerOfTwo(items.Length) && items.Length >= 4
      && size == |Contents|
      && tail == Wrap(head + size, items.Length)
      && Laid(items[..], head, Contents)
    }

    /** The class invariant: consistent, and at least a quarter used once 16 slots long. */
    ghost predicate Valid()
      reads this, items
    {
      Consistent() && (items.Length >= 16 ==> 4 * size >= items.Length)
    }

    /** `new ArrayDeque()`: eight empty slots. */
    constructor ()
      ensures Valid() && fresh(items)
      ensures Contents == [] && items.Length == 8
    {
      items := new Option<T>[8](_ => None);
      size, head, tail := 0, 0, 0;
      Contents := [];
      assert PowerOfTwo(8) by {
        assert PowerOfTwo(1);
        assert PowerOfTwo(2);
        assert PowerOfTwo(4);
      }
    }

    /** `size()`. */
    function Size(): (n: nat)
      requires Valid()
      reads this, items
      ensures n == |Contents|
    {
      size
    }

    /** `isEmpty()`, from the `Deque` interface. */
    function IsEmpty(): (b: bool)
      requires Valid()
      reads this, items
      ensures b <==> Contents == []
    {
      size == 0
    }

    /** `get(index)`: the item at `index` from the front, or `null` outside `[0, size)`. */
    function Get(index: int): (r: Option<T>)
      requires Consistent()
      reads this, items
      ensures 0 <= index < |Contents| ==> r == Some(Contents[index])
      ensures !(0 <= index < |Contents|) ==> r == None
    {
      if index < 0 || index >= size then None
      else
        ModIsWrap(head + index, items.Length);
        LaidAt(items[..], head, Contents, index);
        items[(head + index) % items.Length]
    }

    /**
     * The loop of `resize`: a fresh array of `capacity` slots holding the
     * items, in order, from slot 0, read with `get`.
     */
    method CopyToFront(capacity: nat) returns (newItems: array<Option<T>>)
      requires Consistent() && size < capacity
      ensures fresh(newItems) && newItems.Length == capacity
      ensures Laid(newItems[..], 0, Contents)
    {
      newItems := new Option<T>[capacity](_ => None);
      for i := 0 to size
        invariant forall k :: 0 <= k < i ==> newItems[k] == Some(Contents[k])
        invariant forall k :: i <= k < capacity ==> newItems[k] == None
      {
        var item := Get(i);
        newItems[i] := item;
      }
    }

    /**
     * `resize(capacity)`: copy the items, in order, to the front of a fresh
     * array of `capacity` slots; `head` becomes 0 and `tail` becomes `size`.
     */
    method Resize(capacity: nat)
      requires Consistent() && size < capacity
      requires PowerOfTwo(capacity) && capacity >= 4
      requires capacity >= 16 ==> 4 * size >= capacity
      modifies this
      ensures Valid() && fresh(items)
      ensures Contents == old(Contents) && items.Length == capacity
      ensures head == 0 && tail == size
    {
      items := CopyToFront(capacity);
      head := 0;
      tail := size;
    }

    /** The test both additions start with: double the length when full. */
    method GrowIfFull()
      requires Valid()
      modifies this
      ensures Valid() && Contents == old(Contents) && size < items.Length
      ensures items == old(items) || fresh(items)
      ensures items.Length == if old(size) == old(items.Length) then 2 * old(items.Length)
                              else old(items.Length)
    {
      if size == items.Length {
        Resize(items.Length * 2);
      }
    }

    /** `addFirst`: grow if full, then step `head` back one slot and store there. */
    method AddFirst(item: T)
      requires Valid()
      modifies this, items
      ensures Valid() && (items == old(items) || fresh(items))
      ensures Contents == [item] + old(Contents)
      ensures items.Length == if old(size) == old(items.Length) then 2 * old(items.Length)
                              else old(items.Length)
    {
      GrowIfFull();
      ghost var a := items[..];
      LaidPushFront(a, head, Contents, item);
      ModIsWrap(head - 1 + items.Length, items.Length);
      head := (head - 1 + items.Length) % items.Length;
      items[head] := Some(item);
      assert items[..] == a[head := Some(item)];
      size := size + 1;
      Contents := [item] + Contents;
    }

    /** `addLast`: grow if full, then store at `tail` and step `tail` on one slot. */
    method AddLast(item: T)
      requires Valid()
      modifies this, items
      ensures Valid() && (items == old(items) || fresh(items))
      ensures Contents == old(Contents) + [item]
      ensures items.Length == if old(size) == old(items.Length) then 2 * old(items.Length)
                              else old(items.Length)
    {
      GrowIfFull();
      ghost var a := items[..];
      LaidPushBack(a, head, Contents, item);
      items[tail] := Some(item);
      assert items[..] == a[tail := Some(item)];
      ModIsWrap(tail + 1, items.Length);
      tail := (tail + 1) % items.Length;
      size := size + 1;
      Contents := Contents + [item];
    }

    /**
     * The shrink test after a removal: at least 16 slots and `size / length`
     * below 0.25, which for a positive length is `4 * size < length`.
     */
    static function ShouldShrink(size: int, length: int): (r: bool)
      ensures length > 0 ==>
                (r <==> length >= 16 && (size as real) / (length as real) < 0.25)
    {
      if length > 0 then RatioBelow(size, length, 1, 4); length >= 16 && 4 * size < length
      else length >= 16 && 4 * size < length
    }

    /**
     * The test both removals end with: shrink to a quarter of the length
     * when `ShouldShrink`. Before the removal the deque was valid, so one
     * item fewer keeps it consistent and at most one step under a quarter.
     */
    method ShrinkIfSparse()
      requires Consistent() && (items.Length >= 16 ==> 4 * (size + 1) >= items.Length)
      modifies this
      ensures Valid() && Contents == old(Contents)
      ensures items == old(items) || fresh(items)
      ensures items.Length == if ShouldShrink(size, old(items.Length))
                              then old(items.Length) / 4 else old(items.Length)
    {
      if ShouldShrink(size, items.Length) {
        QuarterOfPowerOfTwo(items.Length);
        Resize(items.Length / 4);
      }
    }

    /**
     * `removeFirst`: `null` on an empty deque, which is left as it was;
     * otherwise the front item, whose slot is emptied, followed by the
     * shrink test.
     */
    method RemoveFirst() returns (r: Option<T>)
      requires Valid()
      modifies this, items
      ensures Valid() && (items == old(items) || fresh(items))
      ensures old(Contents) == [] ==> r == None && unchanged(this) && unchanged(items)
      ensures old(Contents) != [] ==>
                && r == Some(old(Contents)[0])
                && Contents == old(Contents)[1..]
                && items.Length == if ShouldShrink(|Contents|, old(items.Length))
                                   then old(items.Length) / 4 else old(items.Length)
    {
      if size == 0 {
        return None;
      }
      ghost var a := items[..];
      LaidPopFront(a, head, Contents);
      r := items[head];
      items[head] := None;
      assert items[..] == a[head := None];
      ModIsWrap(head + 1, items.Length);
      head := (head + 1) % items.Length;
      size := size - 1;
      Contents := Contents[1..];
      ShrinkIfSparse();
    }

    /**
     * `removeLast`: `null` on an empty deque, which is left as it was;
     * otherwise `tail` steps back one slot, whose item is returned and
     * emptied, followed by the shrink test.
     */
    method RemoveLast() returns (r: Option<T>)
      requires Valid()
      modifies this, items
      ensures Valid() && (items == old(items) || fresh(items))
      ensures old(Contents) == [] ==> r == None && unchanged(this) && unchanged(items)
      ensures old(Contents) != [] ==>
                && r == Some(old(Contents)[|old(Contents)| - 1])
                && Contents == old(Contents)[..|old(Contents)| - 1]
                && items.Length == if ShouldShrink(|Contents|, old(items.Length))
                                   then old(items.Length) / 4 else old(items.Length)
    {
      if size == 0 {
        return None;
      }
      ghost var a := items[..];
      LaidPopBack(a, head, Contents);
      ModIsWrap(tail - 1 + items.Length, items.Length);
      tail := (tail - 1 + items.Length) % items.Length;
      assert tail == Wrap(head + size - 1, items.Length);
      r := items[tail];
      items[tail] := None;
      assert items[..] == a[tail := None];
      size := size - 1;
      Contents := Contents[..size];
      ShrinkIfSparse();
    }

    /**
     * `equals` against another array deque: the same object, or the same
     * size and pairwise equal items.
     */
    method Equals(other: ArrayDeque<T>) returns (eq: bool)
      requires Valid() && other.Valid()
      ensures eq <==> Contents == other.Contents
    {
      if this == other {
        return true;
      }
      if other.size != size {
        return false;
      }
      for i := 0 to size
        invariant forall k :: 0 <= k < i ==> Contents[k] == other.Contents[k]
      {
        if other.Get(i) != Get(i) {
          return false;
        }
      }
      return true;
    }
  }

  /** `n` copies of `x`. */
  function Repeat<T>(x: T, n: nat): (s: seq<T>)
    ensures |s| == n && forall i :: 0 <= i < n ==> s[i] == x
  {
    if n == 0 then [] else [x] + Repeat(x, n - 1)
  }

  /** `addFirst(x)`, `n` times, on a valid deque holding only copies of `x`. */
  method PushCopies<T(==)>(d: ArrayDeque<T>, x: T, n: nat)
    requires d.Valid() && d.Contents == Repeat(x, |d.Contents|)
    modifies d, d.items
    ensures d.Valid() && d.Contents == Repeat(x, |old(d.Contents)| + n)
    ensures d.items == old(d.items) || fresh(d.items)
  {
    for i := 0 to n
      invariant d.Valid() && d.Contents == Repeat(x, |old(d.Contents)| + i)
      invariant d.items == old(d.items) || fresh(d.items)
    {
      d.AddFirst(x);
    }
  }

  /**
   * The fill, empty and refill scenario: `n` copies of `x` added, all
   * removed, then added again, give a deque equal to one filled once.
   */
  method FillEmptyRefill<T(==)>(x: T, n: nat) returns (eq: bool)
    ensures eq
  {
    var d := new ArrayDeque<T>();
    PushCopies(d, x, n);
    for i := 0 to n
      invariant d.Valid() && d.Contents == Repeat(x, n - i) && fresh(d) && fresh(d.items)
    {
      var _ := d.RemoveFirst();
    }
    PushCopies(d, x, n);
    var once := new ArrayDeque<T>();
    PushCopies(once, x, n);
    eq := d.Equals(once);
  }
}
