/**
 * proj1/deque/LinkedListDeque.java: a double-ended queue in a circular,
 * doubly linked list closed by a sentinel node. The sentinel's item is
 * `null` (here `None`); every other node holds one item (`Some`).
 *
 * The nodes live in `store`, a map from node ids to node records: a
 * reference to a node is its id, and the sentinel's id is `Sentinel`.
 * Rewiring a `prev` or `next` link is an update of one record in `store`.
 */
module LinkedListDeques {
  import opened Wrappers

  type NodeId = nat

  /** The sentinel's id. */
  const Sentinel: NodeId := 0

  /** A node: its item and the ids of the nodes before and after it. */
  datatype ListNode<T> = ListNode(item: Option<T>, prev: NodeId, next: NodeId)

  /** The id of the node at position `i` of `ids`, the sentinel standing at both ends. */
  function IdAt(ids: seq<NodeId>, i: int): NodeId
  {
    if 0 <= i < |ids| then ids[i] else Sentinel
  }

  /** The nodes at positions `i` and `j` of `ids` are different nodes. */
  ghost predicate Apart(ids: seq<NodeId>, i: int, j: int)
    requires 0 <= i < |ids| && 0 <= j < |ids|
  {
    ids[i] != ids[j]
  }

  /** No node appears twice in `ids`. */
  ghost predicate Distinct(ids: seq<NodeId>)
  {
    forall i, j :: 0 <= i < j < |ids| ==> Apart(ids, i, j)
  }

  /**
   * Each node of `ids` is in `store`, holds the item of `contents` at its
   * position and links to its neighbours, the sentinel standing at both ends.
   */
  ghost predicate NodesLinked<T>(store: map<NodeId, ListNode<T>>, ids: seq<NodeId>, contents: seq<T>)
  {
    && |ids| == |contents|
    && (forall i {:trigger store[ids[i]]} :: 0 <= i < |ids| ==>
          && ids[i] in store
          && store[ids[i]] == ListNode(Some(contents[i]), IdAt(ids, i - 1), IdAt(ids, i + 1)))
  }

  /**
   * `store` holds the list whose item nodes, front to back, are `ids`:
   * distinct, never the sentinel, holding `contents` in order, each linked
   * to its neighbours and the sentinel closing the circle at both ends.
   * Every id in use is below `nextId`, the id the next new node gets.
   */
  ghost predicate Linked<T>(store: map<NodeId, ListNode<T>>, ids: seq<NodeId>, contents: seq<T>, nextId: NodeId)
  {
    && NodesLinked(store, ids, contents)
    && (forall k :: k in store ==> k < nextId)
    && Sentinel in store && store[Sentinel].item == None
    && (forall i :: 0 <= i < |ids| ==> ids[i] != Sentinel && ids[i] in store)
    && Distinct(ids)
    && store[Sentinel].next == IdAt(ids, 0) && store[Sentinel].prev == IdAt(ids, |ids| - 1)
  }

  /** What `Linked` says of the node at position `i`. */
  lemma NodeAt<T>(store: map<NodeId, ListNode<T>>, ids: seq<NodeId>, contents: seq<T>, nextId: NodeId, i: int)
    requires Linked(store, ids, contents, nextId) && 0 <= i < |ids|
    ensures ids[i] in store && ids[i] != Sentinel && ids[i] < nextId
    ensures store[ids[i]] == ListNode(Some(contents[i]), IdAt(ids, i - 1), IdAt(ids, i + 1))
  {
  }

  /** A fresh id put in front of distinct ids keeps them distinct. */
  lemma DistinctPushFront<T>(store: map<NodeId, ListNode<T>>, ids: seq<NodeId>, contents: seq<T>, nextId: NodeId)
    requires Linked(store, ids, contents, nextId)
    ensures Distinct([nextId] + ids)
  {
    var ids' := [nextId] + ids;
    forall i, j | 0 <= i < j < |ids'|
      ensures Apart(ids', i, j)
    {
      NodeAt(store, ids, contents, nextId, j - 1);
      if i > 0 {
        assert Apart(ids, i - 1, j - 1);
      }
    }
  }

  /** The node records after `addFirst`'s three link updates. */
  lemma NodesPushFront<T>(store: map<NodeId, ListNode<T>>, ids: seq<NodeId>, contents: seq<T>, nextId: NodeId,
                          item: T, s1: map<NodeId, ListNode<T>>, s2: map<NodeId, ListNode<T>>,
                          s3: map<NodeId, ListNode<T>>)
    requires Linked(store, ids, contents, nextId)
    requires var first := IdAt(ids, 0); s1 == store[first := store[first].(prev := nextId)]
    requires s2 == s1[nextId := ListNode(Some(item), Sentinel, IdAt(ids, 0))]
    requires s3 == s2[Sentinel := s2[Sentinel].(next := nextId)]
    ensures NodesLinked(s3, [nextId] + ids, [item] + contents)
  {
    var ids', contents' := [nextId] + ids, [item] + contents;
    forall i | 0 <= i < |ids'|
      ensures ids'[i] in s3
      ensures s3[ids'[i]] == ListNode(Some(contents'[i]), IdAt(ids', i - 1), IdAt(ids', i + 1))
    {
      if i == 0 {
        assert s3[nextId] == s2[nextId];
      } else {
        NodeAt(store, ids, contents, nextId, i - 1);
        if i > 1 {
          assert Apart(ids, 0, i - 1);
          assert s3[ids[i - 1]] == store[ids[i - 1]];
        } else {
          assert s3[ids[0]] == store[ids[0]].(prev := nextId);
        }
      }
    }
  }

  /**
   * `addFirst`'s three link updates (the old first node's `prev`, the new
   * node, the sentinel's `next`) put a fresh node at the front.
   */
  lemma LinkedPushFront<T>(store: map<NodeId, ListNode<T>>, ids: seq<NodeId>, contents: seq<T>, nextId: NodeId,
                           item: T, s1: map<NodeId, ListNode<T>>, s2: map<NodeId, ListNode<T>>,
                           s3: map<NodeId, ListNode<T>>)
    requires Linked(store, ids, contents, nextId)
    requires var first := IdAt(ids, 0); s1 == store[first := store[first].(prev := nextId)]
    requires s2 == s1[nextId := ListNode(Some(item), Sentinel, IdAt(ids, 0))]
    requires s3 == s2[Sentinel := s2[Sentinel].(next := nextId)]
    ensures Linked(s3, [nextId] + ids, [item] + contents, nextId + 1)
  {
    DistinctPushFront(store, ids, contents, nextId);
    NodesPushFront(store, ids, contents, nextId, item, s1, s2, s3);
    if ids != [] {
      NodeAt(store, ids, contents, nextId, |ids| - 1);
    }
  }

  /** A fresh id put behind distinct ids keeps them distinct. */
  lemma DistinctPushBack<T>(store: map<NodeId, ListNode<T>>, ids: seq<NodeId>, contents: seq<T>, nextId: NodeId)
    requires Linked(store, ids, contents, nextId)
    ensures Distinct(ids + [nextId])
  {
    var ids' := ids + [nextId];
    forall i, j | 0 <= i < j < |ids'|
      ensures Apart(ids', i, j)
    {
      NodeAt(store, ids, contents, nextId, i);
      if j < |ids| {
        assert Apart(ids, i, j);
      }
    }
  }

  /** The node records after `addLast`'s three link updates. */
  lemma NodesPushBack<T>(store: map<NodeId, ListNode<T>>, ids: seq<NodeId>, contents: seq<T>, nextId: NodeId,
                         item: T, s1: map<NodeId, ListNode<T>>, s2: map<NodeId, ListNode<T>>,
                         s3: map<NodeId, ListNode<T>>)
    requires Linked(store, ids, contents, nextId)
    requires var last := IdAt(ids, |ids| - 1); s1 == store[last := store[last].(next := nextId)]
    requires s2 == s1[nextId := ListNode(Some(item), IdAt(ids, |ids| - 1), Sentinel)]
    requires s3 == s2[Sentinel := s2[Sentinel].(prev := nextId)]
    ensures NodesLinked(s3, ids + [nextId], contents + [item])
  {
    var ids', contents' := ids + [nextId], contents + [item];
    var k := |ids|;
    forall i | 0 <= i < |ids'|
      ensures ids'[i] in s3
      ensures s3[ids'[i]] == ListNode(Some(contents'[i]), IdAt(ids', i - 1), IdAt(ids', i + 1))
    {
      if i == k {
        assert s3[nextId] == s2[nextId];
      } else {
        NodeAt(store, ids, contents, nextId, i);
        if i < k - 1 {
          assert Apart(ids, i, k - 1);
          assert s3[ids[i]] == store[ids[i]];
        } else {
          assert s3[ids[i]] == store[ids[i]].(next := nextId);
        }
      }
    }
  }

  /**
   * `addLast`'s three link updates (the old last node's `next`, the new
   * node, the sentinel's `prev`) put a fresh node at the back.
   */
  lemma LinkedPushBack<T>(store: map<NodeId, ListNode<T>>, ids: seq<NodeId>, contents: seq<T>, nextId: NodeId,
                          item: T, s1: map<NodeId, ListNode<T>>, s2: map<NodeId, ListNode<T>>,
                          s3: map<NodeId, ListNode<T>>)
    requires Linked(store, ids, contents, nextId)
    requires var last := IdAt(ids, |ids| - 1); s1 == store[last := store[last].(next := nextId)]
    requires s2 == s1[nextId := ListNode(Some(item), IdAt(ids, |ids| - 1), Sentinel)]
    requires s3 == s2[Sentinel := s2[Sentinel].(prev := nextId)]
    ensures Linked(s3, ids + [nextId], contents + [item], nextId + 1)
  {
    DistinctPushBack(store, ids, contents, nextId);
    NodesPushBack(store, ids, contents, nextId, item, s1, s2, s3);
    if ids != [] {
      NodeAt(store, ids, contents, nextId, 0);
    }
  }

  /** Dropping the first id keeps the rest distinct. */
  lemma DistinctDropFirst(ids: seq<NodeId>)
    requires Distinct(ids) && |ids| > 0
    ensures Distinct(ids[1..])
  {
    var ids' := ids[1..];
    forall i, j | 0 <= i < j < |ids'|
      ensures Apart(ids', i, j)
    {
      assert Apart(ids, i + 1, j + 1);
    }
  }

  /** The node records after `removeFirst`'s two link updates. */
  lemma NodesPopFront<T>(store: map<NodeId, ListNode<T>>, ids: seq<NodeId>, contents: seq<T>, nextId: NodeId,
                         s1: map<NodeId, ListNode<T>>, s2: map<NodeId, ListNode<T>>)
    requires Linked(store, ids, contents, nextId) && |ids| > 0
    requires s1 == store[Sentinel := store[Sentinel].(next := store[ids[0]].next)]
    requires var second := store[ids[0]].next; s2 == s1[second := s1[second].(prev := Sentinel)]
    ensures NodesLinked(s2, ids[1..], contents[1..])
  {
    NodeAt(store, ids, contents, nextId, 0);
    var ids', contents' := ids[1..], contents[1..];
    forall i | 0 <= i < |ids'|
      ensures ids'[i] in s2
      ensures s2[ids'[i]] == ListNode(Some(contents'[i]), IdAt(ids', i - 1), IdAt(ids', i + 1))
    {
      NodeAt(store, ids, contents, nextId, i + 1);
      if i > 0 {
        assert Apart(ids, 1, i + 1);
        assert s2[ids[i + 1]] == store[ids[i + 1]];
      } else {
        assert s2[ids[1]] == store[ids[1]].(prev := Sentinel);
      }
    }
  }

  /**
   * `removeFirst`'s two link updates (the sentinel's `next`, the second
   * node's `prev`) unlink the first node, which stays in the store unused.
   */
  lemma LinkedPopFront<T>(store: map<NodeId, ListNode<T>>, ids: seq<NodeId>, contents: seq<T>, nextId: NodeId,
                          s1: map<NodeId, ListNode<T>>, s2: map<NodeId, ListNode<T>>)
    requires Linked(store, ids, contents, nextId) && |ids| > 0
    requires s1 == store[Sentinel := store[Sentinel].(next := store[ids[0]].next)]
    requires var second := store[ids[0]].next; s2 == s1[second := s1[second].(prev := Sentinel)]
    ensures Linked(s2, ids[1..], contents[1..], nextId)
  {
    DistinctDropFirst(ids);
    NodesPopFront(store, ids, contents, nextId, s1, s2);
    NodeAt(store, ids, contents, nextId, 0);
    NodeAt(store, ids, contents, nextId, |ids| - 1);
    if |ids| > 1 {
      assert Apart(ids, 0, |ids| - 1);
    }
  }

  /** Dropping the last id keeps the rest distinct. */
  lemma DistinctDropLast(ids: seq<NodeId>)
    requires Distinct(ids) && |ids| > 0
    ensures Distinct(ids[..|ids| - 1])
  {
    var ids' := ids[..|ids| - 1];
    forall i, j | 0 <= i < j < |ids'|
      ensures Apart(ids', i, j)
    {
      assert Apart(ids, i, j);
    }
  }

  /** The node records after `removeLast`'s two link updates. */
  lemma NodesPopBack<T>(store: map<NodeId, ListNode<T>>, ids: seq<NodeId>, contents: seq<T>, nextId: NodeId,
                        s1: map<NodeId, ListNode<T>>, s2: map<NodeId, ListNode<T>>)
    requires Linked(store, ids, contents, nextId) && |ids| > 0
    requires s1 == store[Sentinel := store[Sentinel].(prev := store[ids[|ids| - 1]].prev)]
    requires var before := store[ids[|ids| - 1]].prev; s2 == s1[before := s1[before].(next := Sentinel)]
    ensures var k := |ids| - 1; NodesLinked(s2, ids[..k], contents[..k])
  {
    var k := |ids| - 1;
    NodeAt(store, ids, contents, nextId, k);
    var ids', contents' := ids[..k], contents[..k];
    forall i | 0 <= i < |ids'|
      ensures ids'[i] in s2
      ensures s2[ids'[i]] == ListNode(Some(contents'[i]), IdAt(ids', i - 1), IdAt(ids', i + 1))
    {
      NodeAt(store, ids, contents, nextId, i);
      assert ids'[i] == ids[i] && contents'[i] == contents[i];
      if i == k - 1 {
        assert s2[ids[i]] == store[ids[i]].(next := Sentinel);
      } else {
        assert Apart(ids, i, k - 1);
        assert s2[ids[i]] == store[ids[i]];
      }
    }
  }

  /**
   * `removeLast`'s two link updates (the sentinel's `prev`, the node
   * before the last's `next`) unlink the last node, which stays in the
   * store unused.
   */
  lemma LinkedPopBack<T>(store: map<NodeId, ListNode<T>>, ids: seq<NodeId>, contents: seq<T>, nextId: NodeId,
                         s1: map<NodeId, ListNode<T>>, s2: map<NodeId, ListNode<T>>)
    requires Linked(store, ids, contents, nextId) && |ids| > 0
    requires s1 == store[Sentinel := store[Sentinel].(prev := store[ids[|ids| - 1]].prev)]
    requires var before := store[ids[|ids| - 1]].prev; s2 == s1[before := s1[before].(next := Sentinel)]
    ensures var k := |ids| - 1; Linked(s2, ids[..k], contents[..k], nextId)
  {
    var k := |ids| - 1;
    DistinctDropLast(ids);
    NodesPopBack(store, ids, contents, nextId, s1, s2);
    NodeAt(store, ids, contents, nextId, 0);
    NodeAt(store, ids, contents, nextId, k);
    if k > 0 {
      assert Apart(ids, 0, k);
    }
  }

  /**
   * The walk of `equals`: step through two lists of equal length in
   * step, from the nodes after their sentinels, comparing items.
   */
  method SameItems<T(==)>(s: map<NodeId, ListNode<T>>, ghost ids: seq<NodeId>, ghost a: seq<T>, ghost n: NodeId,
                          t: map<NodeId, ListNode<T>>, ghost ids': seq<NodeId>, ghost b: seq<T>, ghost n': NodeId)
      returns (eq: bool)
    requires Linked(s, ids, a, n) && Linked(t, ids', b, n') && |ids| == |ids'|
    ensures eq <==> a == b
  {
    var p, q := s[Sentinel].next, t[Sentinel].next;
    ghost var i := 0;
    while p != Sentinel && q != Sentinel
      invariant 0 <= i <= |ids| && p == IdAt(ids, i) && q == IdAt(ids', i)
      invariant forall k :: 0 <= k < i ==> a[k] == b[k]
      decreases |ids| - i
    {
      NodeAt(s, ids, a, n, i);
      NodeAt(t, ids', b, n', i);
      if s[p].item != t[q].item {
        return false;
      }
      p, q := s[p].next, t[q].next;
      i := i + 1;
    }
    return true;
  }

  class LinkedListDeque<T(==)> {
    /** The nodes by id; the sentinel's record is at `Sentinel`. */
    var store: map<NodeId, ListNode<T>>
    var size: nat
    /** The id that the next node allocated gets. */
    var nextId: NodeId
    /** The ids of the item nodes, front to back. */
    ghost var Ids: seq<NodeId>
    ghost var Contents: seq<T>

    ghost predicate Valid()
      reads this
    {
      size == |Ids| && Linked(store, Ids, Contents, nextId)
    }

    /** `new LinkedListDeque()`: a sentinel linked to itself. */
    constructor ()
      ensures Valid() && Contents == []
    {
      size := 0;
      store := map[Sentinel := ListNode(None, Sentinel, Sentinel)];
      nextId := Sentinel + 1;
      Ids := [];
      Contents := [];
    }

    /** `size()`. */
    function Size(): (n: nat)
      requires Valid()
      reads this
      ensures n == |Contents|
    {
      size
    }

    /** `isEmpty()`, from the `Deque` interface. */
    function IsEmpty(): (b: bool)
      requires Valid()
      reads this
      ensures b <==> Contents == []
    {
      size == 0
    }

    /** `addFirst`: link a new node between the sentinel and the first node. */
    method AddFirst(item: T)
      requires Valid()
      modifies this
      ensures Valid() && Contents == [item] + old(Contents)
    {
      var newNode := nextId;
      nextId := nextId + 1;
      var first := store[Sentinel].next;
      ghost var s0 := store;
      store := store[first := store[first].(prev := newNode)];
      ghost var s1 := store;
      store := store[newNode := ListNode(Some(item), Sentinel, first)];
      ghost var s2 := store;
      store := store[Sentinel := store[Sentinel].(next := newNode)];
      LinkedPushFront(s0, Ids, Contents, newNode, item, s1, s2, store);
      size := size + 1;
      Ids := [newNode] + Ids;
      Contents := [item] + Contents;
    }

    /** `addLast`: link a new node between the last node and the sentinel. */
    method AddLast(item: T)
      requires Valid()
      modifies this
      ensures Valid() && Contents == old(Contents) + [item]
    {
      var newNode := nextId;
      nextId := nextId + 1;
      var last := store[Sentinel].prev;
      ghost var s0 := store;
      store := store[last := store[last].(next := newNode)];
      ghost var s1 := store;
      store := store[newNode := ListNode(Some(item), last, Sentinel)];
      ghost var s2 := store;
      store := store[Sentinel := store[Sentinel].(prev := newNode)];
      LinkedPushBack(s0, Ids, Contents, newNode, item, s1, s2, store);
      size := size + 1;
      Ids := Ids + [newNode];
      Contents := Contents + [item];
    }

    /**
     * `removeFirst`: `null` on an empty deque, which is left as it was;
     * otherwise unlink the first node and return its item.
     */
    method RemoveFirst() returns (r: Option<T>)
      requires Valid()
      modifies this
      ensures Valid()
      ensures old(Contents) == [] ==> r == None && Contents == [] && unchanged(this)
      ensures old(Contents) != [] ==> r == Some(old(Contents)[0]) && Contents == old(Contents)[1..]
    {
      if size == 0 {
        return None;
      }
      var first := store[Sentinel].next;
      ghost var s0 := store;
      store := store[Sentinel := store[Sentinel].(next := store[first].next)];
      ghost var s1 := store;
      var second := store[first].next;
      store := store[second := store[second].(prev := Sentinel)];
      LinkedPopFront(s0, Ids, Contents, nextId, s1, store);
      size := size - 1;
      r := store[first].item;
      Ids := Ids[1..];
      Contents := Contents[1..];
    }

    /**
     * `removeLast`: `null` on an empty deque, which is left as it was;
     * otherwise unlink the last node and return its item.
     */
    method RemoveLast() returns (r: Option<T>)
      requires Valid()
      modifies this
      ensures Valid()
      ensures old(Contents) == [] ==> r == None && Contents == [] && unchanged(this)
      ensures old(Contents) != [] ==>
                && r == Some(old(Contents)[|old(Contents)| - 1])
                && Contents == old(Contents)[..|old(Contents)| - 1]
    {
      if size == 0 {
        return None;
      }
      var last := store[Sentinel].prev;
      ghost var s0 := store;
      store := store[Sentinel := store[Sentinel].(prev := store[last].prev)];
      ghost var s1 := store;
      var before := store[last].prev;
      store := store[before := store[before].(next := Sentinel)];
      LinkedPopBack(s0, Ids, Contents, nextId, s1, store);
      size := size - 1;
      r := store[last].item;
      Ids := Ids[..size];
      Contents := Contents[..size];
    }

    /**
     * `get(index)`: walk `index` links from the first node, giving up with
     * `null` on passing the sentinel. A negative index walks no link, so it
     * yields the first item (or `null`, the sentinel's item, when empty).
     */
    method Get(index: int) returns (r: Option<T>)
      requires Valid()
      ensures 0 <= index < |Contents| ==> r == Some(Contents[index])
      ensures index >= |Contents| ==> r == None
      ensures index < 0 ==> r == if Contents == [] then None else Some(Contents[0])
    {
      var i := 0;
      var p := store[Sentinel].next;
      while i < index
        invariant 0 <= i <= |Ids| && p == IdAt(Ids, i)
        invariant index >= 0 ==> i <= index
        invariant index < 0 ==> i == 0
        decreases index - i
      {
        if p == Sentinel {
          return None;
        }
        NodeAt(store, Ids, Contents, nextId, i);
        p := store[p].next;
        i := i + 1;
      }
      if i < |Ids| {
        NodeAt(store, Ids, Contents, nextId, i);
      }
      return store[p].item;
    }

    /**
     * `helper(index, p)`, with `p` the node at position `pos`: `null` at the
     * sentinel, `p`'s item when `index` is 0, otherwise one step on.
     */
    function Helper(index: int, p: NodeId, ghost pos: nat): (r: Option<T>)
      requires Valid() && pos <= |Ids| && p == IdAt(Ids, pos)
      reads this
      ensures r == if 0 <= index < |Ids| - pos then Some(Contents[pos + index]) else None
      decreases |Ids| - pos
    {
      if p == Sentinel then None
      else if index == 0 then
        NodeAt(store, Ids, Contents, nextId, pos);
        store[p].item
      else
        NodeAt(store, Ids, Contents, nextId, pos);
        Helper(index - 1, store[p].next, pos + 1)
    }

    /**
     * `getRecursive(index)`: `helper` from the first node. Unlike `get`, a
     * negative index never meets 0 and runs into the sentinel: `null`.
     */
    function GetRecursive(index: int): (r: Option<T>)
      requires Valid()
      reads this
      ensures 0 <= index < |Contents| ==> r == Some(Contents[index])
      ensures !(0 <= index < |Contents|) ==> r == None
    {
      Helper(index, store[Sentinel].next, 0)
    }

    /**
     * `equals` against another linked-list deque: the same object, or the
     * same size and equal items met by walking both lists in step.
     */
    method Equals(other: LinkedListDeque<T>) returns (eq: bool)
      requires Valid() && other.Valid()
      ensures eq <==> Contents == other.Contents
    {
      if this == other {
        return true;
      }
      if size != other.size {
        return false;
      }
      eq := SameItems(store, Ids, Contents, nextId, other.store, other.Ids, other.Contents, other.nextId);
    }
  }
}
