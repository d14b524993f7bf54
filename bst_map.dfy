/**
 * lab7/bstmap/BSTMap.java: a map from comparable keys to values kept in an
 * unbalanced binary search tree. Keys are modelled as integers in their
 * natural order; a key that may be `null` is an `Option<int>`, and `null`
 * makes every public operation throw `IllegalArgumentException`.
 *
 * A tree is a value here: where the Java code assigns `currNode.left`,
 * `currNode.right`, `currNode.key` or `currNode.value` and hands back the
 * node, the model hands back the rebuilt subtree.
 */
module BSTMaps {
  import opened Wrappers

  /** A Java call that either returns a value or throws `IllegalArgumentException`. */
  datatype Outcome<T> = Ok(value: T) | IllegalArgument

  /** A subtree: `null` (`Leaf`) or a node with its key, value and children. */
  datatype Tree<V> = Leaf | Node(key: int, value: V, left: Tree<V>, right: Tree<V>)

  /** The key-to-value map a tree stands for; a node's own entry wins over its children's. */
  ghost function ToMap<V>(t: Tree<V>): map<int, V>
  {
    match t
    case Leaf => map[]
    case Node(k, v, l, r) => (ToMap(l) + ToMap(r))[k := v]
  }

  /** Every key in the left subtree is below the node's key, every key in the right one above. */
  ghost predicate IsBST<V>(t: Tree<V>)
  {
    match t
    case Leaf => true
    case Node(k, _, l, r) =>
      && IsBST(l) && IsBST(r)
      && (forall x :: x in ToMap(l) ==> x < k)
      && (forall x :: x in ToMap(r) ==> k < x)
  }

  /** The leftmost node of a non-empty tree: follow `left` to its end. */
  ghost function Leftmost<V>(t: Tree<V>): (m: Tree<V>)
    requires t.Node?
    ensures m.Node? && m.left.Leaf?
  {
    if t.left.Leaf? then t else Leftmost(t.left)
  }

  /** The subtree rooted at the node holding `key`, or `Leaf` when the search falls off. */
  ghost function Subtree<V>(t: Tree<V>, key: int): Tree<V>
  {
    match t
    case Leaf => Leaf
    case Node(k, _, l, r) => if key > k then Subtree(r, key) else if key < k then Subtree(l, key) else t
  }

  /** The node `Subtree` finds is the one holding `key`, exactly when `key` is in a search tree. */
  lemma {:induction false} SubtreeFinds<V>(t: Tree<V>, key: int)
    requires IsBST(t)
    ensures Subtree(t, key).Node? <==> key in ToMap(t)
    ensures Subtree(t, key).Node? ==> Subtree(t, key).key == key && ToMap(t)[key] == Subtree(t, key).value
  {
    if t.Node? {
      if key > t.key {
        SubtreeFinds(t.right, key);
      } else if key < t.key {
        SubtreeFinds(t.left, key);
      }
    }
  }

  /**
   * `get(currNode, key)`: `null` at a missing subtree, the node's value on an
   * equal key, otherwise the search goes right for a larger key, left for a
   * smaller one. In a search tree it finds exactly the map's entry.
   */
  function Get<V>(t: Tree<V>, key: int): (r: Option<V>)
    ensures IsBST(t) ==> r == Lookup(ToMap(t), key)
  {
    match t
    case Leaf => None
    case Node(k, v, l, r) =>
      if key == k then Some(v)
      else if key > k then Get(r, key)
      else Get(l, key)
  }

  /** The value at the top of a subtree, `null` for an empty one. */
  function TopValue<V>(t: Tree<V>): Option<V>
  {
    if t.Node? then Some(t.value) else None
  }

  /** `s` rises strictly from left to right. */
  predicate Ascending(s: seq<int>)
  {
    forall i, j :: 0 <= i < j < |s| ==> s[i] < s[j]
  }

  /**
   * `keySetConstructor`: the left subtree's keys, the node's key, then the
   * right subtree's keys; these are exactly the tree's keys.
   */
  function InOrder<V>(t: Tree<V>): (s: seq<int>)
    ensures forall x :: x in s <==> x in ToMap(t)
  {
    match t
    case Leaf => []
    case Node(k, _, l, r) => InOrder(l) + [k] + InOrder(r)
  }

  /** In a search tree the in-order keys come out in ascending order, so each once. */
  lemma {:induction false} InOrderAscending<V>(t: Tree<V>)
    requires IsBST(t)
    ensures Ascending(InOrder(t))
  {
    if t.Node? {
      var sl, sr := InOrder(t.left), InOrder(t.right);
      InOrderAscending(t.left);
      InOrderAscending(t.right);
      var s := InOrder(t);
      forall i, j | 0 <= i < j < |s|
        ensures s[i] < s[j]
      {
        if i < |sl| {
          assert s[i] == sl[i] && sl[i] in sl;
        }
        if j > |sl| {
          assert s[j] == sr[j - |sl| - 1] && sr[j - |sl| - 1] in sr;
        }
        if i > |sl| {
          assert s[i] == sr[i - |sl| - 1];
        }
      }
    }
  }

  /** Rebuilding a node over a child whose map gained `key` adds `key` to the node's map. */
  lemma RebuiltAfterPut<V>(L: map<int, V>, R: map<int, V>, k: int, v: V, key: int, value: V)
    requires key != k
    ensures (L + R[key := value])[k := v] == (L + R)[k := v][key := value]
    ensures key !in R ==> (L[key := value] + R)[k := v] == (L + R)[k := v][key := value]
  {
  }

  /** Rebuilding a node over a child whose map lost `key` drops `key` from the node's map. */
  lemma RebuiltAfterRemove<V>(L: map<int, V>, R: map<int, V>, k: int, v: V, key: int)
    requires key != k
    ensures key !in L ==> (L + (R - {key}))[k := v] == (L + R)[k := v] - {key}
    ensures key !in R ==> ((L - {key}) + R)[k := v] == (L + R)[k := v] - {key}
  {
  }

  /**
   * `put(currNode, key, value)`: a new node where the search falls off (and
   * `size` counts one more), the value replaced on an equal key. The new
   * tree maps `key` to `value` and keeps every other entry; `added` says
   * whether the key was new.
   */
  method PutNode<V>(t: Tree<V>, key: int, value: V) returns (t': Tree<V>, added: bool)
    requires IsBST(t)
    ensures IsBST(t')
    ensures ToMap(t') == ToMap(t)[key := value]
    ensures added <==> key !in ToMap(t)
  {
    match t
    case Leaf =>
      return Node(key, value, Leaf, Leaf), true;
    case Node(k, v, l, r) =>
      if key > k {
        var r', a := PutNode(r, key, value);
        t', added := Node(k, v, l, r'), a;
        RebuiltAfterPut(ToMap(l), ToMap(r), k, v, key, value);
      } else if key < k {
        var l', a := PutNode(l, key, value);
        t', added := Node(k, v, l', r), a;
        RebuiltAfterPut(ToMap(l), ToMap(r), k, v, key, value);
      } else {
        t', added := Node(k, value, l, r), false;
      }
  }

  /** How many times `remove(currNode, key)` counts `size` down: twice when the node found has two children. */
  ghost function RemoveCount<V>(t: Tree<V>, key: int): nat
  {
    var s := Subtree(t, key);
    if s.Leaf? then 0 else if s.left.Node? && s.right.Node? then 2 else 1
  }

  /** In a search tree, the keys of the left subtree, the node's key and the right subtree's keys are apart. */
  lemma ChildrenApart<V>(t: Tree<V>)
    requires t.Node? && IsBST(t)
    ensures t.key !in ToMap(t.left) && t.key !in ToMap(t.right)
    ensures forall x :: x in ToMap(t.left) ==> x !in ToMap(t.right)
    ensures ToMap(t) - {t.key} == ToMap(t.left) + ToMap(t.right)
  {
    assert forall x :: x in ToMap(t.left) ==> x < t.key;
  }

  /**
   * `remove(currNode, key)`: the search as in `get`; on the node holding
   * the key, `handleRemove` replaces it and `size` counts one down. The new
   * tree is a search tree holding every entry but `key`'s; `count` is the
   * number of times `size` was counted down.
   */
  method RemoveNode<V>(t: Tree<V>, key: int) returns (t': Tree<V>, count: nat)
    requires IsBST(t)
    ensures IsBST(t')
    ensures ToMap(t') == ToMap(t) - {key}
    ensures count == RemoveCount(t, key)
    ensures TopValue(t') == RemoveReturns(t, key)
    decreases t, 1
  {
    match t
    case Leaf =>
      return Leaf, 0;
    case Node(k, v, l, r) =>
      if key > k {
        var r', c := RemoveNode(r, key);
        t', count := Node(k, v, l, r'), c;
        RebuiltAfterRemove(ToMap(l), ToMap(r), k, v, key);
      } else if key < k {
        var l', c := RemoveNode(l, key);
        t', count := Node(k, v, l', r), c;
        RebuiltAfterRemove(ToMap(l), ToMap(r), k, v, key);
      } else {
        var c;
        t', c := HandleRemove(t);
        count := c + 1;
      }
  }

  /**
   * The leftmost node of a search tree holds its least key, with that key's
   * value, and removing that key counts `size` down once, the node having
   * no left child.
   */
  lemma {:induction false} LeftmostIsLeast<V>(t: Tree<V>)
    requires t.Node? && IsBST(t)
    ensures Leftmost(t).key in ToMap(t) && ToMap(t)[Leftmost(t).key] == Leftmost(t).value
    ensures forall x :: x in ToMap(t) ==> Leftmost(t).key <= x
    ensures RemoveCount(t, Leftmost(t).key) == 1
  {
    if t.left.Node? {
      LeftmostIsLeast(t.left);
      ChildrenApart(t);
    }
  }

  /**
   * Putting the successor's key and value in place of a two-child node's,
   * over its left subtree and its right subtree without the successor,
   * gives a search tree without the node's key.
   */
  lemma ReplaceBySuccessor<V>(t: Tree<V>, r': Tree<V>)
    requires t.Node? && IsBST(t) && t.right.Node?
    requires IsBST(r') && ToMap(r') == ToMap(t.right) - {Leftmost(t.right).key}
    ensures var m := Leftmost(t.right); IsBST(Node(m.key, m.value, t.left, r'))
    ensures var m := Leftmost(t.right); ToMap(Node(m.key, m.value, t.left, r')) == ToMap(t) - {t.key}
  {
    var m := Leftmost(t.right);
    LeftmostIsLeast(t.right);
    ChildrenApart(t);
    assert forall x :: x in ToMap(t.left) ==> x < m.key;
    Reinserted(ToMap(t.left), ToMap(t.right), m.key, m.value);
  }

  /** Taking an entry out of the right-hand map and putting it back on top gives the union again. */
  lemma Reinserted<V>(L: map<int, V>, R: map<int, V>, k: int, v: V)
    requires k in R && R[k] == v && k !in L
    ensures (L + (R - {k}))[k := v] == L + R
  {
  }

  /**
   * `handleRemove(currNode)`: a leaf goes, a node with one child gives way
   * to that child, and a node with two children takes the key and value of
   * its in-order successor (the leftmost node of its right subtree, found
   * by walking `left`), which is then removed from the right subtree.
   * `count` is the extra count-down of `size` that this last removal makes.
   */
  method HandleRemove<V>(t: Tree<V>) returns (t': Tree<V>, count: nat)
    requires t.Node? && IsBST(t)
    ensures IsBST(t')
    ensures ToMap(t') == ToMap(t) - {t.key}
    ensures count == if t.left.Node? && t.right.Node? then 1 else 0
    ensures TopValue(t') == RemoveReturns(t, t.key)
    decreases t, 0
  {
    if t.left.Leaf? && t.right.Leaf? {
      return Leaf, 0;
    } else if t.left.Node? && t.right.Leaf? {
      ChildrenApart(t);
      return t.left, 0;
    } else if t.left.Leaf? && t.right.Node? {
      ChildrenApart(t);
      return t.right, 0;
    }
    var successor := t.right;
    while successor.left.Node?
      invariant successor.Node? && Leftmost(successor) == Leftmost(t.right)
      decreases successor
    {
      successor := successor.left;
    }
    LeftmostIsLeast(t.right);
    var r', c := RemoveNode(t.right, successor.key);
    ReplaceBySuccessor(t, r');
    t', count := Node(successor.key, successor.value, t.left, r'), c;
  }

  class BSTMap<V(==)> {
    var root: Tree<V>
    /**
     * The count `put` and `remove` keep. It equals the number of keys only
     * until a removal at the root or of a node with two children; after
     * that it drifts, and it may fall below zero.
     */
    var size: int

    ghost predicate Valid()
      reads this
    {
      IsBST(root)
    }

    /** The entries of the map. */
    ghost function Contents(): map<int, V>
      reads this
    {
      ToMap(root)
    }

    /** `new BSTMap()`: no root, size 0. */
    constructor ()
      ensures Valid() && Contents() == map[] && size == 0
    {
      root := Leaf;
      size := 0;
    }

    /**
     * `put(key, value)`: throws on a `null` key; otherwise `key` maps to
     * `value`, the other entries stay, and `size` grows only for a new key.
     */
    method Put(key: Option<int>, value: V) returns (r: Outcome<()>)
      requires Valid()
      modifies this
      ensures Valid()
      ensures key.None? ==> r == IllegalArgument && unchanged(this)
      ensures key.Some? ==>
                && r == Ok(())
                && Contents() == old(Contents())[key.value := value]
                && size == old(size) + if key.value in old(Contents()) then 0 else 1
    {
      if key.None? {
        return IllegalArgument;
      }
      var added;
      root, added := PutNode(root, key.value, value);
      if added {
        size := size + 1;
      }
      return Ok(());
    }

    /** `clear()`: no root, size 0. */
    method Clear()
      modifies this
      ensures Valid() && Contents() == map[] && size == 0
    {
      root := Leaf;
      size := 0;
    }

    /** `keySet()`: the keys in ascending order, each once. */
    method KeySet() returns (keys: seq<int>)
      requires Valid()
      ensures Ascending(keys)
      ensures forall x :: x in keys <==> x in Contents()
    {
      keys := InOrder(root);
      InOrderAscending(root);
    }

    /** `containsKey(key)`: throws on `null`; otherwise whether `keySet()` holds the key. */
    method ContainsKey(key: Option<int>) returns (r: Outcome<bool>)
      requires Valid()
      ensures key.None? ==> r == IllegalArgument
      ensures key.Some? ==> r == Ok(key.value in Contents())
    {
      if key.None? {
        return IllegalArgument;
      }
      var keys := KeySet();
      var k := key.value;
      return Ok(k in keys);
    }

    /** `get(key)`: throws on `null`; otherwise the key's value, or `null` when absent. */
    method GetValue(key: Option<int>) returns (r: Outcome<Option<V>>)
      requires Valid()
      ensures key.None? ==> r == IllegalArgument
      ensures key.Some? ==> r == Ok(Lookup(Contents(), key.value))
    {
      if key.None? {
        return IllegalArgument;
      }
      return Ok(Get(root, key.value));
    }

    /** `size()`. */
    function Size(): (n: int)
      reads this
      ensures n == size
    {
      size
    }

    /**
     * The node `remove(root, key)` hands back, read through the `root`
     * field, which `remove` never reassigns: its in-place updates show
     * through `root` except when the node removed is the root itself with
     * at most one child, which `handleRemove` only bypasses.
     */
    method RemoveThroughRoot(k: int) returns (top: Tree<V>)
      requires Valid()
      modifies this
      ensures Valid()
      ensures RootBypassed(old(root), k) ==> Contents() == old(Contents())
      ensures !RootBypassed(old(root), k) ==> Contents() == old(Contents()) - {k}
      ensures size == old(size) - RemoveCount(old(root), k)
      ensures TopValue(top) == RemoveReturns(old(root), k)
    {
      var t', count := RemoveNode(root, k);
      if !RootBypassed(root, k) {
        root := t';
      }
      size := size - count;
      top := t';
    }

    /**
     * `remove(key)`: throws on `null`; otherwise the entry goes as
     * `RemoveThroughRoot` says, and the value returned is that of the node
     * `remove(root, key)` hands back, `null` when there is none. Unless the
     * key is the root's, that node is the root, so the root's value comes
     * back, even for a key that is absent.
     */
    method Remove(key: Option<int>) returns (r: Outcome<Option<V>>)
      requires Valid()
      modifies this
      ensures Valid()
      ensures key.None? ==> r == IllegalArgument && unchanged(this)
      ensures key.Some? ==> r == Ok(RemoveReturns(old(root), key.value))
      ensures key.Some? && RootBypassed(old(root), key.value) ==> Contents() == old(Contents())
      ensures key.Some? && !RootBypassed(old(root), key.value) ==> Contents() == old(Contents()) - {key.value}
      ensures key.Some? ==> size == old(size) - RemoveCount(old(root), key.value)
    {
      if key.None? {
        return IllegalArgument;
      }
      var top := RemoveThroughRoot(key.value);
      return Ok(TopValue(top));
    }

    /**
     * `remove(key, value)`: throws on a `null` key; returns `null` at once
     * for a `null` value; otherwise removes as `remove(key)` does, whatever
     * the value, and returns the value handed back only when it equals
     * `value`.
     */
    method RemoveIfValue(key: Option<int>, value: Option<V>) returns (r: Outcome<Option<V>>)
      requires Valid()
      modifies this
      ensures Valid()
      ensures key.None? ==> r == IllegalArgument && unchanged(this)
      ensures key.Some? && value.None? ==> r == Ok(None) && unchanged(this)
      ensures key.Some? && value.Some? ==>
                && r == Ok(if RemoveReturns(old(root), key.value) == value then value else None)
                && (RootBypassed(old(root), key.value) ==> Contents() == old(Contents()))
                && (!RootBypassed(old(root), key.value) ==> Contents() == old(Contents()) - {key.value})
                && size == old(size) - RemoveCount(old(root), key.value)
    {
      if key.None? {
        return IllegalArgument;
      }
      if value.None? {
        return Ok(None);
      }
      var top := RemoveThroughRoot(key.value);
      var removed := TopValue(top);
      return Ok(if value == removed then removed else None);
    }

    /**
     * `remove(key)` as its contract evidently intends: the entry goes
     * whatever its place in the tree, the key's own value (or `null`) is
     * returned, and `size` counts down once exactly when an entry went, so
     * a size that counted the entries still counts them.
     */
    method RemoveEntry(key: Option<int>) returns (r: Outcome<Option<V>>)
      requires Valid()
      modifies this
      ensures Valid()
      ensures key.None? ==> r == IllegalArgument && unchanged(this)
      ensures key.Some? ==>
                && r == Ok(Lookup(old(Contents()), key.value))
                && Contents() == old(Contents()) - {key.value}
                && size == old(size) - if key.value in old(Contents()) then 1 else 0
      ensures old(size) == |old(Contents())| ==> size == |Contents()|
    {
      if key.None? {
        return IllegalArgument;
      }
      var k := key.value;
      var found := Get(root, k);
      ghost var before := Contents();
      var t', count := RemoveNode(root, k);
      root := t';
      if found.Some? {
        size := size - 1;
      }
      assert Contents().Keys == before.Keys - {k};
      return Ok(found);
    }
  }

  /** `k` is at the root, which has at most one child: `handleRemove` returns another node and `root` keeps the old one. */
  predicate RootBypassed<V>(t: Tree<V>, k: int)
  {
    t.Node? && t.key == k && (t.left.Leaf? || t.right.Leaf?)
  }

  /**
   * The value `remove(key)` returns, by cases on the root: `null` for an
   * empty tree or a lone root holding the key; the root's own value when
   * the key is elsewhere or absent; the only child's value when the root
   * holds the key and has one child; the successor's value when it has two.
   */
  ghost function RemoveReturns<V>(t: Tree<V>, k: int): Option<V>
  {
    if t.Leaf? then None
    else if t.key != k then Some(t.value)
    else if t.left.Leaf? && t.right.Leaf? then None
    else if t.right.Leaf? then Some(t.left.value)
    else if t.left.Leaf? then Some(t.right.value)
    else Some(Leftmost(t.right).value)
  }

  /**
   * A key that is absent, removed from a one-node tree: `remove` hands
   * back the root, so the root's value is returned for a key the map does
   * not hold.
   */
  lemma AbsentKeyReturnsRootValue<V>(v: V)
    ensures var t := Node(5, v, Leaf, Leaf);
            7 !in ToMap(t) && RemoveReturns(t, 7) == Some(v)
  {
  }

  /**
   * The key of a one-node tree, removed: `handleRemove` returns no node but
   * `root` is never reassigned, so the entry stays while `size` counts one
   * down (see `BSTMap.Remove`).
   */
  lemma LoneRootSurvivesRemove<V>(v: V)
    ensures var t := Node(5, v, Leaf, Leaf);
            && RootBypassed(t, 5) && 5 in ToMap(t)
            && RemoveCount(t, 5) == 1
  {
  }

  /**
   * A key whose node has two children, removed: the successor's removal
   * counts `size` down as well, so one entry goes and `size` drops by two.
   */
  lemma TwoChildrenCountTwice<V>(v: V)
    ensures var t := Node(5, v, Node(3, v, Leaf, Leaf), Node(7, v, Leaf, Leaf));
            && IsBST(t) && !RootBypassed(t, 5)
            && ToMap(t).Keys == {3, 5, 7}
            && RemoveCount(t, 5) == 2
  {
    assert ToMap(Node(3, v, Leaf, Leaf)) == map[3 := v];
    assert ToMap(Node(7, v, Leaf, Leaf)) == map[7 := v];
  }
}
