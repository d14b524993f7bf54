/**
 * lab8/hashmap/MyHashMap.java: a map kept in a hash table with separate
 * chaining. Each bucket is a list of key-value entries; a key lives in the
 * bucket `floorMod(hashCode(key), capacity)`. The table starts with 16
 * buckets and a maximum load factor of 0.75, and doubles whenever a `put`
 * leaves more entries than `maxLoad * capacity`.
 *
 * `hashCode` is the parameter `hash`. The load factor, a `double` in the
 * Java code, is the fraction `maxLoadNum / maxLoadDen`, so "load above
 * `maxLoad`" is compared in integers.
 */
module HashMaps {
  import opened Wrappers
  import opened Ratios

  /** A bucket entry, the `Node` of the Java code: a key and its value. */
  datatype Entry<K, V> = Entry(key: K, value: V)

  const DefaultInitialSize: nat := 16
  /** 0.75 as a fraction. */
  const DefaultLoadNum: nat := 3
  const DefaultLoadDen: nat := 4

  /**
   * `Math.floorMod(h, n)`: for a positive `n`, the remainder in `[0, n)`,
   * which is what Dafny's `%` gives.
   */
  function Slot<K>(hash: K -> int, k: K, n: int): (i: int)
    requires n > 0
    ensures 0 <= i < n
  {
    hash(k) % n
  }

  /** No two entries of `b` have the same key. */
  ghost predicate Unique<K(!new), V(!new)>(b: seq<Entry<K, V>>)
  {
    |b| == 0 || ((forall e :: e in b[1..] ==> e.key != b[0].key) && Unique(b[1..]))
  }

  /**
   * The buckets `bs` hold exactly the map `m`: every entry sits in its key's
   * bucket and agrees with `m`, every entry of `m` is in its bucket, and no
   * bucket holds a key twice.
   */
  ghost predicate Holds<K(!new), V(!new)>(bs: seq<seq<Entry<K, V>>>, hash: K -> int, m: map<K, V>)
  {
    && |bs| > 0
    && (forall i :: 0 <= i < |bs| ==> BucketHolds(bs, i, hash, m))
    && (forall k :: k in m ==> Entry(k, m[k]) in bs[Slot(hash, k, |bs|)])
  }

  /**
   * Bucket `i` of `bs` holds no key twice, and each of its entries belongs
   * in bucket `i` and agrees with `m`.
   */
  ghost predicate BucketHolds<K(!new), V(!new)>(bs: seq<seq<Entry<K, V>>>, i: int, hash: K -> int, m: map<K, V>)
    requires 0 <= i < |bs|
  {
    && Unique(bs[i])
    && forall e :: e in bs[i] ==> Slot(hash, e.key, |bs|) == i && e.key in m && m[e.key] == e.value
  }

  /**
   * `bucket.removeIf(node -> key.equals(node.key))`: the entries with
   * another key, in order. The length is unchanged exactly when nothing
   * was removed.
   */
  function Without<K(==, !new), V(!new)>(b: seq<Entry<K, V>>, key: K): (r: seq<Entry<K, V>>)
    ensures forall e :: e in r <==> e in b && e.key != key
    ensures |r| == |b| <==> forall e :: e in b ==> e.key != key
    ensures |r| <= |b|
    ensures Unique(b) ==> Unique(r)
  {
    if b == [] then []
    else if b[0].key == key then Without(b[1..], key)
    else
      assert b[1..] == b[1..];
      [b[0]] + Without(b[1..], key)
  }

  /**
   * `bucket.remove(node)` for the first node with `key`: that entry goes,
   * the others stay in order. In a bucket with unique keys, that leaves
   * every entry without `key`.
   */
  function DropFirstKey<K(==, !new), V(!new)>(b: seq<Entry<K, V>>, key: K): (r: seq<Entry<K, V>>)
    ensures Unique(b) ==> Unique(r) && forall e :: e in r <==> e in b && e.key != key
  {
    if b == [] then []
    else if b[0].key == key then b[1..]
    else [b[0]] + DropFirstKey(b[1..], key)
  }

  /** `c` doubled zero or more times is `d`. */
  ghost predicate Doubled(c: int, d: int)
    decreases d
  {
    d == c || (d > c > 0 && d % 2 == 0 && Doubled(c, d / 2))
  }

  /** Doubling is transitive. */
  lemma {:induction false} DoubledTrans(a: int, b: int, c: int)
    requires Doubled(a, b) && Doubled(b, c)
    ensures Doubled(a, c)
    decreases c
  {
    if c != b {
      DoubledTrans(a, b, c / 2);
    }
  }

  /** An entry of bucket `i` belongs in bucket `i` and agrees with the map. */
  lemma InBucket<K(!new), V(!new)>(bs: seq<seq<Entry<K, V>>>, hash: K -> int, m: map<K, V>, i: int, e: Entry<K, V>)
    requires Holds(bs, hash, m) && 0 <= i < |bs| && e in bs[i]
    ensures Slot(hash, e.key, |bs|) == i && e.key in m && m[e.key] == e.value
  {
    assert BucketHolds(bs, i, hash, m);
  }

  /** Doubling a positive capacity is one doubling. */
  lemma DoubledOnce(c: int)
    requires c > 0
    ensures Doubled(c, 2 * c)
  {
    assert (2 * c) / 2 == c;
    assert Doubled(c, (2 * c) / 2);
  }

  /**
   * `put`'s `removeIf` and `add` on the key's bucket: the buckets then hold
   * the map with `key` set to `value`, and the bucket kept its length
   * exactly when `key` was new.
   */
  lemma HoldsAfterPlace<K(!new), V(!new)>(bs: seq<seq<Entry<K, V>>>, hash: K -> int, m: map<K, V>, key: K, value: V)
    requires Holds(bs, hash, m)
    ensures var i := Slot(hash, key, |bs|);
            Holds(bs[i := Without(bs[i], key) + [Entry(key, value)]], hash, m[key := value])
    ensures var i := Slot(hash, key, |bs|); |Without(bs[i], key)| == |bs[i]| <==> key !in m
  {
    var i := Slot(hash, key, |bs|);
    var b := Without(bs[i], key) + [Entry(key, value)];
    var bs' := bs[i := b];
    var m' := m[key := value];
    assert BucketHolds(bs, i, hash, m);
    forall j | 0 <= j < |bs'|
      ensures BucketHolds(bs', j, hash, m')
    {
      assert BucketHolds(bs, j, hash, m);
      if j == i {
        UniqueAppend(Without(bs[i], key), Entry(key, value));
        forall e | e in b
          ensures Slot(hash, e.key, |bs'|) == j && e.key in m' && m'[e.key] == e.value
        {
          if e != Entry(key, value) {
            assert e in bs[i];
          }
        }
      } else {
        assert bs'[j] == bs[j];
      }
    }
    forall k | k in m'
      ensures Entry(k, m'[k]) in bs'[Slot(hash, k, |bs'|)]
    {
      if k != key {
        assert Entry(k, m[k]) in bs[Slot(hash, k, |bs|)];
      }
    }
    if key in m {
      assert Entry(key, m[key]) in bs[i];
    }
  }

  /** A bucket with unique keys and no `e.key` stays unique with `e` put at its end. */
  lemma {:induction false} UniqueAppend<K(!new), V(!new)>(b: seq<Entry<K, V>>, e: Entry<K, V>)
    requires Unique(b) && forall x :: x in b ==> x.key != e.key
    ensures Unique(b + [e])
  {
    if b != [] {
      assert (b + [e])[1..] == b[1..] + [e];
      UniqueAppend(b[1..], e);
    }
  }

  /** Removing `key`'s entry from its bucket leaves the buckets holding the map without `key`. */
  lemma HoldsAfterDrop<K(!new), V(!new)>(bs: seq<seq<Entry<K, V>>>, hash: K -> int, m: map<K, V>, key: K)
    requires Holds(bs, hash, m)
    ensures var i := Slot(hash, key, |bs|); Holds(bs[i := DropFirstKey(bs[i], key)], hash, m - {key})
  {
    var i := Slot(hash, key, |bs|);
    var bs' := bs[i := DropFirstKey(bs[i], key)];
    var m' := m - {key};
    forall j | 0 <= j < |bs'|
      ensures BucketHolds(bs', j, hash, m')
    {
      assert BucketHolds(bs, j, hash, m);
      if j != i {
        assert bs'[j] == bs[j];
      }
    }
    forall k | k in m'
      ensures Entry(k, m'[k]) in bs'[Slot(hash, k, |bs'|)]
    {
      assert BucketHolds(bs, Slot(hash, k, |bs|), hash, m);
      assert Entry(k, m[k]) in bs[Slot(hash, k, |bs|)];
    }
  }

  /** A map loses one entry when a key it holds is taken out. */
  lemma SizeAfterDrop<K(!new), V(!new)>(m: map<K, V>, key: K)
    requires key in m
    ensures |m - {key}| == |m| - 1
  {
    assert m.Keys == (m - {key}).Keys + {key};
  }

  /** Every entry of `m` is the entry `all` has for that key. */
  ghost predicate Agrees<K, V>(m: map<K, V>, all: map<K, V>)
  {
    forall k :: k in m ==> k in all && m[k] == all[k]
  }

  /** Putting an entry that `all` has keeps `m` in agreement with `all`. */
  lemma AgreesUpdate<K, V>(m: map<K, V>, all: map<K, V>, k: K, v: V)
    requires Agrees(m, all) && k in all && all[k] == v
    ensures Agrees(m[k := v], all)
  {
  }

  /** Buckets that are all empty hold the empty map. */
  lemma HoldsEmpty<K(!new), V(!new)>(bs: seq<seq<Entry<K, V>>>, hash: K -> int)
    requires |bs| > 0 && forall i :: 0 <= i < |bs| ==> bs[i] == []
    ensures Holds(bs, hash, map[])
  {
  }

  /** With fewer entries over as many buckets, a load at most `num / den` stays so. */
  lemma FewerEntries(size: int, size': int, cap: int, num: int, den: int)
    requires size' <= size && den > 0 && size * den <= num * cap
    ensures size' * den <= num * cap
  {
    assert size' * den <= size * den;
  }

  /** Doubling the buckets shrinks how far `size` exceeds `num / den` of them. */
  lemma ExcessShrinks(size: int, cap: int, cap': int, num: int, den: int)
    requires cap > 0 && num > 0 && cap' == 2 * cap
    ensures size * den - num * cap' < size * den - num * cap
  {
    assert num * cap' == 2 * (num * cap);
    assert num * cap > 0;
  }

  class MyHashMap<K(==, !new), V(!new)> {
    /** `hashCode`, fixed for the life of the map. */
    const hash: K -> int
    /** `maxLoad` as the fraction `maxLoadNum / maxLoadDen`. */
    const maxLoadNum: int
    const maxLoadDen: int
    var buckets: array<seq<Entry<K, V>>>
    var actualSize: int
    var capacity: int
    ghost var Contents: map<K, V>

    /** `actualSize / capacity > maxLoad`, the test in `put`. */
    function Overloaded(size: int, cap: int): (r: bool)
      ensures cap > 0 && maxLoadDen > 0 ==>
                (r <==> (size as real) / (cap as real) > (maxLoadNum as real) / (maxLoadDen as real))
    {
      if cap > 0 && maxLoadDen > 0 then
        RatioBelow(maxLoadNum, maxLoadDen, size, cap);
        size * maxLoadDen > maxLoadNum * cap
      else size * maxLoadDen > maxLoadNum * cap
    }

    /** The buckets hold `Contents` and `actualSize` counts its entries. */
    ghost predicate Consistent()
      reads this, buckets
    {
      && capacity == buckets.Length > 0
      && Holds(buckets[..], hash, Contents)
      && actualSize == |Contents|
    }

    /** Consistent, and the load factor is at most `maxLoad`. */
    ghost predicate Valid()
      reads this, buckets
    {
      && Consistent()
      && maxLoadNum > 0 && maxLoadDen > 0
      && !Overloaded(actualSize, capacity)
    }

    /** `createTable(n)` with `createBucket()` in every slot: `n` empty buckets. */
    static method EmptyTable(n: int) returns (a: array<seq<Entry<K, V>>>)
      requires n >= 0
      ensures fresh(a) && a.Length == n
      ensures forall i :: 0 <= i < n ==> a[i] == []
    {
      a := new seq<Entry<K, V>>[n];
      for i := 0 to n
        invariant forall j :: 0 <= j < i ==> a[j] == []
      {
        a[i] := [];
      }
    }

    /**
     * `MyHashMap(initialSize, maxLoad)`: `initialSize` empty buckets, no
     * entries.
     */
    constructor (initialSize: int, maxLoadNum: int, maxLoadDen: int, hash: K -> int)
      requires initialSize > 0 && maxLoadNum > 0 && maxLoadDen > 0
      ensures Valid() && fresh(buckets)
      ensures Contents == map[] && capacity == initialSize
      ensures this.hash == hash && this.maxLoadNum == maxLoadNum && this.maxLoadDen == maxLoadDen
    {
      this.hash := hash;
      this.maxLoadNum := maxLoadNum;
      this.maxLoadDen := maxLoadDen;
      capacity := initialSize;
      actualSize := 0;
      Contents := map[];
      var table := EmptyTable(initialSize);
      HoldsEmpty(table[..], hash);
      buckets := table;
    }

    /** `MyHashMap()`: 16 buckets and a maximum load of 0.75. */
    constructor Default(hash: K -> int)
      ensures Valid() && fresh(buckets)
      ensures Contents == map[] && capacity == DefaultInitialSize
      ensures this.hash == hash && maxLoadNum == DefaultLoadNum && maxLoadDen == DefaultLoadDen
    {
      this.hash := hash;
      maxLoadNum := DefaultLoadNum;
      maxLoadDen := DefaultLoadDen;
      capacity := DefaultInitialSize;
      actualSize := 0;
      Contents := map[];
      var table := EmptyTable(DefaultInitialSize);
      HoldsEmpty(table[..], hash);
      buckets := table;
    }

    /** `MyHashMap(capacity)`: `initialSize` buckets and a maximum load of 0.75. */
    constructor WithCapacity(initialSize: int, hash: K -> int)
      requires initialSize > 0
      ensures Valid() && fresh(buckets)
      ensures Contents == map[] && capacity == initialSize
      ensures this.hash == hash && maxLoadNum == DefaultLoadNum && maxLoadDen == DefaultLoadDen
    {
      this.hash := hash;
      maxLoadNum := DefaultLoadNum;
      maxLoadDen := DefaultLoadDen;
      capacity := initialSize;
      actualSize := 0;
      Contents := map[];
      var table := EmptyTable(initialSize);
      HoldsEmpty(table[..], hash);
      buckets := table;
    }

    /**
     * `put`'s first half, the part `resize` repeats for each entry: drop any
     * entry with `key` from its bucket, count one more entry if there was
     * none, and add the new entry at the bucket's end.
     */
    method Place(key: K, value: V)
      requires Consistent()
      modifies this, buckets
      ensures Consistent()
      ensures Contents == old(Contents)[key := value]
      ensures actualSize == old(actualSize) + if key in old(Contents) then 0 else 1
      ensures buckets == old(buckets) && capacity == old(capacity)
    {
      var index := Slot(hash, key, capacity);
      var bucket := buckets[index];
      var kept := Without(bucket, key);
      HoldsAfterPlace(buckets[..], hash, Contents, key, value);
      if |kept| == |bucket| {
        actualSize := actualSize + 1;
      }
      buckets[index] := kept + [Entry(key, value)];
      Contents := Contents[key := value];
    }

    /**
     * `put(key, value)`: `key` maps to `value`, the other entries stay,
     * `actualSize` grows only for a new key, and the table is doubled until
     * the load is at most `maxLoad` again, and no further.
     */
    method Put(key: K, value: V)
      requires Valid()
      modifies this, buckets
      ensures Valid()
      ensures Contents == old(Contents)[key := value]
      ensures actualSize == old(actualSize) + if key in old(Contents) then 0 else 1
      ensures Doubled(old(capacity), capacity)
      ensures capacity != old(capacity) ==> Overloaded(actualSize, capacity / 2)
    {
      Place(key, value);
      if Overloaded(actualSize, capacity) {
        ghost var before := capacity;
        Resize();
        DoubledOnce(before);
        DoubledTrans(before, 2 * before, capacity);
      }
    }

    /**
     * `resize()`: twice the buckets, every entry put again into its new
     * bucket. Where a `put` during the re-insertion finds the load still
     * above `maxLoad` the Java code resizes again; here that is one more
     * doubling after the pass, which ends at the same capacity.
     */
    method Resize()
      requires Consistent() && maxLoadNum > 0 && maxLoadDen > 0
      requires Overloaded(actualSize, capacity)
      modifies this
      ensures Valid() && fresh(buckets)
      ensures Contents == old(Contents)
      ensures Doubled(2 * old(capacity), capacity)
      ensures Overloaded(actualSize, capacity / 2)
      decreases actualSize * maxLoadDen - maxLoadNum * capacity
    {
      var oldBuckets := buckets;
      ghost var all := Contents;
      capacity := capacity * 2;
      buckets := EmptyTable(capacity);
      actualSize := 0;
      Contents := map[];
      HoldsEmpty(buckets[..], hash);
      MoveAll(oldBuckets, all);
      assert Contents == all && actualSize == old(actualSize);
      assert capacity / 2 == old(capacity);
      if Overloaded(actualSize, capacity) {
        ghost var doubled := capacity;
        ExcessShrinks(actualSize, old(capacity), doubled, maxLoadNum, maxLoadDen);
        DoubledOnce(doubled);
        Resize();
        DoubledTrans(doubled, 2 * doubled, capacity);
      }
    }

    /**
     * The outer loop of `resize()`: `put` the entries of every old bucket
     * into the (empty) new ones, which then hold what the old ones held.
     */
    method MoveAll(from: array<seq<Entry<K, V>>>, ghost all: map<K, V>)
      requires Consistent() && Contents == map[]
      requires from != buckets && Holds(from[..], hash, all)
      modifies this, buckets
      ensures Consistent() && Contents == all
      ensures buckets == old(buckets) && capacity == old(capacity)
    {
      ghost var table := from[..];
      for i := 0 to from.Length
        invariant Consistent() && buckets == old(buckets) && capacity == old(capacity)
        invariant from[..] == table
        invariant Agrees(Contents, all)
        invariant forall k :: k in all && Slot(hash, k, |table|) < i ==> k in Contents
      {
        forall e: Entry<K, V> | e in table[i]
          ensures e.key in all && all[e.key] == e.value
        {
          InBucket(table, hash, all, i, e);
        }
        MoveBucket(from[i], all);
        forall k | k in all && Slot(hash, k, |table|) == i
          ensures k in Contents
        {
          assert Entry(k, all[k]) in table[i];
        }
      }
    }

    /**
     * The inner loop of `resize()`: `put` each entry of one old bucket. The
     * entries all come from `all`, which the map stays part of, and every
     * key already there or in the bucket is there afterwards.
     */
    method MoveBucket(bucket: seq<Entry<K, V>>, ghost all: map<K, V>)
      requires Consistent()
      requires forall e :: e in bucket ==> e.key in all && all[e.key] == e.value
      requires Agrees(Contents, all)
      modifies this, buckets
      ensures Consistent() && buckets == old(buckets) && capacity == old(capacity)
      ensures Agrees(Contents, all)
      ensures old(Contents).Keys <= Contents.Keys
      ensures forall e :: e in bucket ==> e.key in Contents
    {
      for j := 0 to |bucket|
        invariant Consistent() && buckets == old(buckets) && capacity == old(capacity)
        invariant Agrees(Contents, all)
        invariant old(Contents).Keys <= Contents.Keys
        invariant forall x :: 0 <= x < j ==> bucket[x].key in Contents
      {
        assert bucket[j] in bucket;
        ghost var before := Contents;
        Place(bucket[j].key, bucket[j].value);
        AgreesUpdate(before, all, bucket[j].key, bucket[j].value);
        forall x | 0 <= x < j + 1
          ensures bucket[x].key in Contents
        {
          if x < j {
            assert bucket[x].key in before;
          }
        }
      }
    }

    /** `getNode(key)`: walk the key's bucket to the first entry with that key, `null` if none. */
    method GetNode(key: K) returns (r: Option<Entry<K, V>>)
      requires Consistent()
      ensures key in Contents ==> r == Some(Entry(key, Contents[key]))
      ensures key !in Contents ==> r == None
    {
      var bucket := buckets[Slot(hash, key, capacity)];
      assert bucket == buckets[..][Slot(hash, key, capacity)];
      var j := 0;
      while j < |bucket|
        invariant 0 <= j <= |bucket|
        invariant forall x :: 0 <= x < j ==> bucket[x].key != key
      {
        if bucket[j].key == key {
          InBucket(buckets[..], hash, Contents, Slot(hash, key, capacity), bucket[j]);
          return Some(bucket[j]);
        }
        j := j + 1;
      }
      assert forall e :: e in bucket ==> e.key != key;
      return None;
    }

    /** `get(key)`: the value of the node `getNode` finds, `null` if none. */
    method Get(key: K) returns (r: Option<V>)
      requires Consistent()
      ensures r == Lookup(Contents, key)
    {
      var node := GetNode(key);
      return if node.Some? then Some(node.value.value) else None;
    }

    /** `size()`. */
    function Size(): (n: int)
      requires Consistent()
      reads this, buckets
      ensures n == |Contents|
    {
      actualSize
    }

    /** `containsKey(key)`: whether `get` finds a value. */
    method ContainsKey(key: K) returns (b: bool)
      requires Consistent()
      ensures b <==> key in Contents
    {
      var v := Get(key);
      return v != None;
    }

    /** `keySet()`: the keys of every entry of every bucket, which are the map's keys. */
    method KeySet() returns (keys: set<K>)
      requires Consistent()
      ensures keys == Contents.Keys
    {
      keys := {};
      for i := 0 to buckets.Length
        invariant forall k :: k in keys ==> k in Contents
        invariant forall k :: k in Contents && Slot(hash, k, capacity) < i ==> k in keys
      {
        var bucket := buckets[i];
        assert bucket == buckets[..][i];
        for j := 0 to |bucket|
          invariant forall k :: k in keys ==> k in Contents
          invariant forall k :: k in Contents && Slot(hash, k, capacity) < i ==> k in keys
          invariant forall x :: 0 <= x < j ==> bucket[x].key in keys
        {
          InBucket(buckets[..], hash, Contents, i, bucket[j]);
          keys := keys + {bucket[j].key};
        }
        forall k | k in Contents && Slot(hash, k, capacity) == i
          ensures k in keys
        {
          assert Entry(k, Contents[k]) in bucket;
        }
      }
    }

    /** `clear()`: a fresh empty bucket in every slot and `actualSize` 0; the capacity stays. */
    method Clear()
      requires Valid()
      modifies this, buckets
      ensures Valid() && Contents == map[]
      ensures buckets == old(buckets) && capacity == old(capacity)
    {
      for i := 0 to capacity
        modifies buckets
        invariant forall j :: 0 <= j < i ==> buckets[j] == []
      {
        buckets[i] := [];
      }
      actualSize := 0;
      Contents := map[];
      HoldsEmpty(buckets[..], hash);
    }

    /**
     * `remove(key, value)`: `null` when `getNode` finds no entry for `key`;
     * otherwise that entry leaves its bucket, `actualSize` drops by one and
     * its value is returned. `value` plays no part.
     */
    method RemoveWithValue(key: K, value: V) returns (r: Option<V>)
      requires Valid()
      modifies this, buckets
      ensures Valid()
      ensures buckets == old(buckets) && capacity == old(capacity)
      ensures r == Lookup(old(Contents), key)
      ensures Contents == old(Contents) - {key}
      ensures actualSize == old(actualSize) - if key in old(Contents) then 1 else 0
    {
      var index := Slot(hash, key, capacity);
      var bucket := buckets[index];
      var node := GetNode(key);
      if node.None? {
        assert Contents == Contents - {key};
        return None;
      }
      ghost var table := buckets[..][index := DropFirstKey(bucket, key)];
      HoldsAfterDrop(buckets[..], hash, Contents, key);
      SizeAfterDrop(Contents, key);
      FewerEntries(actualSize, actualSize - 1, capacity, maxLoadNum, maxLoadDen);
      buckets[index] := DropFirstKey(bucket, key);
      assert buckets[..] == table;
      actualSize := actualSize - 1;
      Contents := Contents - {key};
      return Some(node.value.value);
    }

    /** `remove(key)`: `null` when `getNode` finds nothing, otherwise `remove(key, value)` with the value found. */
    method Remove(key: K) returns (r: Option<V>)
      requires Valid()
      modifies this, buckets
      ensures Valid()
      ensures buckets == old(buckets) && capacity == old(capacity)
      ensures r == Lookup(old(Contents), key)
      ensures Contents == old(Contents) - {key}
      ensures actualSize == old(actualSize) - if key in old(Contents) then 1 else 0
    {
      var node := GetNode(key);
      if node.None? {
        assert Contents == Contents - {key};
        return None;
      }
      r := RemoveWithValue(key, node.value.value);
    }
  }
}
