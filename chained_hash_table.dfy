/**
 * The separate-chaining hash table `HashTable<KeyType, ValueType>`: a vector
 * of buckets, each a list of (key, value) pairs, with the element count `size`
 * and the bucket count `capacity`.
 *
 * `std::hash<KeyType>` is the constant `hash`, chosen when the table is built.
 * The `float` load-factor threshold is the exact fraction `loadNum / loadDen`,
 * so the test `size / capacity > loadFactor` becomes
 * `size * loadDen > loadNum * capacity`. Each bucket is a `seq` that the
 * methods reassign. The dictionary the table stands for is `Get(k)`: what the
 * scan of `k`'s bucket finds.
 */
module ChainedHashing {
  import opened Common

  // ---------------------------------------------------------------------------
  // Buckets
  // ---------------------------------------------------------------------------

  /** The value of the first pair of `bucket` holding `k`, or none. */
  function Lookup<K(==), V>(bucket: seq<(K, V)>, k: K): (r: Option<V>)
    ensures r.Some? ==> (k, r.value) in bucket
  {
    if bucket == [] then None
    else if bucket[0].0 == k then Some(bucket[0].1)
    else Lookup(bucket[1..], k)
  }

  /** No two pairs of the bucket hold the same key. */
  ghost predicate UniqueKeys<K, V>(bucket: seq<(K, V)>)
  {
    forall e1, e2 :: 0 <= e1 < e2 < |bucket| ==> bucket[e1].0 != bucket[e2].0
  }

  /** `Lookup` finds nothing exactly when no pair of the bucket holds the key. */
  lemma {:induction false} LookupNoneIff<K, V>(bucket: seq<(K, V)>, k: K)
    ensures Lookup(bucket, k) == None <==> forall e :: 0 <= e < |bucket| ==> bucket[e].0 != k
  {
    if bucket != [] {
      LookupNoneIff(bucket[1..], k);
      assert forall e :: 0 < e < |bucket| ==> bucket[e] == bucket[1..][e - 1];
    }
  }

  /** Among distinct keys, the pair at `i` is the one `Lookup` finds for its key. */
  lemma {:induction false} LookupAt<K, V>(bucket: seq<(K, V)>, i: nat)
    requires UniqueKeys(bucket) && i < |bucket|
    ensures Lookup(bucket, bucket[i].0) == Some(bucket[i].1)
  {
    if i > 0 {
      assert bucket[0].0 != bucket[i].0;
      assert bucket[1..][i - 1] == bucket[i];
      LookupAt(bucket[1..], i - 1);
    }
  }

  /** A pair appended at the end is found only when no earlier pair holds its key. */
  lemma {:induction false} LookupAppend<K, V>(bucket: seq<(K, V)>, p: (K, V), k: K)
    ensures Lookup(bucket + [p], k) ==
              if Lookup(bucket, k) != None then Lookup(bucket, k)
              else if p.0 == k then Some(p.1)
              else None
  {
    if bucket == [] {
      assert [p][1..] == [];
    } else {
      assert (bucket + [p])[1..] == bucket[1..] + [p];
      LookupAppend(bucket[1..], p, k);
    }
  }

  /** Overwriting the value at `i`, among distinct keys, changes only what its key finds. */
  lemma {:induction false} LookupReplace<K, V>(bucket: seq<(K, V)>, i: nat, v: V, k: K)
    requires UniqueKeys(bucket) && i < |bucket|
    ensures Lookup(bucket[i := (bucket[i].0, v)], k) ==
              if k == bucket[i].0 then Some(v) else Lookup(bucket, k)
  {
    var u: seq<(K, V)> := bucket[i := (bucket[i].0, v)];
    if i == 0 {
      assert u[1..] == bucket[1..];
    } else {
      assert bucket[0].0 != bucket[i].0;
      assert u[1..] == bucket[1..][i - 1 := (bucket[i].0, v)];
      LookupReplace(bucket[1..], i - 1, v, k);
    }
  }

  /** Erasing the pair at `i`, among distinct keys, makes its key find nothing. */
  lemma {:induction false} LookupErase<K, V>(bucket: seq<(K, V)>, i: nat, k: K)
    requires UniqueKeys(bucket) && i < |bucket|
    ensures Lookup(bucket[..i] + bucket[i + 1..], k) ==
              if k == bucket[i].0 then None else Lookup(bucket, k)
  {
    var u: seq<(K, V)> := bucket[..i] + bucket[i + 1..];
    if i == 0 {
      assert u == bucket[1..];
      if k == bucket[0].0 {
        LookupNoneIff(bucket[1..], k);
      }
    } else {
      assert bucket[0].0 != bucket[i].0;
      assert u[0] == bucket[0];
      assert u[1..] == bucket[1..][..i - 1] + bucket[1..][i..];
      LookupErase(bucket[1..], i - 1, k);
    }
  }

  /**
   * The scan of a bucket that `insert`, `retrieve` and `remove` each run: the
   * position of the first pair holding `key`, or `|bucket|` when there is none.
   */
  method FindKey<K(==), V>(bucket: seq<(K, V)>, key: K) returns (i: nat)
    ensures i <= |bucket|
    ensures forall e :: 0 <= e < i ==> bucket[e].0 != key
    ensures i < |bucket| ==> bucket[i].0 == key && Lookup(bucket, key) == Some(bucket[i].1)
    ensures i == |bucket| <==> Lookup(bucket, key) == None
  {
    i := 0;
    while i < |bucket|
      invariant 0 <= i <= |bucket|
      invariant forall e :: 0 <= e < i ==> bucket[e].0 != key
      invariant Lookup(bucket[i..], key) == Lookup(bucket, key)
    {
      assert bucket[i..][1..] == bucket[i + 1..];
      if bucket[i].0 == key {
        return;
      }
      i := i + 1;
    }
  }

  // ---------------------------------------------------------------------------
  // The vector of buckets
  // ---------------------------------------------------------------------------

  /** Total number of pairs in the buckets. */
  function PairCount<K, V>(t: seq<seq<(K, V)>>): nat
  {
    if t == [] then 0 else PairCount(t[..|t| - 1]) + |t[|t| - 1]|
  }

  /** Replacing one bucket changes the pair count by the difference of the bucket lengths. */
  lemma {:induction false} PairCountUpdate<K, V>(t: seq<seq<(K, V)>>, b: nat, bucket: seq<(K, V)>)
    requires b < |t|
    ensures PairCount(t[b := bucket]) == PairCount(t) - |t[b]| + |bucket|
    decreases |t|
  {
    var u: seq<seq<(K, V)>> := t[b := bucket];
    if b < |t| - 1 {
      assert u[..|u| - 1] == t[..|t| - 1][b := bucket];
      PairCountUpdate(t[..|t| - 1], b, bucket);
    } else {
      assert u[..|u| - 1] == t[..|t| - 1];
    }
  }

  /** The pair count of a longer prefix adds the length of the next bucket. */
  lemma PairCountPrefix<K, V>(t: seq<seq<(K, V)>>, b: nat)
    requires b < |t|
    ensures PairCount(t[..b + 1]) == PairCount(t[..b]) + |t[b]|
  {
    assert t[..b + 1][..b] == t[..b];
  }

  /** `cap` empty buckets hold no pairs. */
  lemma {:induction false} PairCountEmpty<K, V>(cap: nat)
    ensures PairCount(seq<seq<(K, V)>>(cap, _ => [])) == 0
  {
    if cap > 0 {
      var t := seq<seq<(K, V)>>(cap, _ => []);
      assert t[..cap - 1] == seq<seq<(K, V)>>(cap - 1, _ => []);
      PairCountEmpty<K, V>(cap - 1);
    }
  }

  /**
   * The shape invariant: `cap > 0` buckets, every pair in bucket
   * `hash(key) % cap`, and no key twice in a bucket (so nowhere twice).
   */
  ghost predicate WellPlaced<K, V>(hash: K -> nat, t: seq<seq<(K, V)>>, cap: nat)
  {
    && cap > 0 && |t| == cap
    && (forall b, e :: 0 <= b < |t| && 0 <= e < |t[b]| ==> hash(t[b][e].0) % cap == b)
    && (forall b :: 0 <= b < |t| ==> UniqueKeys(t[b]))
  }

  /** The value the buckets hold for `k`: what the scan of `k`'s bucket finds. */
  function Find<K(==), V>(hash: K -> nat, t: seq<seq<(K, V)>>, cap: nat, k: K): (r: Option<V>)
    requires cap > 0 && |t| == cap
    ensures r.Some? ==> (k, r.value) in t[hash(k) % cap]
  {
    Lookup(t[hash(k) % cap], k)
  }

  /** Overwriting the value of a stored pair keeps the shape and changes only its key. */
  lemma FindReplace<K, V>(hash: K -> nat, t: seq<seq<(K, V)>>, cap: nat, b: nat, i: nat, v: V)
    requires WellPlaced(hash, t, cap) && b < |t| && i < |t[b]|
    ensures WellPlaced(hash, t[b := t[b][i := (t[b][i].0, v)]], cap)
    ensures Find(hash, t[b := t[b][i := (t[b][i].0, v)]], cap, t[b][i].0) == Some(v)
    ensures forall k :: k != t[b][i].0 ==> Find(hash, t[b := t[b][i := (t[b][i].0, v)]], cap, k) == Find(hash, t, cap, k)
  {
    var u: seq<seq<(K, V)>> := t[b := t[b][i := (t[b][i].0, v)]];
    assert forall e :: 0 <= e < |u[b]| ==> u[b][e].0 == t[b][e].0;
    forall k ensures Find(hash, u, cap, k) == if k == t[b][i].0 then Some(v) else Find(hash, t, cap, k) {
      if hash(k) % cap == b {
        LookupReplace(t[b], i, v, k);
      }
    }
  }

  /** The buckets with `p` appended to the bucket of its key. */
  function AddPair<K, V>(hash: K -> nat, t: seq<seq<(K, V)>>, cap: nat, p: (K, V)): (u: seq<seq<(K, V)>>)
    requires cap > 0 && |t| == cap
    ensures |u| == cap && p in u[hash(p.0) % cap]
    ensures forall b :: 0 <= b < cap && b != hash(p.0) % cap ==> u[b] == t[b]
    ensures PairCount(u) == PairCount(t) + 1
  {
    var b := hash(p.0) % cap;
    PairCountUpdate(t, b, t[b] + [p]);
    t[b := t[b] + [p]]
  }

  /** Appending a pair whose key finds nothing keeps the shape and adds that key. */
  lemma FindAppend<K, V>(hash: K -> nat, t: seq<seq<(K, V)>>, cap: nat, k0: K, v: V)
    requires WellPlaced(hash, t, cap) && Find(hash, t, cap, k0) == None
    ensures WellPlaced(hash, AddPair(hash, t, cap, (k0, v)), cap)
    ensures Find(hash, AddPair(hash, t, cap, (k0, v)), cap, k0) == Some(v)
    ensures forall k :: k != k0 ==> Find(hash, AddPair(hash, t, cap, (k0, v)), cap, k) == Find(hash, t, cap, k)
  {
    var b := hash(k0) % cap;
    var u: seq<seq<(K, V)>> := t[b := t[b] + [(k0, v)]];
    LookupNoneIff(t[b], k0);
    assert forall e :: 0 <= e < |t[b]| ==> u[b][e] == t[b][e];
    assert UniqueKeys(u[b]);
    forall k ensures Find(hash, u, cap, k) == if k == k0 then Some(v) else Find(hash, t, cap, k) {
      if hash(k) % cap == b {
        LookupAppend(t[b], (k0, v), k);
      }
    }
  }

  /** Erasing a stored pair keeps the shape and makes its key find nothing. */
  lemma FindErase<K, V>(hash: K -> nat, t: seq<seq<(K, V)>>, cap: nat, b: nat, i: nat)
    requires WellPlaced(hash, t, cap) && b < |t| && i < |t[b]|
    ensures WellPlaced(hash, t[b := t[b][..i] + t[b][i + 1..]], cap)
    ensures Find(hash, t[b := t[b][..i] + t[b][i + 1..]], cap, t[b][i].0) == None
    ensures forall k :: k != t[b][i].0 ==> Find(hash, t[b := t[b][..i] + t[b][i + 1..]], cap, k) == Find(hash, t, cap, k)
  {
    var u: seq<seq<(K, V)>> := t[b := t[b][..i] + t[b][i + 1..]];
    assert forall e :: 0 <= e < |u[b]| ==> u[b][e] == t[b][if e < i then e else e + 1];
    assert UniqueKeys(u[b]) by {
      forall e1, e2 | 0 <= e1 < e2 < |u[b]| ensures u[b][e1].0 != u[b][e2].0 {
        assert u[b][e1] == t[b][if e1 < i then e1 else e1 + 1];
        assert u[b][e2] == t[b][if e2 < i then e2 else e2 + 1];
      }
    }
    forall k ensures Find(hash, u, cap, k) == if k == t[b][i].0 then None else Find(hash, t, cap, k) {
      if hash(k) % cap == b {
        LookupErase(t[b], i, k);
      }
    }
  }

  /**
   * What a table being rehashed from `t` holds for `k` once every bucket before
   * `b` and the first `e` pairs of bucket `b` have been moved.
   */
  ghost function Moved<K, V>(hash: K -> nat, t: seq<seq<(K, V)>>, cap: nat, b: nat, e: nat, k: K): Option<V>
    requires cap > 0 && |t| == cap && b <= |t| && e <= (if b < |t| then |t[b]| else 0)
  {
    if hash(k) % cap < b then Find(hash, t, cap, k)
    else if hash(k) % cap == b then Lookup(t[b][..e], k)
    else None
  }

  /** Having moved all of bucket `b` is having moved the buckets before `b + 1`; all of them, the whole table. */
  lemma MovedBucket<K, V>(hash: K -> nat, t: seq<seq<(K, V)>>, cap: nat, b: nat)
    requires cap > 0 && |t| == cap && b < |t|
    ensures forall k :: Moved(hash, t, cap, b, |t[b]|, k) == Moved(hash, t, cap, b + 1, 0, k)
    ensures forall k :: Moved(hash, t, cap, |t|, 0, k) == Find(hash, t, cap, k)
  {
    assert t[b][..|t[b]|] == t[b];
  }

  /** Moving the next pair of bucket `b` to the end of its new bucket. */
  lemma RehashStep<K, V>(hash: K -> nat, t: seq<seq<(K, V)>>, cap: nat, b: nat, e: nat,
                         next: seq<seq<(K, V)>>, newCap: nat)
    requires WellPlaced(hash, t, cap) && b < |t| && e < |t[b]|
    requires WellPlaced(hash, next, newCap)
    requires forall k :: Find(hash, next, newCap, k) == Moved(hash, t, cap, b, e, k)
    ensures WellPlaced(hash, AddPair(hash, next, newCap, t[b][e]), newCap)
    ensures forall k :: Find(hash, AddPair(hash, next, newCap, t[b][e]), newCap, k) == Moved(hash, t, cap, b, e + 1, k)
  {
    var p := t[b][e];
    assert t[b][..e + 1] == t[b][..e] + [p];
    assert Find(hash, next, newCap, p.0) == None by {
      assert Find(hash, next, newCap, p.0) == Moved(hash, t, cap, b, e, p.0);
      LookupNoneIff(t[b][..e], p.0);
    }
    FindAppend(hash, next, newCap, p.0, p.1);
    forall k ensures Find(hash, AddPair(hash, next, newCap, p), newCap, k) == Moved(hash, t, cap, b, e + 1, k) {
      assert Find(hash, next, newCap, k) == Moved(hash, t, cap, b, e, k);
      if hash(k) % cap == b {
        LookupAppend(t[b][..e], p, k);
      }
    }
  }

  // ---------------------------------------------------------------------------
  // The table
  // ---------------------------------------------------------------------------

  class HashTable<K(==, !new), V> {
    const hash: K -> nat
    const loadNum: nat
    const loadDen: nat

    var table: seq<seq<(K, V)>>
    var capacity: nat
    var size: nat

    ghost predicate Valid()
      reads this
    {
      && loadDen > 0
      && capacity == |table|
      && WellPlaced(hash, table, capacity)
      && size == PairCount(table)
    }

    /** The value stored under `k`, if any: the dictionary the table stands for. */
    ghost function Get(k: K): Option<V>
      requires Valid()
      reads this
    {
      Find(hash, table, capacity, k)
    }

    /** The resize test after an insertion: `size / capacity > loadFactor`. */
    predicate OverLoaded(n: nat, cap: nat)
    {
      n * loadDen > loadNum * cap
    }

    /**
     * The constructor: `initialCapacity` empty buckets and the threshold
     * `loadNum / loadDen`. A zero capacity would make every `hash` a division by
     * zero, so it is excluded.
     */
    constructor (hashFn: K -> nat, initialCapacity: nat, loadNum: nat, loadDen: nat)
      requires initialCapacity > 0 && loadDen > 0
      ensures Valid()
      ensures capacity == initialCapacity && size == 0
      ensures forall k :: Get(k) == None
      ensures hash == hashFn && this.loadNum == loadNum && this.loadDen == loadDen
    {
      hash := hashFn;
      this.loadNum := loadNum;
      this.loadDen := loadDen;
      table := seq<seq<(K, V)>>(initialCapacity, _ => []);
      capacity := initialCapacity;
      size := 0;
      new;
      PairCountEmpty<K, V>(initialCapacity);
    }

    /**
     * `insert(key, value)`: afterwards `key` holds `value` and every other key
     * holds what it held. A present key is overwritten in place, with `size`,
     * `capacity` and the other buckets unchanged; a new key is appended to its
     * bucket, `size` grows by one, and the table doubles if that takes it over
     * the load factor.
     */
    method Insert(key: K, value: V)
      requires Valid()
      modifies this
      ensures Valid()
      ensures Get(key) == Some(value)
      ensures forall k :: k != key ==> Get(k) == old(Get(k))
      ensures old(Get(key)) != None ==>
                && size == old(size) && capacity == old(capacity)
                && (forall b :: 0 <= b < |table| && b != hash(key) % capacity ==> table[b] == old(table[b]))
      ensures old(Get(key)) == None ==> size == old(size) + 1
      ensures old(Get(key)) == None && !OverLoaded(old(size) + 1, old(capacity)) ==>
                && capacity == old(capacity)
                && table == old(table)[hash(key) % capacity := old(table[hash(key) % capacity]) + [(key, value)]]
      ensures old(Get(key)) == None && OverLoaded(old(size) + 1, old(capacity)) ==>
                capacity == 2 * old(capacity)
    {
      var index := hash(key) % capacity;
      var i := FindKey(table[index], key);
      if i < |table[index]| {
        ReplaceValue(index, i, value);
        return;
      }
      AppendPair(key, value);
      if size * loadDen > loadNum * capacity {
        Resize();
      }
    }

    /** The overwrite branch of `insert`: the pair at position `i` of bucket `index` gets `value`. */
    method ReplaceValue(index: nat, i: nat, value: V)
      requires Valid() && index < |table| && i < |table[index]|
      modifies this
      ensures Valid()
      ensures size == old(size) && capacity == old(capacity)
      ensures table == old(table)[index := old(table[index])[i := (old(table[index][i].0), value)]]
      ensures Get(old(table[index][i].0)) == Some(value)
      ensures forall k :: k != old(table[index][i].0) ==> Get(k) == old(Get(k))
    {
      var bucket := table[index];
      FindReplace(hash, table, capacity, index, i, value);
      PairCountUpdate(table, index, bucket[i := (bucket[i].0, value)]);
      table := table[index := bucket[i := (bucket[i].0, value)]];
    }

    /** The append branch of `insert`, before the load test: a new key joins the end of its bucket. */
    method AppendPair(key: K, value: V)
      requires Valid() && Get(key) == None
      modifies this
      ensures Valid()
      ensures size == old(size) + 1 && capacity == old(capacity)
      ensures table == old(table)[hash(key) % capacity := old(table[hash(key) % capacity]) + [(key, value)]]
      ensures Get(key) == Some(value)
      ensures forall k :: k != key ==> Get(k) == old(Get(k))
    {
      var index := hash(key) % capacity;
      FindAppend(hash, table, capacity, key, value);
      PairCountUpdate(table, index, table[index] + [(key, value)]);
      table := AddPair(hash, table, capacity, (key, value));
      size := size + 1;
    }

    /**
     * The inner loop of `resize` for bucket `b`: its pairs, in order, go to the
     * end of bucket `hash(key) % newCap` of `newTable`, which holds every key of
     * the buckets before `b`.
     */
    method RehashBucket(b: nat, newTable: seq<seq<(K, V)>>, newCap: nat) returns (next: seq<seq<(K, V)>>)
      requires Valid() && b < |table|
      requires WellPlaced(hash, newTable, newCap)
      requires forall k :: Find(hash, newTable, newCap, k) == Moved(hash, table, capacity, b, 0, k)
      ensures WellPlaced(hash, next, newCap)
      ensures forall k :: Find(hash, next, newCap, k) == Moved(hash, table, capacity, b, |table[b]|, k)
      ensures PairCount(next) == PairCount(newTable) + |table[b]|
    {
      next := newTable;
      var e := 0;
      while e < |table[b]|
        invariant 0 <= e <= |table[b]|
        invariant WellPlaced(hash, next, newCap)
        invariant forall k :: Find(hash, next, newCap, k) == Moved(hash, table, capacity, b, e, k)
        invariant PairCount(next) == PairCount(newTable) + e
      {
        var pair := table[b][e];
        var newIndex := hash(pair.0) % newCap;
        RehashStep(hash, table, capacity, b, e, next, newCap);
        PairCountUpdate(next, newIndex, next[newIndex] + [pair]);
        next := AddPair(hash, next, newCap, pair);
        e := e + 1;
      }
    }

    /**
     * The loops of `resize()`: every pair, bucket by bucket and in order, goes
     * to the end of bucket `hash(key) % (2 * capacity)` of a fresh bucket
     * vector, which then holds every key with its value and the same number of
     * pairs.
     */
    method Rehash() returns (newTable: seq<seq<(K, V)>>)
      requires Valid()
      ensures WellPlaced(hash, newTable, 2 * capacity)
      ensures forall k :: Find(hash, newTable, 2 * capacity, k) == Get(k)
      ensures PairCount(newTable) == size
    {
      var newCapacity := capacity * 2;
      newTable := seq<seq<(K, V)>>(newCapacity, _ => []);
      PairCountEmpty<K, V>(newCapacity);
      var b := 0;
      while b < |table|
        invariant 0 <= b <= |table|
        invariant WellPlaced(hash, newTable, newCapacity)
        invariant forall k :: Find(hash, newTable, newCapacity, k) == Moved(hash, table, capacity, b, 0, k)
        invariant PairCount(newTable) == PairCount(table[..b])
      {
        newTable := RehashBucket(b, newTable, newCapacity);
        MovedBucket(hash, table, capacity, b);
        PairCountPrefix(table, b);
        b := b + 1;
      }
      assert table[..b] == table;
      MovedBucket(hash, table, capacity, 0);
    }

    /**
     * `resize()`: twice as many buckets, every pair rehashed to bucket
     * `hash(key) % newCapacity`. Every key keeps its value and `size` does
     * not change.
     */
    method Resize()
      requires Valid()
      modifies this
      ensures Valid()
      ensures size == old(size) && capacity == 2 * old(capacity)
      ensures forall k :: Get(k) == old(Get(k))
    {
      var newTable := Rehash();
      table := newTable;
      capacity := capacity * 2;
    }

    /** `retrieve(key)`: the value stored under `key`, or none; nothing changes. */
    method Retrieve(key: K) returns (r: Option<V>)
      requires Valid()
      ensures r == Get(key)
    {
      var index := hash(key) % capacity;
      var i := FindKey(table[index], key);
      if i < |table[index]| {
        return Some(table[index][i].1);
      }
      return None;
    }

    /**
     * `remove(key)`: erases the pair of `key` from its bucket and reports
     * whether there was one; every other key keeps its value. The bucket
     * index is always below the bucket count, so the out_of_range guard of
     * the source never throws.
     */
    method Remove(key: K) returns (removed: bool)
      requires Valid()
      modifies this
      ensures Valid()
      ensures removed == (old(Get(key)) != None)
      ensures Get(key) == None
      ensures forall k :: k != key ==> Get(k) == old(Get(k))
      ensures capacity == old(capacity)
      ensures removed ==> size == old(size) - 1
      ensures !removed ==> table == old(table) && size == old(size)
    {
      var index := hash(key) % capacity;
      assert index < |table|;
      var i := FindKey(table[index], key);
      if i < |table[index]| {
        EraseAt(index, i);
        return true;
      }
      return false;
    }

    /** The erase branch of `remove`: the pair at position `i` of bucket `index` leaves it. */
    method EraseAt(index: nat, i: nat)
      requires Valid() && index < |table| && i < |table[index]|
      modifies this
      ensures Valid()
      ensures size == old(size) - 1 && capacity == old(capacity)
      ensures table == old(table)[index := old(table[index][..i] + table[index][i + 1..])]
      ensures Get(old(table[index][i].0)) == None
      ensures forall k :: k != old(table[index][i].0) ==> Get(k) == old(Get(k))
    {
      var bucket := table[index];
      FindErase(hash, table, capacity, index, i);
      PairCountUpdate(table, index, bucket[..i] + bucket[i + 1..]);
      table := table[index := bucket[..i] + bucket[i + 1..]];
      size := size - 1;
    }

    /** `getSize()`: the number of stored pairs. */
    function GetSize(): (n: nat)
      requires Valid()
      reads this
      ensures n == PairCount(table)
    {
      size
    }

    /** `getCapacity()`: the number of buckets, never zero. */
    function GetCapacity(): (c: nat)
      requires Valid()
      reads this
      ensures c == |table| && c > 0
    {
      capacity
    }
  }

  /**
   * The behaviour the table's users rely on, on a table of 2 buckets, threshold
   * 3/4 and the absolute value as hash: an overwrite keeps the size, the
   * second new key doubles the table, and a removed key is gone.
   */
  method HashTableScenario() returns (first: Option<int>, capAfter: nat, removed: bool, gone: Option<int>, removedTwice: bool)
    ensures first == Some(11)
    ensures capAfter == 4
    ensures removed && gone == None && !removedTwice
  {
    var t := new HashTable<int, int>(x => if x < 0 then -x else x, 2, 3, 4);
    t.Insert(1, 10);
    t.Insert(1, 11);
    first := t.Retrieve(1);
    t.Insert(2, 20);
    capAfter := t.GetCapacity();
    removed := t.Remove(2);
    gone := t.Retrieve(2);
    removedTwice := t.Remove(2);
  }
}
