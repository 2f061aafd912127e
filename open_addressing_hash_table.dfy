/**
 * The open-addressing hash table `OpenAddressingHashTable<KeyType, ValueType>`:
 * a vector of slots probed linearly, attempt `a` of key `k` landing on slot
 * `(hash(k) + a) % capacity`.
 *
 * A slot of the C++ vector is `std::optional<Entry>` with two flags; the
 * states the code produces are the three constructors of `Slot`: `nullopt` is
 * `Empty`, `{key, value, true, false}` is `Occupied`, and `{.., false, true}`
 * (what `remove` leaves behind) is `Deleted`. No code reads the key or value
 * of a deleted entry, so `Deleted` carries none.
 *
 * `std::hash<KeyType>` is the constant `hash`; the `float` threshold is the
 * fraction `loadNum / loadDen`, so `size / capacity > loadFactor` becomes
 * `size * loadDen > loadNum * capacity` (with `capacity == 0` both sides are
 * zero, as the C++ NaN comparison is false).
 */
module OpenAddressing {
  import opened Common

  datatype Slot<K, V> = Empty | Occupied(key: K, value: V) | Deleted

  // ---------------------------------------------------------------------------
  // Proof helpers: general facts about remainders and sequences
  // ---------------------------------------------------------------------------

  /** `cap * q + j` leaves the remainder `j`. */
  lemma ModOfMultiple(q: nat, j: nat, cap: nat)
    requires j < cap
    ensures (cap * q + j) % cap == j
  {
    var x := cap * q + j;
    var d := q - x / cap;
    assert x == cap * (x / cap) + x % cap;
    assert cap * d == x % cap - j;
  }

  /** Concatenation regrouped, for splitting `Live` around a slot. */
  lemma ConcatRegroup<T>(a: seq<T>, b: seq<T>, c: seq<T>, d: seq<T>)
    ensures a + (b + c + d) == (a + b) + c + d
  {
  }

  /** Sequences with the same multiset have the same members. */
  lemma SameMembers<T>(x: seq<T>, y: seq<T>)
    requires multiset(x) == multiset(y)
    ensures forall p :: p in x <==> p in y
  {
    forall p
      ensures p in x <==> p in y
    {
      assert p in x <==> p in multiset(x);
      assert p in y <==> p in multiset(y);
    }
  }

  // ---------------------------------------------------------------------------
  // Probing
  // ---------------------------------------------------------------------------

  /** `hash(key, attempt)` for a non-zero capacity: the slot probed by an attempt. */
  function Probe(hk: nat, attempt: nat, cap: nat): (i: nat)
    requires cap > 0
    ensures i < cap
  {
    (hk + attempt) % cap
  }

  /** Two different attempts below the capacity probe two different slots. */
  lemma ProbeDistinct(hk: nat, a: nat, b: nat, cap: nat)
    requires a < b < cap
    ensures Probe(hk, a, cap) != Probe(hk, b, cap)
  {
    var x, y := hk + a, hk + b;
    var d := y / cap - x / cap;
    assert x == cap * (x / cap) + x % cap;
    assert y == cap * (y / cap) + y % cap;
    assert y - x == cap * d + (y % cap - x % cap);
    if d <= 0 {
      assert cap * d <= 0;
    } else {
      assert cap * d >= cap;
    }
  }

  /** The attempt at which the probe sequence from `hk` reaches slot `j`: every slot is reached. */
  function AttemptTo(hk: nat, j: nat, cap: nat): (a: nat)
    requires j < cap
    ensures a < cap && Probe(hk, a, cap) == j
  {
    var q := hk / cap;
    var r := hk % cap;
    assert hk == cap * q + r;
    if j >= r then
      ModOfMultiple(q, j, cap);
      j - r
    else
      assert hk + (j + cap - r) == cap * (q + 1) + j;
      ModOfMultiple(q + 1, j, cap);
      j + cap - r
  }

  // ---------------------------------------------------------------------------
  // Slot vectors
  // ---------------------------------------------------------------------------

  /** The pair an occupied slot holds, if any. */
  function SlotEntries<K, V>(x: Slot<K, V>): seq<(K, V)>
  {
    if x.Occupied? then [(x.key, x.value)] else []
  }

  /** The live pairs of a slot vector, in slot order: what `size` counts. */
  function Live<K, V>(s: seq<Slot<K, V>>): (r: seq<(K, V)>)
    ensures |r| <= |s|
  {
    if s == [] then [] else SlotEntries(s[0]) + Live(s[1..])
  }

  /** The live pairs around slot `p`: those before it, its own, those after it. */
  lemma {:induction false} LiveSplit<K, V>(s: seq<Slot<K, V>>, p: nat)
    requires p < |s|
    ensures Live(s) == Live(s[..p]) + SlotEntries(s[p]) + Live(s[p + 1..])
  {
    if p == 0 {
      assert s[..0] == [] && s[1..] == s[p + 1..];
    } else {
      var rest := s[1..];
      LiveSplit(rest, p - 1);
      assert rest[p - 1] == s[p];
      assert rest[p..] == s[p + 1..];
      assert Live(s[..p]) == SlotEntries(s[0]) + Live(rest[..p - 1]) by {
        assert s[..p][1..] == rest[..p - 1];
      }
      ConcatRegroup(SlotEntries(s[0]), Live(rest[..p - 1]), SlotEntries(s[p]), Live(s[p + 1..]));
    }
  }

  /** Replacing one slot trades its pair, if any, for the pair of the new content. */
  lemma LiveUpdate<K, V>(s: seq<Slot<K, V>>, p: nat, x: Slot<K, V>)
    requires p < |s|
    ensures multiset(Live(s[p := x])) + multiset(SlotEntries(s[p])) == multiset(Live(s)) + multiset(SlotEntries(x))
    ensures |Live(s[p := x])| + |SlotEntries(s[p])| == |Live(s)| + |SlotEntries(x)|
  {
    var t := s[p := x];
    LiveSplit(s, p);
    LiveSplit(t, p);
    assert t[..p] == s[..p] && t[p + 1..] == s[p + 1..];
  }

  /** Every slot is occupied exactly when there are as many live pairs as slots. */
  lemma {:induction false} LiveFull<K, V>(s: seq<Slot<K, V>>)
    ensures |Live(s)| == |s| <==> forall j :: 0 <= j < |s| ==> s[j].Occupied?
  {
    if s != [] {
      LiveFull(s[1..]);
      assert forall j :: 0 < j < |s| ==> s[j] == s[1..][j - 1];
    }
  }

  /** Without an occupied slot there is no live pair. */
  lemma {:induction false} LiveNone<K, V>(s: seq<Slot<K, V>>)
    requires forall j :: 0 <= j < |s| ==> !s[j].Occupied?
    ensures Live(s) == []
  {
    if s != [] {
      assert forall j :: 0 <= j < |s| - 1 ==> s[1..][j] == s[j + 1];
      LiveNone(s[1..]);
    }
  }

  /** A vector of `n` empty slots, as `std::vector<std::optional<Entry>>(n)` builds. */
  function EmptySlots<K, V>(n: nat): (s: seq<Slot<K, V>>)
    ensures |s| == n && Live(s) == []
  {
    var s := seq<Slot<K, V>>(n, _ => Empty);
    LiveNone(s);
    s
  }

  /** No slot is a tombstone: what `resize` builds. */
  ghost predicate NoDeleted<K, V>(s: seq<Slot<K, V>>)
  {
    forall j :: 0 <= j < |s| ==> !s[j].Deleted?
  }

  // ---------------------------------------------------------------------------
  // Probe sequences
  // ---------------------------------------------------------------------------

  /** The first `a` attempts from `hk` all meet a slot that is not empty. */
  ghost predicate PathFilled<K, V>(s: seq<Slot<K, V>>, hk: nat, a: nat)
    requires |s| > 0
  {
    forall b :: 0 <= b < a ==> !s[Probe(hk, b, |s|)].Empty?
  }

  /**
   * The linear-probing invariant: no empty slot lies on the probe sequence of
   * a stored key before the slot that holds it. Entries are only ever written
   * at the first free slot of their sequence, and slots never become empty
   * again, so scans that stop at an empty slot miss nothing.
   */
  ghost predicate Closed<K, V>(hash: K -> nat, s: seq<Slot<K, V>>)
  {
    forall j: nat, a: nat :: j < |s| && s[j].Occupied? && a < |s| && Probe(hash(s[j].key), a, |s|) == j ==>
      PathFilled(s, hash(s[j].key), a)
  }

  /**
   * The scan of `retrieve` and `remove` from attempt `a`: the first attempt
   * whose slot holds `k`, passing over tombstones and other keys and giving up
   * at an empty slot or after the last attempt.
   */
  function MatchAt<K(==), V>(s: seq<Slot<K, V>>, hk: nat, k: K, a: nat): (m: Option<nat>)
    requires |s| > 0 && a <= |s|
    ensures m.Some? ==> a <= m.value < |s|
    ensures m.Some? ==> s[Probe(hk, m.value, |s|)].Occupied? && s[Probe(hk, m.value, |s|)].key == k
    ensures m.Some? ==> forall b :: a <= b < m.value ==> PassesOver(s[Probe(hk, b, |s|)], k)
    decreases |s| - a
  {
    if a == |s| then None
    else
      var x := s[Probe(hk, a, |s|)];
      if x.Empty? then None
      else if x.Occupied? && x.key == k then Some(a)
      else MatchAt(s, hk, k, a + 1)
  }

  /** A slot the scan for `k` steps over: a tombstone or another key. */
  predicate PassesOver<K(==), V>(x: Slot<K, V>, k: K)
  {
    x.Deleted? || (x.Occupied? && x.key != k)
  }

  /** What `retrieve` returns from attempt `a` on: the value at the slot the scan stops on. */
  function Find<K(==), V>(s: seq<Slot<K, V>>, hk: nat, k: K, a: nat): (r: Option<V>)
    requires |s| > 0 && a <= |s|
    ensures r.Some? ==> exists j :: 0 <= j < |s| && s[j] == Occupied(k, r.value)
  {
    match MatchAt(s, hk, k, a)
    case None => None
    case Some(m) =>
      var j := Probe(hk, m, |s|);
      assert s[j] == Occupied(k, s[j].value);
      Some(s[j].value)
  }

  /**
   * The scan of `insert` from attempt `a`: the first attempt whose slot is
   * empty, a tombstone, or holds `k`; none when every remaining attempt meets
   * another key.
   */
  function FreeOrMatch<K(==), V>(s: seq<Slot<K, V>>, hk: nat, k: K, a: nat): (f: Option<nat>)
    requires |s| > 0 && a <= |s|
    ensures f.Some? ==> a <= f.value < |s|
    ensures f.Some? ==> !PassesOver(s[Probe(hk, f.value, |s|)], k) || s[Probe(hk, f.value, |s|)].Deleted?
    ensures f.Some? ==> forall b :: a <= b < f.value ==> s[Probe(hk, b, |s|)].Occupied? && s[Probe(hk, b, |s|)].key != k
    ensures f.None? ==> forall b :: a <= b < |s| ==> s[Probe(hk, b, |s|)].Occupied? && s[Probe(hk, b, |s|)].key != k
    decreases |s| - a
  {
    if a == |s| then None
    else
      var x := s[Probe(hk, a, |s|)];
      if x.Occupied? && x.key != k then FreeOrMatch(s, hk, k, a + 1) else Some(a)
  }

  /** The probe loop of `resize` from attempt `a`: the first attempt meeting an empty slot, or `|s|`. */
  function FirstEmpty<K, V>(s: seq<Slot<K, V>>, hk: nat, a: nat): (e: nat)
    requires |s| > 0 && a <= |s|
    ensures a <= e <= |s|
    ensures e < |s| ==> s[Probe(hk, e, |s|)].Empty?
    ensures forall b :: a <= b < e ==> !s[Probe(hk, b, |s|)].Empty?
    decreases |s| - a
  {
    if a == |s| || s[Probe(hk, a, |s|)].Empty? then a else FirstEmpty(s, hk, a + 1)
  }

  /** With fewer live pairs than slots, `insert`'s scan finds a slot: "Hash table is full" needs every slot taken. */
  lemma RoomMeansSlot<K, V>(s: seq<Slot<K, V>>, hk: nat, k: K)
    requires |s| > 0 && |Live(s)| < |s|
    ensures FreeOrMatch(s, hk, k, 0).Some?
  {
    if FreeOrMatch(s, hk, k, 0).None? {
      forall j | 0 <= j < |s| ensures s[j].Occupied? {
        var a := AttemptTo(hk, j, |s|);
      }
      LiveFull(s);
    }
  }

  /** Without tombstones and with fewer live pairs than slots, `resize`'s probe loop meets an empty slot. */
  lemma EmptyReached<K, V>(s: seq<Slot<K, V>>, hk: nat)
    requires |s| > 0 && NoDeleted(s) && |Live(s)| < |s|
    ensures FirstEmpty(s, hk, 0) < |s|
  {
    if FirstEmpty(s, hk, 0) == |s| {
      forall j | 0 <= j < |s| ensures s[j].Occupied? {
        var a := AttemptTo(hk, j, |s|);
      }
      LiveFull(s);
    }
  }

  /** Writing a pair at attempt `a` of its key, past filled slots only, keeps the probing invariant. */
  lemma FillKeepsClosed<K, V>(hash: K -> nat, s: seq<Slot<K, V>>, k: K, v: V, a: nat)
    requires Closed(hash, s) && a < |s| && PathFilled(s, hash(k), a)
    ensures Closed(hash, s[Probe(hash(k), a, |s|) := Occupied(k, v)])
  {
    var n := |s|;
    var p := Probe(hash(k), a, n);
    var t := s[p := Occupied(k, v)];
    forall j: nat, c: nat | j < n && t[j].Occupied? && c < n && Probe(hash(t[j].key), c, n) == j
      ensures PathFilled(t, hash(t[j].key), c)
    {
      if j == p {
        if c < a {
          ProbeDistinct(hash(k), c, a, n);
        } else if a < c {
          ProbeDistinct(hash(k), a, c, n);
        }
      } else {
        assert PathFilled(s, hash(s[j].key), c);
      }
    }
  }

  /** Changing a slot between two contents the scan for `k` steps over leaves the scan alone. */
  lemma {:induction false} PassOverSame<K, V>(s: seq<Slot<K, V>>, p: nat, x: Slot<K, V>, hk: nat, k: K, c: nat)
    requires p < |s| && c <= |s| && PassesOver(s[p], k) && PassesOver(x, k)
    ensures MatchAt(s[p := x], hk, k, c) == MatchAt(s, hk, k, c)
    decreases |s| - c
  {
    if c < |s| {
      PassOverSame(s, p, x, hk, k, c + 1);
    }
  }

  /**
   * Past a hole that has just been filled with a pair of another key, the scan
   * for `k` finds nothing: by the probing invariant no slot further along
   * held `k`.
   */
  lemma {:induction false} AfterHole<K, V>(hash: K -> nat, s: seq<Slot<K, V>>, p: nat, x: Slot<K, V>, k: K, c0: nat, c: nat)
    requires Closed(hash, s) && p < |s| && s[p].Empty? && PassesOver(x, k)
    requires c0 < c <= |s| && Probe(hash(k), c0, |s|) == p
    ensures MatchAt(s[p := x], hash(k), k, c) == None
    decreases |s| - c
  {
    if c < |s| {
      var t := s[p := x];
      var q := Probe(hash(k), c, |s|);
      if t[q].Occupied? && t[q].key == k {
        assert false;
      }
      if !t[q].Empty? {
        AfterHole(hash, s, p, x, k, c0, c + 1);
      }
    }
  }

  /** Filling an empty slot with a pair of another key leaves the scan for `k` alone. */
  lemma {:induction false} FillHoleSame<K, V>(hash: K -> nat, s: seq<Slot<K, V>>, p: nat, x: Slot<K, V>, k: K, c: nat)
    requires Closed(hash, s) && p < |s| && s[p].Empty? && PassesOver(x, k) && c <= |s|
    requires PathFilled(s, hash(k), c)
    ensures MatchAt(s[p := x], hash(k), k, c) == MatchAt(s, hash(k), k, c)
    decreases |s| - c
  {
    if c < |s| {
      var q := Probe(hash(k), c, |s|);
      if q == p {
        AfterHole(hash, s, p, x, k, c, c + 1);
      } else if !s[q].Empty? {
        FillHoleSame(hash, s, p, x, k, c + 1);
      }
    }
  }

  /** When the scans agree and the changed slot does not hold `k`, so do the values found. */
  lemma FindFromMatch<K, V>(s: seq<Slot<K, V>>, p: nat, x: Slot<K, V>, hk: nat, k: K)
    requires p < |s| && PassesOver(x, k) && MatchAt(s[p := x], hk, k, 0) == MatchAt(s, hk, k, 0)
    ensures Find(s[p := x], hk, k, 0) == Find(s, hk, k, 0)
  {
  }

  // ---------------------------------------------------------------------------
  // insert and remove on slot vectors
  // ---------------------------------------------------------------------------

  /**
   * The slots after `insert`'s probe loop: the pair is written at the first
   * slot that is empty, a tombstone or holds `key`; nothing changes when
   * every slot holds another key.
   */
  function PutSlots<K(==), V>(s: seq<Slot<K, V>>, hk: nat, key: K, value: V): (t: seq<Slot<K, V>>)
    requires |s| > 0
    ensures |t| == |s|
    ensures forall j :: 0 <= j < |s| && t[j] != s[j] ==> t[j] == Occupied(key, value)
  {
    match FreeOrMatch(s, hk, key, 0)
    case None => s
    case Some(a) => s[Probe(hk, a, |s|) := Occupied(key, value)]
  }

  lemma {:induction false} PutFindsFrom<K, V>(s: seq<Slot<K, V>>, hk: nat, key: K, value: V, c: nat)
    requires |s| > 0 && FreeOrMatch(s, hk, key, 0).Some? && c <= FreeOrMatch(s, hk, key, 0).value
    ensures Find(PutSlots(s, hk, key, value), hk, key, c) == Some(value)
    decreases |s| - c
  {
    var t := PutSlots(s, hk, key, value);
    if Probe(hk, c, |s|) != Probe(hk, FreeOrMatch(s, hk, key, 0).value, |s|) {
      PutFindsFrom(s, hk, key, value, c + 1);
      assert MatchAt(t, hk, key, c) == MatchAt(t, hk, key, c + 1);
    }
  }

  /** After a successful `insert(key, value)`, `retrieve(key)` finds `value`. */
  lemma PutFinds<K, V>(s: seq<Slot<K, V>>, hk: nat, key: K, value: V)
    requires |s| > 0 && FreeOrMatch(s, hk, key, 0).Some?
    ensures Find(PutSlots(s, hk, key, value), hk, key, 0) == Some(value)
  {
    PutFindsFrom(s, hk, key, value, 0);
  }

  /** `insert(key, value)` leaves what `retrieve` finds for every other key alone. */
  lemma PutKeepsOthers<K, V>(hash: K -> nat, s: seq<Slot<K, V>>, key: K, value: V, k: K)
    requires |s| > 0 && Closed(hash, s) && k != key
    ensures Find(PutSlots(s, hash(key), key, value), hash(k), k, 0) == Find(s, hash(k), k, 0)
  {
    var f := FreeOrMatch(s, hash(key), key, 0);
    if f.Some? {
      var p := Probe(hash(key), f.value, |s|);
      if s[p].Empty? {
        FillHoleSame(hash, s, p, Occupied(key, value), k, 0);
      } else {
        PassOverSame(s, p, Occupied(key, value), hash(k), k, 0);
      }
      FindFromMatch(s, p, Occupied(key, value), hash(k), k);
    }
  }

  /** `insert` keeps the probing invariant. */
  lemma PutKeepsClosed<K, V>(hash: K -> nat, s: seq<Slot<K, V>>, key: K, value: V)
    requires |s| > 0 && Closed(hash, s)
    ensures Closed(hash, PutSlots(s, hash(key), key, value))
  {
    var f := FreeOrMatch(s, hash(key), key, 0);
    if f.Some? {
      FillKeepsClosed(hash, s, key, value, f.value);
    }
  }

  /**
   * `insert` over the slot of `key` keeps the number of live pairs; over an
   * empty slot or a tombstone it adds one.
   */
  lemma PutCounts<K, V>(s: seq<Slot<K, V>>, hk: nat, key: K, value: V)
    requires |s| > 0 && FreeOrMatch(s, hk, key, 0).Some?
    ensures var p := Probe(hk, FreeOrMatch(s, hk, key, 0).value, |s|);
            |Live(PutSlots(s, hk, key, value))| == |Live(s)| + (if s[p].Occupied? then 0 else 1)
  {
    var p := Probe(hk, FreeOrMatch(s, hk, key, 0).value, |s|);
    LiveUpdate(s, p, Occupied(key, value));
  }

  /**
   * The tombstone quirk of `insert`: when a tombstone comes before the slot
   * holding `key` on its probe sequence, the pair is written at the first such
   * tombstone and the old pair stays, so `key` is stored twice and the number
   * of live pairs grows.
   */
  lemma DuplicateBehindTombstone<K, V>(s: seq<Slot<K, V>>, hk: nat, key: K, value: V, d: nat)
    requires |s| > 0 && MatchAt(s, hk, key, 0).Some? && d < MatchAt(s, hk, key, 0).value
    requires s[Probe(hk, d, |s|)].Deleted?
    ensures FreeOrMatch(s, hk, key, 0).Some?
    ensures var f := FreeOrMatch(s, hk, key, 0).value;
            var m := MatchAt(s, hk, key, 0).value;
            var t := PutSlots(s, hk, key, value);
            && f <= d
            && Probe(hk, f, |s|) != Probe(hk, m, |s|)
            && t[Probe(hk, f, |s|)] == Occupied(key, value)
            && t[Probe(hk, m, |s|)] == s[Probe(hk, m, |s|)] && s[Probe(hk, m, |s|)].key == key
            && |Live(t)| == |Live(s)| + 1
  {
    var f := FreeOrMatch(s, hk, key, 0);
    var m := MatchAt(s, hk, key, 0).value;
    assert f.Some?;
    assert f.value <= d;
    ProbeDistinct(hk, f.value, m, |s|);
    PutCounts(s, hk, key, value);
  }

  /** The slots after `remove`'s probe loop: the slot the scan stops on becomes a tombstone. */
  function DeleteSlots<K(==), V>(s: seq<Slot<K, V>>, hk: nat, key: K): (t: seq<Slot<K, V>>)
    requires |s| > 0
    ensures |t| == |s|
    ensures forall j :: 0 <= j < |s| && t[j] != s[j] ==> t[j].Deleted? && s[j].Occupied? && s[j].key == key
  {
    match MatchAt(s, hk, key, 0)
    case None => s
    case Some(m) => s[Probe(hk, m, |s|) := Deleted]
  }

  /** `remove(key)` leaves what `retrieve` finds for every other key alone. */
  lemma DeleteKeepsOthers<K, V>(s: seq<Slot<K, V>>, hk: nat, key: K, hk2: nat, k: K)
    requires |s| > 0 && k != key
    ensures Find(DeleteSlots(s, hk, key), hk2, k, 0) == Find(s, hk2, k, 0)
  {
    var m := MatchAt(s, hk, key, 0);
    if m.Some? {
      var p := Probe(hk, m.value, |s|);
      PassOverSame(s, p, Deleted, hk2, k, 0);
      FindFromMatch(s, p, Deleted, hk2, k);
    }
  }

  /** `remove` keeps the probing invariant: a tombstone is not a hole. */
  lemma DeleteKeepsClosed<K, V>(hash: K -> nat, s: seq<Slot<K, V>>, key: K)
    requires |s| > 0 && Closed(hash, s)
    ensures Closed(hash, DeleteSlots(s, hash(key), key))
  {
    var t := DeleteSlots(s, hash(key), key);
    forall j: nat, c: nat | j < |t| && t[j].Occupied? && c < |t| && Probe(hash(t[j].key), c, |t|) == j
      ensures PathFilled(t, hash(t[j].key), c)
    {
      assert PathFilled(s, hash(s[j].key), c);
    }
  }

  /** A successful `remove` takes one live pair away. */
  lemma DeleteCounts<K, V>(s: seq<Slot<K, V>>, hk: nat, key: K)
    requires |s| > 0
    ensures |Live(DeleteSlots(s, hk, key))| == |Live(s)| - (if MatchAt(s, hk, key, 0).Some? then 1 else 0)
  {
    var m := MatchAt(s, hk, key, 0);
    if m.Some? {
      LiveUpdate(s, Probe(hk, m.value, |s|), Deleted);
    }
  }

  /** When `key` is stored once, `remove(key)` makes `retrieve(key)` find nothing. */
  lemma DeleteUniqueGone<K, V>(s: seq<Slot<K, V>>, hk: nat, key: K)
    requires |s| > 0
    requires forall i, j :: 0 <= i < j < |s| && s[i].Occupied? && s[j].Occupied? ==> s[i].key != key || s[j].key != key
    ensures Find(DeleteSlots(s, hk, key), hk, key, 0) == None
  {
    var t := DeleteSlots(s, hk, key);
    var m := MatchAt(t, hk, key, 0);
    if m.Some? {
      assert false;
    }
  }

  // ---------------------------------------------------------------------------
  // resize on slot vectors
  // ---------------------------------------------------------------------------

  /** One step of `resize`: `x` goes to the first empty slot of the probe sequence from `hk`. */
  function Place<K, V>(acc: seq<Slot<K, V>>, hk: nat, x: Slot<K, V>): (r: seq<Slot<K, V>>)
    requires |acc| > 0
    ensures |r| == |acc|
    ensures forall j :: 0 <= j < |acc| && r[j] != acc[j] ==> acc[j].Empty? && r[j] == x
  {
    var e := FirstEmpty(acc, hk, 0);
    if e < |acc| then acc[Probe(hk, e, |acc|) := x] else acc
  }

  /** The loop of `resize` from slot `j` on: every occupied slot, in order, is placed into `acc`. */
  function Rehash<K, V>(hash: K -> nat, s: seq<Slot<K, V>>, j: nat, acc: seq<Slot<K, V>>): (r: seq<Slot<K, V>>)
    requires j <= |s| && |acc| > 0
    ensures |r| == |acc|
    ensures forall i :: 0 <= i < |acc| && !acc[i].Empty? ==> r[i] == acc[i]
    decreases |s| - j
  {
    if j == |s| then acc
    else if s[j].Occupied? then Rehash(hash, s, j + 1, Place(acc, hash(s[j].key), s[j]))
    else Rehash(hash, s, j + 1, acc)
  }

  /** The slots `resize` builds: twice as many, filled by rehashing every live pair. */
  function Resized<K, V>(hash: K -> nat, s: seq<Slot<K, V>>): (r: seq<Slot<K, V>>)
    requires |s| > 0
    ensures |r| == 2 * |s|
  {
    Rehash(hash, s, 0, EmptySlots(2 * |s|))
  }

  /** Placing a live pair where there is room keeps the invariant and adds that pair. */
  lemma PlaceProps<K, V>(hash: K -> nat, acc: seq<Slot<K, V>>, x: Slot<K, V>)
    requires |acc| > 0 && x.Occupied? && NoDeleted(acc) && Closed(hash, acc) && |Live(acc)| < |acc|
    ensures NoDeleted(Place(acc, hash(x.key), x)) && Closed(hash, Place(acc, hash(x.key), x))
    ensures multiset(Live(Place(acc, hash(x.key), x))) == multiset(Live(acc)) + multiset{(x.key, x.value)}
    ensures |Live(Place(acc, hash(x.key), x))| == |Live(acc)| + 1
  {
    var hk := hash(x.key);
    EmptyReached(acc, hk);
    var e := FirstEmpty(acc, hk, 0);
    var p := Probe(hk, e, |acc|);
    assert x == Occupied(x.key, x.value);
    FillKeepsClosed(hash, acc, x.key, x.value, e);
    LiveUpdate(acc, p, x);
  }

  lemma {:induction false} RehashProps<K, V>(hash: K -> nat, s: seq<Slot<K, V>>, j: nat, acc: seq<Slot<K, V>>)
    requires j <= |s| && |acc| > 0 && NoDeleted(acc) && Closed(hash, acc)
    requires |Live(acc)| + |Live(s[j..])| <= |acc|
    ensures NoDeleted(Rehash(hash, s, j, acc)) && Closed(hash, Rehash(hash, s, j, acc))
    ensures multiset(Live(Rehash(hash, s, j, acc))) == multiset(Live(acc)) + multiset(Live(s[j..]))
    decreases |s| - j
  {
    if j < |s| {
      assert Live(s[j..]) == SlotEntries(s[j]) + Live(s[j + 1..]) by {
        assert s[j..][1..] == s[j + 1..];
      }
      if s[j].Occupied? {
        PlaceProps(hash, acc, s[j]);
        var placed := Place(acc, hash(s[j].key), s[j]);
        RehashProps(hash, s, j + 1, placed);
        assert Rehash(hash, s, j, acc) == Rehash(hash, s, j + 1, placed);
      } else {
        RehashProps(hash, s, j + 1, acc);
      }
    } else {
      assert s[j..] == [];
    }
  }

  /**
   * `resize` keeps every live pair (as a multiset: duplicates included),
   * drops every tombstone, and keeps the probing invariant.
   */
  lemma ResizedProps<K, V>(hash: K -> nat, s: seq<Slot<K, V>>)
    requires |s| > 0
    ensures NoDeleted(Resized(hash, s)) && Closed(hash, Resized(hash, s))
    ensures multiset(Live(Resized(hash, s))) == multiset(Live(s))
    ensures |Live(Resized(hash, s))| == |Live(s)|
  {
    var acc := EmptySlots<K, V>(2 * |s|);
    assert s[0..] == s;
    RehashProps(hash, s, 0, acc);
    assert |multiset(Live(Resized(hash, s)))| == |multiset(Live(s))|;
  }

  /** An occupied slot's pair is live. */
  lemma SlotIsLive<K, V>(s: seq<Slot<K, V>>, j: nat)
    requires j < |s| && s[j].Occupied?
    ensures (s[j].key, s[j].value) in Live(s)
  {
    LiveSplit(s, j);
  }

  /** Every live pair sits in some occupied slot. */
  lemma {:induction false} LiveHasSlot<K, V>(s: seq<Slot<K, V>>, p: (K, V))
    requires p in Live(s)
    ensures exists j :: 0 <= j < |s| && s[j] == Occupied(p.0, p.1)
  {
    if s[0] == Occupied(p.0, p.1) {
    } else {
      assert p in Live(s[1..]);
      LiveHasSlot(s[1..], p);
      var j :| 0 <= j < |s[1..]| && s[1..][j] == Occupied(p.0, p.1);
      assert s[j + 1] == Occupied(p.0, p.1);
    }
  }

  /** A scan along a filled path that ends at a slot holding `k` finds `k`. */
  lemma {:induction false} FoundOnPath<K, V>(s: seq<Slot<K, V>>, hk: nat, k: K, c: nat, a: nat)
    requires |s| > 0 && c <= a < |s| && PathFilled(s, hk, a)
    requires s[Probe(hk, a, |s|)].Occupied? && s[Probe(hk, a, |s|)].key == k
    ensures MatchAt(s, hk, k, c).Some?
    decreases a - c
  {
    if c < a {
      FoundOnPath(s, hk, k, c + 1, a);
    }
  }

  /**
   * In a closed vector, `retrieve` finds a value exactly for the keys that
   * have a live pair, and the value it finds is one of that key's live pairs.
   */
  lemma FindIffLive<K, V>(hash: K -> nat, s: seq<Slot<K, V>>, k: K)
    requires |s| > 0 && Closed(hash, s)
    ensures Find(s, hash(k), k, 0).Some? ==> (k, Find(s, hash(k), k, 0).value) in Live(s)
    ensures (exists v :: (k, v) in Live(s)) ==> Find(s, hash(k), k, 0).Some?
  {
    var m := MatchAt(s, hash(k), k, 0);
    if m.Some? {
      SlotIsLive(s, Probe(hash(k), m.value, |s|));
    }
    if v :| (k, v) in Live(s) {
      LiveHasSlot(s, (k, v));
      var j :| 0 <= j < |s| && s[j] == Occupied(k, v);
      var a := AttemptTo(hash(k), j, |s|);
      FoundOnPath(s, hash(k), k, 0, a);
    }
  }

  /** No key has two different live values: a table where the duplicate quirk did no harm. */
  ghost predicate KeysFunctional<K, V>(ps: seq<(K, V)>)
  {
    forall p, q :: p in ps && q in ps && p.0 == q.0 ==> p.1 == q.1
  }

  /** When no key has two different live values, `resize` changes no answer of `retrieve`. */
  lemma ResizedKeepsFind<K, V>(hash: K -> nat, s: seq<Slot<K, V>>, k: K)
    requires |s| > 0 && Closed(hash, s) && KeysFunctional(Live(s))
    ensures Find(Resized(hash, s), hash(k), k, 0) == Find(s, hash(k), k, 0)
  {
    var r := Resized(hash, s);
    ResizedProps(hash, s);
    SameMembers(Live(r), Live(s));
    FindIffLive(hash, s, k);
    FindIffLive(hash, r, k);
    SameAnswer(Live(s), Live(r), k, Find(s, hash(k), k, 0), Find(r, hash(k), k, 0));
  }

  /**
   * Two lookups that each find a live value of `k` exactly when `k` is live,
   * over the same pairs with functional keys, give the same answer.
   */
  lemma SameAnswer<K, V>(ps: seq<(K, V)>, qs: seq<(K, V)>, k: K, before: Option<V>, after: Option<V>)
    requires (forall p :: p in ps <==> p in qs) && KeysFunctional(ps)
    requires before.Some? ==> (k, before.value) in ps
    requires (exists v :: (k, v) in ps) ==> before.Some?
    requires after.Some? ==> (k, after.value) in qs
    requires (exists v :: (k, v) in qs) ==> after.Some?
    ensures before == after
  {
    if before.Some? {
      assert (k, before.value) in qs;
      assert after.Some?;
      assert (k, after.value) in ps;
    } else if after.Some? {
      assert false;
    }
  }

  /**
   * Below a load factor under one, a table that is not resized has a free
   * slot: `size * loadDen <= loadNum * capacity` with `loadNum < loadDen`
   * leaves `size < capacity`.
   */
  lemma LoadBelowOne(size: nat, cap: nat, loadNum: nat, loadDen: nat)
    requires cap > 0 && loadNum < loadDen && size * loadDen <= loadNum * cap
    ensures size < cap
  {
    assert cap * loadDen > cap * loadNum;
    assert size * loadDen < cap * loadDen;
  }

  // ---------------------------------------------------------------------------
  // The table
  // ---------------------------------------------------------------------------

  /**
   * The probe loop of `resize`: attempt after attempt from `hk` until an empty
   * slot, where `x` is written.
   */
  method PlaceEntry<K, V>(a: array<Slot<K, V>>, hk: nat, x: Slot<K, V>)
    requires a.Length > 0 && NoDeleted(a[..]) && |Live(a[..])| < a.Length
    modifies a
    ensures a[..] == Place(old(a[..]), hk, x)
  {
    ghost var s := a[..];
    EmptyReached(s, hk);
    var attempt := 0;
    var index := Probe(hk, 0, a.Length);
    while !a[index].Empty?
      invariant a[..] == s
      invariant attempt <= FirstEmpty(s, hk, 0) < a.Length
      invariant FirstEmpty(s, hk, attempt) == FirstEmpty(s, hk, 0)
      invariant index == Probe(hk, attempt, a.Length)
      decreases a.Length - attempt
    {
      attempt := attempt + 1;
      index := Probe(hk, attempt, a.Length);
    }
    a[index] := x;
  }

  class OpenAddressingHashTable<K(==, !new), V> {
    const hash: K -> nat
    const loadNum: nat
    const loadDen: nat

    var slots: array<Slot<K, V>>
    var capacity: nat
    var size: nat

    ghost predicate Valid()
      reads this, slots
    {
      && loadDen > 0
      && capacity == slots.Length
      && size == |Live(slots[..])|
      && Closed(hash, slots[..])
    }

    /** The value `retrieve(k)` returns when it does not throw. */
    ghost function Get(k: K): Option<V>
      requires Valid()
      reads this, slots
    {
      if capacity == 0 then None else Find(slots[..], hash(k), k, 0)
    }

    /** The resize test of `insert`: `size / capacity > loadFactor`. */
    predicate OverLoaded()
      reads this
    {
      size * loadDen > loadNum * capacity
    }

    /** The constructor: `initialCapacity` empty slots (zero is accepted) and threshold `loadNum / loadDen`. */
    constructor (hashFn: K -> nat, initialCapacity: nat, loadNum: nat, loadDen: nat)
      requires loadDen > 0
      ensures Valid() && fresh(slots)
      ensures capacity == initialCapacity && size == 0
      ensures forall j :: 0 <= j < slots.Length ==> slots[j].Empty?
      ensures forall k :: Get(k) == None
      ensures hash == hashFn && this.loadNum == loadNum && this.loadDen == loadDen
    {
      hash := hashFn;
      this.loadNum := loadNum;
      this.loadDen := loadDen;
      slots := new Slot<K, V>[initialCapacity](_ => Empty);
      capacity := initialCapacity;
      size := 0;
      new;
      LiveNone(slots[..]);
    }

    /**
     * The shared probe loop of `retrieve` and `remove`: the attempt whose slot
     * holds `key`, stopping at an empty slot or after `capacity` attempts.
     */
    method Locate(key: K) returns (m: Option<nat>)
      requires Valid() && capacity > 0
      ensures m == MatchAt(slots[..], hash(key), key, 0)
    {
      var hk := hash(key);
      var attempt := 0;
      while attempt < capacity
        invariant attempt <= capacity
        invariant MatchAt(slots[..], hk, key, attempt) == MatchAt(slots[..], hk, key, 0)
      {
        var index := Probe(hk, attempt, capacity);
        if slots[index].Empty? {
          return None;
        } else if slots[index].Occupied? && slots[index].key == key {
          return Some(attempt);
        }
        attempt := attempt + 1;
      }
      return None;
    }

    /** `retrieve(key)`: the value of the slot the scan stops on; a zero capacity throws. */
    method Retrieve(key: K) returns (r: Outcome<Option<V>>)
      requires Valid()
      ensures r == if capacity == 0 then Throw(CapacityZero) else Ok(Get(key))
    {
      if capacity == 0 {
        return Throw(CapacityZero);
      }
      var m := Locate(key);
      if m.Some? {
        return Ok(Some(slots[Probe(hash(key), m.value, capacity)].value));
      }
      return Ok(None);
    }
  
    /**
     * The probe loop of `insert`: the pair goes to the first slot that is
     * empty, a tombstone or holds `key`; "Hash table is full" after
     * `capacity` attempts that all met other keys.
     */
    method Store(key: K, value: V) returns (r: Outcome<()>)
      requires Valid() && capacity > 0
      modifies this, slots
      ensures Valid()
      ensures slots == old(slots) && capacity == old(capacity)
      ensures slots[..] == PutSlots(old(slots[..]), hash(key), key, value)
      ensures r == if FreeOrMatch(old(slots[..]), hash(key), key, 0).Some? then Ok(()) else Throw(TableFull)
      ensures r.Ok? ==> Get(key) == Some(value)
      ensures forall k :: k != key ==> Get(k) == old(Get(k))
    {
      var hk := hash(key);
      ghost var s := slots[..];
      PutKeepsClosed(hash, s, key, value);
      forall k | k != key
        ensures Find(PutSlots(s, hk, key, value), hash(k), k, 0) == Find(s, hash(k), k, 0)
      {
        PutKeepsOthers(hash, s, key, value, k);
      }
      var attempt := 0;
      while attempt < capacity
        invariant attempt <= capacity
        invariant slots == old(slots) && capacity == old(capacity) && slots[..] == s && size == old(size)
        invariant FreeOrMatch(s, hk, key, attempt) == FreeOrMatch(s, hk, key, 0)
      {
        var index := Probe(hk, attempt, capacity);
        if slots[index].Empty? || slots[index].Deleted? {
          PutCounts(s, hk, key, value);
          PutFinds(s, hk, key, value);
          assert PutSlots(s, hk, key, value) == s[index := Occupied(key, value)];
          slots[index] := Occupied(key, value);
          size := size + 1;
          return Ok(());
        } else if slots[index].key == key {
          PutCounts(s, hk, key, value);
          PutFinds(s, hk, key, value);
          assert PutSlots(s, hk, key, value) == s[index := Occupied(key, value)];
          slots[index] := Occupied(key, value);
          return Ok(());
        }
        attempt := attempt + 1;
      }
      return Throw(TableFull);
    }

    /**
     * The copy loop of `resize()`: a fresh vector of twice the capacity, every
     * live pair of the old one, in slot order, at the first empty slot of its
     * probe sequence.
     */
    method RehashSlots() returns (newSlots: array<Slot<K, V>>)
      requires Valid() && capacity > 0
      ensures fresh(newSlots) && newSlots[..] == Resized(hash, slots[..])
    {
      ghost var s := slots[..];
      var newCapacity := 2 * capacity;
      newSlots := new Slot<K, V>[newCapacity](_ => Empty);
      assert newSlots[..] == EmptySlots(newCapacity);
      var j := 0;
      while j < slots.Length
        invariant 0 <= j <= slots.Length
        invariant newSlots.Length == newCapacity && fresh(newSlots)
        invariant NoDeleted(newSlots[..]) && Closed(hash, newSlots[..]) && |Live(newSlots[..])| <= j
        invariant Rehash(hash, s, j, newSlots[..]) == Resized(hash, s)
      {
        var slot := slots[j];
        if slot.Occupied? {
          PlaceProps(hash, newSlots[..], slot);
          PlaceEntry(newSlots, hash(slot.key), slot);
        }
        j := j + 1;
      }
    }

    /**
     * `resize()`: the table moves to the rehashed vector of twice the
     * capacity. Live pairs are kept and tombstones dropped; when no key has two
     * different live values, every key keeps its value.
     */
    method Resize()
      requires Valid() && capacity > 0
      modifies this
      ensures Valid() && fresh(slots)
      ensures capacity == 2 * old(capacity) && size == old(size)
      ensures slots[..] == Resized(hash, old(slots[..]))
      ensures KeysFunctional(Live(old(slots[..]))) ==> forall k :: Get(k) == old(Get(k))
    {
      ghost var s := slots[..];
      var newSlots := RehashSlots();
      ResizedProps(hash, s);
      forall k | KeysFunctional(Live(s))
        ensures Find(Resized(hash, s), hash(k), k, 0) == Find(s, hash(k), k, 0)
      {
        ResizedKeepsFind(hash, s, k);
      }
      slots := newSlots;
      capacity := 2 * capacity;
    }

    /**
     * `insert(key, value)`: the load test on the live count before probing,
     * then the probe loop. A successful insert makes `retrieve(key)` find
     * `value`; below a load factor of one the table is never full.
     */
    method Insert(key: K, value: V) returns (r: Outcome<()>)
      requires Valid()
      modifies this, slots
      ensures Valid()
      ensures capacity == if old(OverLoaded()) then 2 * old(capacity) else old(capacity)
      ensures if old(OverLoaded()) then fresh(slots) else slots == old(slots)
      ensures old(capacity) == 0 ==> r == Throw(CapacityZero) && slots == old(slots) && size == old(size)
      ensures old(capacity) > 0 ==>
                var before := if old(OverLoaded()) then Resized(hash, old(slots[..])) else old(slots[..]);
                && slots[..] == PutSlots(before, hash(key), key, value)
                && r == if FreeOrMatch(before, hash(key), key, 0).Some? then Ok(()) else Throw(TableFull)
      ensures r.Ok? ==> Get(key) == Some(value)
      ensures !old(OverLoaded()) || KeysFunctional(Live(old(slots[..]))) ==>
                forall k :: k != key ==> Get(k) == old(Get(k))
      ensures loadNum < loadDen ==> r != Throw(TableFull)
    {
      if size * loadDen > loadNum * capacity {
        Resize();
      }
      if capacity == 0 {
        return Throw(CapacityZero);
      }
      if loadNum < loadDen {
        if !old(OverLoaded()) {
          LoadBelowOne(size, capacity, loadNum, loadDen);
        }
        RoomMeansSlot(slots[..], hash(key), key);
      }
      r := Store(key, value);
    }

    /**
     * `remove(key)`: the slot the scan stops on becomes a tombstone and `size`
     * drops by one; nothing changes when the scan finds nothing.
     */
    method Remove(key: K) returns (r: Outcome<bool>)
      requires Valid()
      modifies this, slots
      ensures Valid()
      ensures slots == old(slots) && capacity == old(capacity)
      ensures capacity == 0 ==> r == Throw(CapacityZero) && slots[..] == old(slots[..]) && size == old(size)
      ensures capacity > 0 ==>
                && r == Ok(MatchAt(old(slots[..]), hash(key), key, 0).Some?)
                && slots[..] == DeleteSlots(old(slots[..]), hash(key), key)
      ensures r == Ok(true) ==> size == old(size) - 1
      ensures r == Ok(false) ==> size == old(size) && slots[..] == old(slots[..])
      ensures forall k :: k != key ==> Get(k) == old(Get(k))
    {
      if capacity == 0 {
        return Throw(CapacityZero);
      }
      ghost var s := slots[..];
      var hk := hash(key);
      DeleteKeepsClosed(hash, s, key);
      DeleteCounts(s, hk, key);
      forall k | k != key
        ensures Find(DeleteSlots(s, hk, key), hash(k), k, 0) == Find(s, hash(k), k, 0)
      {
        DeleteKeepsOthers(s, hk, key, hash(k), k);
      }
      var m := Locate(key);
      if m.Some? {
        slots[Probe(hk, m.value, capacity)] := Deleted;
        size := size - 1;
        return Ok(true);
      }
      return Ok(false);
    }

    /** `getSize()`: the number of live pairs, duplicates included. */
    function GetSize(): (n: nat)
      requires Valid()
      reads this, slots
      ensures n == |Live(slots[..])| && n <= capacity
    {
      size
    }

    /** `getCapacity()`: the number of slots. */
    function GetCapacity(): (c: nat)
      requires Valid()
      reads this, slots
      ensures c == slots.Length
    {
      capacity
    }
  }

  /** The first two inserts of the scenario below: key 5 probes past key 1 to slot 2. */
  lemma ScenarioInserts()
    ensures PutSlots<int, int>([Empty, Empty, Empty, Empty], 1, 1, 10) == [Empty, Occupied(1, 10), Empty, Empty]
    ensures PutSlots<int, int>([Empty, Occupied(1, 10), Empty, Empty], 5, 5, 50)
            == [Empty, Occupied(1, 10), Occupied(5, 50), Empty]
    ensures |Live<int, int>([Empty, Occupied(1, 10), Empty, Empty])| == 1
  {
    assert FreeOrMatch<int, int>([Empty, Empty, Empty, Empty], 1, 1, 0) == Some(0);
    assert FreeOrMatch<int, int>([Empty, Occupied(1, 10), Empty, Empty], 5, 5, 1) == Some(1);
  }

  /** `remove(1)` tombstones slot 1; the next insert of 5 reuses it while 5 still sits in slot 2. */
  lemma ScenarioDuplicate()
    ensures DeleteSlots<int, int>([Empty, Occupied(1, 10), Occupied(5, 50), Empty], 1, 1)
            == [Empty, Deleted, Occupied(5, 50), Empty]
    ensures |Live<int, int>([Empty, Deleted, Occupied(5, 50), Empty])| == 1
    ensures PutSlots<int, int>([Empty, Deleted, Occupied(5, 50), Empty], 5, 5, 51)
            == [Empty, Occupied(5, 51), Occupied(5, 50), Empty]
  {
    assert MatchAt<int, int>([Empty, Occupied(1, 10), Occupied(5, 50), Empty], 1, 1, 0) == Some(0);
    assert FreeOrMatch<int, int>([Empty, Deleted, Occupied(5, 50), Empty], 5, 5, 0) == Some(0);
  }

  /** With the duplicate stored, 5 finds the newer value; once that is removed, the stale one. */
  lemma ScenarioStale()
    ensures Find<int, int>([Empty, Occupied(5, 51), Occupied(5, 50), Empty], 5, 5, 0) == Some(51)
    ensures |Live<int, int>([Empty, Occupied(5, 51), Occupied(5, 50), Empty])| == 2
    ensures DeleteSlots<int, int>([Empty, Occupied(5, 51), Occupied(5, 50), Empty], 5, 5)
            == [Empty, Deleted, Occupied(5, 50), Empty]
    ensures Find<int, int>([Empty, Deleted, Occupied(5, 50), Empty], 5, 5, 0) == Some(50)
  {
    assert MatchAt<int, int>([Empty, Occupied(5, 51), Occupied(5, 50), Empty], 5, 5, 0) == Some(0);
    assert MatchAt<int, int>([Empty, Deleted, Occupied(5, 50), Empty], 5, 5, 1) == Some(1);
  }

  /**
   * The tombstone quirk end to end: after `remove(1)` leaves a tombstone in
   * front of key 5, `insert(5, 51)` stores 5 a second time, and removing it
   * brings the stale value 50 back.
   */
  method DuplicateScenario() returns (fresh5: Outcome<Option<int>>, countWithDuplicate: nat, stale5: Outcome<Option<int>>)
    ensures fresh5 == Ok(Some(51))
    ensures countWithDuplicate == 2
    ensures stale5 == Ok(Some(50))
  {
    var t := new OpenAddressingHashTable<int, int>(x => if x < 0 then -x else x, 4, 3, 4);
    assert t.slots[..] == [Empty, Empty, Empty, Empty];
    ScenarioInserts();
    ScenarioDuplicate();
    ScenarioStale();
    var r := t.Insert(1, 10);
    assert t.slots[..] == [Empty, Occupied(1, 10), Empty, Empty];
    r := t.Insert(5, 50);
    assert t.slots[..] == [Empty, Occupied(1, 10), Occupied(5, 50), Empty];
    var b := t.Remove(1);
    assert t.slots[..] == [Empty, Deleted, Occupied(5, 50), Empty];
    r := t.Insert(5, 51);
    assert t.slots[..] == [Empty, Occupied(5, 51), Occupied(5, 50), Empty];
    fresh5 := t.Retrieve(5);
    countWithDuplicate := t.GetSize();
    b := t.Remove(5);
    assert t.slots[..] == [Empty, Deleted, Occupied(5, 50), Empty];
    stale5 := t.Retrieve(5);
  }
}
