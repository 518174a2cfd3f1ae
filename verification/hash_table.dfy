/** `HashTable<TK, TV>`: separate chaining with growth before insert, and an
    insertion-order record used for enumeration.

    In the source an `Entry*` is shared between its bucket's forward list and
    `insertionOrder`. Here every entry is a `(key, value)` pair present in both
    `buckets` and `order`, and an in-place value update is applied to both
    copies. `std::hash<TK>` is the table's `hash` field. */
module HashTable {
  import opened Outcomes

  /** The initial capacity of `HashTable(int _cap = 10)`. */
  const DefaultCapacity: nat := 10

  /** `out_of_range("Key not found")`. */
  datatype HashError = KeyNotFound

  /** `buckets[i]` is the forward list of slot `i`, front first; `order` is
      `insertionOrder`; `size` is the element counter. */
  datatype Table<!K(==), V> = Table(
    hash: K -> nat,
    capacity: nat,
    buckets: seq<seq<(K, V)>>,
    order: seq<(K, V)>,
    size: nat)

  predicate Shaped<K(==), V>(t: Table<K, V>) {
    t.capacity > 0 && |t.buckets| == t.capacity
  }

  // ---------------------------------------------------------------------------
  // Entry lists

  function Keys<K, V>(es: seq<(K, V)>): (ks: seq<K>)
    ensures |ks| == |es|
    ensures forall i :: 0 <= i < |es| ==> ks[i] == es[i].0
  {
    seq(|es|, i requires 0 <= i < |es| => es[i].0)
  }

  predicate UniqueKeys<K(==), V>(es: seq<(K, V)>) {
    forall i, j :: 0 <= i < j < |es| ==> es[i].0 != es[j].0
  }

  /** The value an entry list holds for `k`: the first entry with that key. */
  function Lookup<K(==), V>(es: seq<(K, V)>, k: K): (r: Option<V>)
    ensures r.None? <==> forall i :: 0 <= i < |es| ==> es[i].0 != k
    ensures r.Some? ==>
      exists i :: 0 <= i < |es| && es[i] == (k, r.value) && (forall j :: 0 <= j < i ==> es[j].0 != k)
    ensures UniqueKeys(es) ==> forall i :: 0 <= i < |es| && es[i].0 == k ==> r == Some(es[i].1)
  {
    if |es| == 0 then None
    else if es[0].0 == k then Some(es[0].1)
    else
      var r := Lookup(es[1..], k);
      assert forall i :: 0 < i < |es| ==> es[i] == es[1..][i - 1];
      r
  }

  /** `e->v = value` on the one shared entry with key `k`. */
  function UpdateValue<K(==), V>(es: seq<(K, V)>, k: K, v: V): (r: seq<(K, V)>)
    ensures |r| == |es|
    ensures forall i :: 0 <= i < |es| ==> r[i] == if es[i].0 == k then (k, v) else es[i]
  {
    if |es| == 0 then []
    else [if es[0].0 == k then (k, v) else es[0]] + UpdateValue(es[1..], k, v)
  }

  /** The scan of `insertionOrder` in `remove`: erase the first entry with key `k`. */
  function RemoveFirst<K(==), V>(es: seq<(K, V)>, k: K): (r: seq<(K, V)>)
  {
    if |es| == 0 then []
    else if es[0].0 == k then es[1..]
    else [es[0]] + RemoveFirst(es[1..], k)
  }

  /** Reference definition: every entry whose key is not `k`, in order. */
  function Without<K(==), V>(es: seq<(K, V)>, k: K): seq<(K, V)> {
    if |es| == 0 then []
    else (if es[0].0 == k then [] else [es[0]]) + Without(es[1..], k)
  }

  /** The scan of a bucket's forward list: the position of the first entry with key `k`. */
  function BucketFind<K(==), V>(b: seq<(K, V)>, k: K): (r: Option<nat>)
    ensures r.Some? ==> r.value < |b| && b[r.value].0 == k
    ensures r.Some? ==> forall j :: 0 <= j < r.value ==> b[j].0 != k
    ensures r.None? <==> forall j :: 0 <= j < |b| ==> b[j].0 != k
  {
    if |b| == 0 then None
    else if b[0].0 == k then Some(0)
    else match BucketFind(b[1..], k)
      case None => None
      case Some(j) => Some(j + 1)
  }

  // ---------------------------------------------------------------------------
  // The representation invariant

  /** `getIndex`: `hash(key) % capacity`, always a valid slot. */
  function Slot<K(==), V>(t: Table<K, V>, k: K): (i: nat)
    requires t.capacity > 0
    ensures i < t.capacity
  {
    t.hash(k) % t.capacity
  }

  /** Every bucket entry is a live entry filed under its own slot. */
  ghost predicate BucketsSound<K, V>(t: Table<K, V>)
    requires Shaped(t)
  {
    forall i, j :: 0 <= i < |t.buckets| && 0 <= j < |t.buckets[i]| ==>
      Slot(t, t.buckets[i][j].0) == i && t.buckets[i][j] in t.order
  }

  /** Every live entry is in the bucket of its slot. */
  ghost predicate BucketsComplete<K, V>(t: Table<K, V>)
    requires Shaped(t)
  {
    forall e :: e in t.order ==> e in t.buckets[Slot(t, e.0)]
  }

  predicate BucketsUnique<K(==), V>(t: Table<K, V>) {
    forall i :: 0 <= i < |t.buckets| ==> UniqueKeys(t.buckets[i])
  }

  /** At most one entry per key, the buckets and `insertionOrder` hold the same
      entries, and `size` counts them. */
  ghost predicate Valid<K, V>(t: Table<K, V>) {
    && Shaped(t)
    && UniqueKeys(t.order)
    && BucketsUnique(t)
    && BucketsSound(t)
    && BucketsComplete(t)
    && t.size == |t.order|
  }

  /** Implied by every insert since construction: before the last insert the
      growth test was false. */
  predicate LoadBounded<K(==), V>(t: Table<K, V>) {
    10 * (t.size - 1) <= 7 * t.capacity
  }

  // ---------------------------------------------------------------------------
  // Construction, growth, insertion

  /** `HashTable(int _cap)`: `_cap` empty buckets. */
  function Empty<K(==), V>(hash: K -> nat, capacity: nat): (t: Table<K, V>)
    requires capacity > 0
    ensures Valid(t) && LoadBounded(t)
    ensures t.capacity == capacity && t.hash == hash && t.order == []
  {
    Table(hash, capacity, seq(capacity, _ => []), [], 0)
  }

  /** `float(size) / capacity >= 0.7`. At exactly 7/10 the single-precision
      quotient rounds below the double 0.7, so the test is a strict `>`. */
  predicate NeedsGrowth<K(==), V>(t: Table<K, V>) {
    10 * t.size > 7 * t.capacity
  }

  /** The table after `e->v = value` on the entry found at `buckets[i][j]`. */
  function Updated<K(==), V>(t: Table<K, V>, i: nat, j: nat, k: K, v: V): Table<K, V>
    requires i < |t.buckets| && j < |t.buckets[i]|
  {
    t.(buckets := t.buckets[i := t.buckets[i][j := (k, v)]], order := UpdateValue(t.order, k, v))
  }

  /** The table after `push_front` into `buckets[i]`, `push_back` into the order and `size++`. */
  function Added<K(==), V>(t: Table<K, V>, i: nat, k: K, v: V): Table<K, V>
    requires i < |t.buckets|
  {
    t.(buckets := t.buckets[i := [(k, v)] + t.buckets[i]], order := t.order + [(k, v)], size := t.size + 1)
  }

  /** The table after `erase_after` on `buckets[i][j]`, the erase from the order and `size--`. */
  function Removed<K(==), V>(t: Table<K, V>, i: nat, j: nat, k: K): Table<K, V>
    requires i < |t.buckets| && j < |t.buckets[i]|
  {
    t.(buckets := t.buckets[i := t.buckets[i][..j] + t.buckets[i][j + 1..]],
       order := RemoveFirst(t.order, k),
       size := if t.size == 0 then 0 else t.size - 1)
  }

  /** The body of `insert` after the growth test: overwrite in place, or
      prepend to the bucket and append to `insertionOrder`. Either way the
      key's bucket then holds the new pair and no other bucket changes. */
  function Place<K(==), V>(t: Table<K, V>, k: K, v: V): (r: Table<K, V>)
    requires Shaped(t)
    ensures Shaped(r) && r.hash == t.hash && r.capacity == t.capacity
    ensures (k, v) in r.buckets[Slot(r, k)]
    ensures forall i :: 0 <= i < |t.buckets| && i != Slot(t, k) ==> r.buckets[i] == t.buckets[i]
  {
    var i := Slot(t, k);
    var b := t.buckets[i];
    match BucketFind(b, k)
    case Some(j) =>
      var r := Updated(t, i, j, k, v);
      assert r.buckets[i][j] == (k, v);
      r
    case None => Added(t, i, k, v)
  }

  /** A valid table and a duplicate-free batch of keys none of which it binds. */
  ghost predicate FreshBatch<K, V>(t: Table<K, V>, es: seq<(K, V)>) {
    Valid(t) && UniqueKeys(es) && Fresh(t.order, es)
  }

  /** `for (Entry* e : oldOrder) insert(e->k, e->v);` with the growth test
      left out; `InsertLoopIsRehash` shows it never fires there. The array
      keeps its size, and a fresh batch is appended to the order. */
  function PlaceAll<K(==), V>(t: Table<K, V>, es: seq<(K, V)>): (r: Table<K, V>)
    requires Shaped(t)
    ensures Shaped(r) && r.hash == t.hash && r.capacity == t.capacity
    ensures FreshBatch(t, es) ==> Valid(r) && r.order == t.order + es
    decreases |es|
  {
    if |es| == 0 then t
    else
      PlaceFreshHead(t, es);
      SnocHead(t.order, es);
      PlaceAll(Place(t, es[0].0, es[0].1), es[1..])
  }

  /** `rehashing`: double the capacity and re-insert every entry in insertion
      order, which keeps every entry, their order and their count. */
  function Rehash<K(==), V>(t: Table<K, V>): (r: Table<K, V>)
    requires Shaped(t)
    ensures Shaped(r) && r.hash == t.hash && r.capacity == 2 * t.capacity
    ensures Valid(t) ==> Valid(r) && r.order == t.order && r.size == t.size
  {
    assert [] + t.order == t.order;
    PlaceAll(Empty(t.hash, 2 * t.capacity), t.order)
  }

  /** `insert(key, value)`: grow first when the load test holds. On a valid
      table a present key keeps its place and count with the new value, and a
      new key is appended and counted. */
  function Insert<K(==), V>(t: Table<K, V>, k: K, v: V): (r: Table<K, V>)
    requires Shaped(t)
    ensures Shaped(r) && r.hash == t.hash
    ensures r.capacity == if NeedsGrowth(t) then 2 * t.capacity else t.capacity
    ensures (k, v) in r.buckets[Slot(r, k)]
    ensures Valid(t) ==> Valid(r)
    ensures Valid(t) && Lookup(t.order, k).Some? ==>
      r.order == UpdateValue(t.order, k, v) && r.size == t.size
    ensures Valid(t) && Lookup(t.order, k).None? ==>
      r.order == t.order + [(k, v)] && r.size == t.size + 1
  {
    var u := if NeedsGrowth(t) then Rehash(t) else t;
    PlaceKeepsValid(u, k, v);
    Place(u, k, v)
  }

  /** The source's rehash loop as written, calling the full `insert`: growth
      included, a fresh batch is appended to the order in call order. */
  function InsertAll<K(==), V>(t: Table<K, V>, es: seq<(K, V)>): (r: Table<K, V>)
    requires Shaped(t)
    ensures Shaped(r) && r.hash == t.hash
    ensures FreshBatch(t, es) ==> Valid(r) && r.order == t.order + es
    decreases |es|
  {
    if |es| == 0 then t
    else
      PlaceFreshHead(t, es);
      SnocHead(t.order, es);
      InsertAll(Insert(t, es[0].0, es[0].1), es[1..])
  }

  // ---------------------------------------------------------------------------
  // Queries

  /** `at(key)`: the stored value, or `out_of_range`. */
  function At<K(==), V>(t: Table<K, V>, k: K): (r: Result<V, HashError>)
    requires Shaped(t)
    ensures Valid(t) ==> r == match Lookup(t.order, k)
                              case Some(v) => Ok(v)
                              case None => Failure(KeyNotFound)
  {
    var b := t.buckets[Slot(t, k)];
    FoundIffPresent(t, k);
    match BucketFind(b, k)
    case Some(j) => Ok(b[j].1)
    case None => Failure(KeyNotFound)
  }

  /** `find(key)`. */
  function Find<K(==), V>(t: Table<K, V>, k: K): (found: bool)
    requires Shaped(t)
    ensures Valid(t) ==> (found <==> Lookup(t.order, k).Some?)
  {
    FoundIffPresent(t, k);
    BucketFind(t.buckets[Slot(t, k)], k).Some?
  }

  /** `operator[](key)`: a present key's value, otherwise insert `TV()`
      (passed as `zero`) and return what `at` then finds. */
  function IndexAccess<K(==), V>(t: Table<K, V>, k: K, zero: V): (r: (Table<K, V>, V))
    requires Shaped(t)
    ensures Shaped(r.0)
    ensures Valid(t) ==> Valid(r.0) && Lookup(r.0.order, k) == Some(r.1)
    ensures Valid(t) && Lookup(t.order, k).Some? ==> r.0 == t
    ensures Valid(t) && Lookup(t.order, k).None? ==> r.0 == Insert(t, k, zero) && r.1 == zero
  {
    var b := t.buckets[Slot(t, k)];
    FoundIffPresent(t, k);
    match BucketFind(b, k)
    case Some(j) => (t, b[j].1)
    case None =>
      var t' := Insert(t, k, zero);
      InsertThenAt(t, k, zero);
      match At(t', k)
      case Ok(v) => (t', v)
      case Failure(_) => (t', zero)
  }

  /** `at(key)` right after `insert(key, value)` finds `value`. */
  lemma InsertThenAt<K, V>(t: Table<K, V>, k: K, v: V)
    requires Shaped(t)
    ensures Valid(t) ==> Valid(Insert(t, k, v)) && At(Insert(t, k, v), k) == Ok(v)
  {
    if Valid(t) {
        InsertLookup(t, k, v, k);
    }
  }

  /** `remove(key)`: unlink from the bucket and from `insertionOrder`. */
  function Remove<K(==), V>(t: Table<K, V>, k: K): (r: (Table<K, V>, bool))
    requires Shaped(t)
    ensures Shaped(r.0) && r.0.hash == t.hash && r.0.capacity == t.capacity
    ensures Valid(t) ==> (r.1 <==> Lookup(t.order, k).Some?)
  {
    var i := Slot(t, k);
    var b := t.buckets[i];
    FoundIffPresent(t, k);
    match BucketFind(b, k)
    case Some(j) => (Removed(t, i, j, k), true)
    case None => (t, false)
  }

  /** `getSize`. */
  function GetSize<K(==), V>(t: Table<K, V>): (n: nat)
    ensures Valid(t) ==> n == |t.order| == |GetAllKeys(t)|
  {
    t.size
  }

  /** `getAllKeys`: the keys in insertion order. */
  function GetAllKeys<K(==), V>(t: Table<K, V>): (ks: seq<K>)
    ensures |ks| == |t.order|
    ensures forall i :: 0 <= i < |ks| ==> Lookup(t.order, ks[i]).Some?
  {
    Keys(t.order)
  }

  /** `getAllElements`: the `(key, value)` pairs in insertion order. */
  function GetAllElements<K(==), V>(t: Table<K, V>): (es: seq<(K, V)>)
    ensures Valid(t) ==> forall i :: 0 <= i < |es| ==> Lookup(t.order, es[i].0) == Some(es[i].1)
  {
    t.order
  }

  // ---------------------------------------------------------------------------
  // HashIterator: a position in `insertionOrder`

  datatype HashCursor = HashCursor(index: nat)

  /** `begin()`: position 0. */
  function Begin<K(==), V>(t: Table<K, V>): (c: HashCursor)
    ensures |t.order| > 0 ==> c.index < |t.order| && Deref(t, c) == t.order[0]
    ensures |t.order| == 0 <==> !NotEqual(c, End(t))
  {
    HashCursor(0)
  }

  /** `end()`: one past the last entry of the order. */
  function End<K(==), V>(t: Table<K, V>): (c: HashCursor)
    ensures c.index == |GetAllElements(t)|
  {
    HashCursor(|t.order|)
  }

  /** `operator++`. */
  function Next(c: HashCursor): (r: HashCursor)
    ensures r.index == c.index + 1
  {
    HashCursor(c.index + 1)
  }

  /** `operator!=` compares positions. */
  function NotEqual(a: HashCursor, b: HashCursor): (r: bool)
    ensures r <==> a.index != b.index
  {
    a.index != b.index
  }

  /** `operator*`: the entry at the position, as a `(key, value)` pair. */
  function Deref<K(==), V>(t: Table<K, V>, c: HashCursor): (e: (K, V))
    requires c.index < |t.order|
    ensures e == GetAllElements(t)[c.index]
    ensures Valid(t) ==> Lookup(t.order, e.0) == Some(e.1)
  {
    t.order[c.index]
  }

  /** The three operators a range-for uses, seen from a position between
      `begin()` and `end()`: `!=` against `end()` holds exactly while an entry
      remains, `*` then yields the next element of `getAllElements`, `++` stays
      within range, and on a valid table `end()` lies `getSize()` steps after
      `begin()`. */
  lemma CursorLoop<K, V>(t: Table<K, V>, c: HashCursor)
    requires c.index <= |t.order|
    ensures NotEqual(c, End(t)) <==> c.index < |GetAllElements(t)|
    ensures NotEqual(c, End(t)) ==>
      && Next(c).index <= |GetAllElements(t)|
      && GetAllElements(t)[..Next(c).index] == GetAllElements(t)[..c.index] + [Deref(t, c)]
    ensures Valid(t) ==> End(t).index - Begin(t).index == GetSize(t)
  {
  }

  /** A range-for over the table: from `begin()` to `end()`, visiting every
      live entry once, in insertion order. */
  method Enumerate<K(==), V>(t: Table<K, V>) returns (out: seq<(K, V)>)
    ensures out == GetAllElements(t)
    ensures Valid(t) ==> |out| == GetSize(t) && UniqueKeys(out)
  {
    out := [];
    var c := Begin(t);
    while NotEqual(c, End(t))
      invariant c.index <= |t.order|
      invariant out == t.order[..c.index]
      decreases |t.order| - c.index
    {
      out := out + [Deref(t, c)];
      c := Next(c);
    }
  }

  // ---------------------------------------------------------------------------
  // Lemmas: the bucket scan agrees with the abstract map

  /** On a valid table the bucket scan finds `k` exactly when `k` is live,
      and then sees its live value. */
  lemma FoundIffPresent<K, V>(t: Table<K, V>, k: K)
    requires Shaped(t)
    ensures Valid(t) ==>
      var b := t.buckets[Slot(t, k)];
      var f := BucketFind(b, k);
      && (f.Some? <==> Lookup(t.order, k).Some?)
      && (f.Some? ==> Lookup(t.order, k) == Some(b[f.value].1))
  {
    if Valid(t) {
      var i := Slot(t, k);
      var b := t.buckets[i];
      var f := BucketFind(b, k);
      if f.Some? {
        assert b[f.value] in t.order;
      }
      var l := Lookup(t.order, k);
      if l.Some? {
        var n :| 0 <= n < |t.order| && t.order[n] == (k, l.value);
        assert t.order[n] in t.buckets[Slot(t, t.order[n].0)];
      }
    }
  }

  // ---------------------------------------------------------------------------
  // Lemmas: entry lists

  /** Overwriting `k`'s value changes what `k` maps to and nothing else. */
  lemma {:induction false} LookupUpdate<K, V>(es: seq<(K, V)>, k: K, v: V, x: K)
    ensures Lookup(UpdateValue(es, k, v), x) ==
      if x != k then Lookup(es, x) else if Lookup(es, k).Some? then Some(v) else None
    decreases |es|
  {
    if |es| > 0 {
      var r := UpdateValue(es, k, v);
      assert r[1..] == UpdateValue(es[1..], k, v);
      LookupUpdate(es[1..], k, v, x);
    }
  }

  /** Appending an entry with a fresh key adds exactly that binding. */
  lemma {:induction false} LookupAppend<K, V>(es: seq<(K, V)>, e: (K, V), x: K)
    requires Lookup(es, e.0).None?
    ensures Lookup(es + [e], x) == if x == e.0 then Some(e.1) else Lookup(es, x)
    decreases |es|
  {
    if |es| > 0 {
      assert (es + [e])[1..] == es[1..] + [e];
      LookupAppend(es[1..], e, x);
    }
  }

  lemma UniqueCons<K, V>(e: (K, V), es: seq<(K, V)>)
    ensures UniqueKeys([e] + es) <==> Lookup(es, e.0).None? && UniqueKeys(es)
  {
    var s := [e] + es;
    assert forall i :: 0 <= i < |es| ==> s[i + 1] == es[i];
    if UniqueKeys(s) {
      forall i | 0 <= i < |es| ensures es[i].0 != e.0 {
        assert s[0].0 != s[i + 1].0;
      }
      forall i, j | 0 <= i < j < |es| ensures es[i].0 != es[j].0 {
        assert s[i + 1].0 != s[j + 1].0;
      }
    }
    if Lookup(es, e.0).None? && UniqueKeys(es) {
      forall i, j | 0 <= i < j < |s| ensures s[i].0 != s[j].0 {
        if i > 0 {
          assert s[i] == es[i - 1];
        }
      }
    }
  }

  /** Erasing every entry keyed `k` unbinds `k` and keeps every other binding. */
  lemma {:induction false} LookupWithout<K, V>(es: seq<(K, V)>, k: K, x: K)
    ensures Lookup(Without(es, k), x) == if x == k then None else Lookup(es, x)
    decreases |es|
  {
    if |es| > 0 {
      LookupWithout(es[1..], k, x);
      var p := if es[0].0 == k then [] else [es[0]];
      var w := Without(es[1..], k);
      if es[0].0 != k {
        assert (p + w)[0] == es[0] && (p + w)[1..] == w;
      } else {
        assert p + w == w;
      }
    }
  }

  lemma {:induction false} WithoutMembers<K, V>(es: seq<(K, V)>, k: K, e: (K, V))
    ensures e in Without(es, k) <==> e in es && e.0 != k
    decreases |es|
  {
    if |es| > 0 {
      WithoutMembers(es[1..], k, e);
      assert es == [es[0]] + es[1..];
    }
  }

  lemma {:induction false} WithoutUnique<K, V>(es: seq<(K, V)>, k: K)
    requires UniqueKeys(es)
    ensures UniqueKeys(Without(es, k))
    decreases |es|
  {
    if |es| > 0 {
      UniqueCons(es[0], es[1..]);
      assert es == [es[0]] + es[1..];
      WithoutUnique(es[1..], k);
      if es[0].0 != k {
        LookupWithout(es[1..], k, es[0].0);
        UniqueCons(es[0], Without(es[1..], k));
      } else {
        assert Without(es, k) == Without(es[1..], k);
      }
    }
  }

  lemma {:induction false} WithoutSize<K, V>(es: seq<(K, V)>, k: K)
    requires UniqueKeys(es)
    ensures |Without(es, k)| == if Lookup(es, k).Some? then |es| - 1 else |es|
    decreases |es|
  {
    if |es| > 0 {
      UniqueCons(es[0], es[1..]);
      assert es == [es[0]] + es[1..];
      WithoutSize(es[1..], k);
    }
  }

  /** With distinct keys, erasing the first match erases every match. */
  lemma {:induction false} RemoveFirstIsWithout<K, V>(es: seq<(K, V)>, k: K)
    requires UniqueKeys(es)
    ensures RemoveFirst(es, k) == Without(es, k)
    decreases |es|
  {
    if |es| > 0 {
      UniqueCons(es[0], es[1..]);
      assert es == [es[0]] + es[1..];
      RemoveFirstIsWithout(es[1..], k);
      if es[0].0 == k {
        LookupWithout(es[1..], k, k);
        NoKeyWithoutSame(es[1..], k);
      }
    }
  }

  lemma {:induction false} NoKeyWithoutSame<K, V>(es: seq<(K, V)>, k: K)
    requires Lookup(es, k).None?
    ensures Without(es, k) == es
    decreases |es|
  {
    if |es| > 0 {
      NoKeyWithoutSame(es[1..], k);
      assert es == [es[0]] + es[1..];
    }
  }

  // ---------------------------------------------------------------------------
  // Lemmas: the invariant

  /** Overwriting the entry found at `buckets[i][j]` keeps the table valid. */
  lemma UpdateKeepsValid<K, V>(t: Table<K, V>, i: nat, j: nat, k: K, v: V)
    requires Valid(t) && i == Slot(t, k) && j < |t.buckets[i]| && t.buckets[i][j].0 == k
    ensures Valid(Updated(t, i, j, k, v))
  {
    var t' := Updated(t, i, j, k, v);
    UpdateSound(t, i, j, k, v);
    UpdateComplete(t, i, j, k, v);
    forall i2 | 0 <= i2 < |t'.buckets| ensures UniqueKeys(t'.buckets[i2]) {
      if i2 == i {
        SameKeysUnique(t.buckets[i], t'.buckets[i]);
      }
    }
    SameKeysUnique(t.order, t'.order);
  }

  lemma SameKeysUnique<K, V>(a: seq<(K, V)>, b: seq<(K, V)>)
    requires UniqueKeys(a) && |a| == |b|
    requires forall n :: 0 <= n < |a| ==> a[n].0 == b[n].0
    ensures UniqueKeys(b)
  {
  }

  lemma UpdateSound<K, V>(t: Table<K, V>, i: nat, j: nat, k: K, v: V)
    requires Valid(t) && i == Slot(t, k) && j < |t.buckets[i]| && t.buckets[i][j].0 == k
    ensures Shaped(Updated(t, i, j, k, v)) && BucketsSound(Updated(t, i, j, k, v))
  {
    var t' := Updated(t, i, j, k, v);
    var b := t.buckets[i];
    assert b[j] in t.order;
    var n :| 0 <= n < |t.order| && t.order[n] == b[j];
    assert t'.order[n] == (k, v);
    forall i2, j2 | 0 <= i2 < |t'.buckets| && 0 <= j2 < |t'.buckets[i2]|
      ensures Slot(t', t'.buckets[i2][j2].0) == i2 && t'.buckets[i2][j2] in t'.order
    {
      if i2 != i || j2 != j {
        var e := t.buckets[i2][j2];
        assert t'.buckets[i2][j2] == e;
        assert e.0 != k by {
          if i2 == i {
            assert UniqueKeys(b);
          }
        }
        assert e in t.order;
        var m :| 0 <= m < |t.order| && t.order[m] == e;
        assert t'.order[m] == e;
      }
    }
  }

  lemma UpdateComplete<K, V>(t: Table<K, V>, i: nat, j: nat, k: K, v: V)
    requires Valid(t) && i == Slot(t, k) && j < |t.buckets[i]| && t.buckets[i][j].0 == k
    ensures Shaped(Updated(t, i, j, k, v)) && BucketsComplete(Updated(t, i, j, k, v))
  {
    var t' := Updated(t, i, j, k, v);
    forall e | e in t'.order
      ensures e in t'.buckets[Slot(t', e.0)]
    {
      var m :| 0 <= m < |t'.order| && t'.order[m] == e;
      if e.0 == k {
        assert t'.buckets[i][j] == e;
      } else {
        assert t.order[m] == e;
        var i2 := Slot(t, e.0);
        var j2 :| 0 <= j2 < |t.buckets[i2]| && t.buckets[i2][j2] == e;
        assert t'.buckets[i2][j2] == e;
      }
    }
  }

  /** Filing an absent key at the front of its bucket and the back of the
      order keeps the table valid. */
  lemma AddKeepsValid<K, V>(t: Table<K, V>, i: nat, k: K, v: V)
    requires Valid(t) && i == Slot(t, k) && Lookup(t.order, k).None?
    ensures Valid(Added(t, i, k, v))
  {
    var b := t.buckets[i];
    var t' := Added(t, i, k, v);
    forall i2, j2 | 0 <= i2 < |t'.buckets| && 0 <= j2 < |t'.buckets[i2]|
      ensures Slot(t', t'.buckets[i2][j2].0) == i2 && t'.buckets[i2][j2] in t'.order
    {
      if i2 == i && j2 > 0 {
        assert t'.buckets[i2][j2] == b[j2 - 1];
      }
    }
    assert BucketsSound(t');
    forall e | e in t'.order
      ensures e in t'.buckets[Slot(t', e.0)]
    {
      if e != (k, v) {
        assert e in t.order;
      }
    }
    assert BucketsComplete(t');
    forall j2 | 0 <= j2 < |b| ensures b[j2].0 != k {
      assert b[j2] in t.order;
    }
    UniqueCons((k, v), b);
    UniqueSnoc(t.order, (k, v));
  }

  lemma UniqueSnoc<K, V>(es: seq<(K, V)>, e: (K, V))
    requires UniqueKeys(es) && Lookup(es, e.0).None?
    ensures UniqueKeys(es + [e])
  {
  }

  /** Unlinking the entry found at `buckets[i][j]` keeps the table valid and
      erases exactly key `k` from the order. */
  lemma RemovedKeepsValid<K, V>(t: Table<K, V>, i: nat, j: nat, k: K)
    requires Valid(t) && i == Slot(t, k) && j < |t.buckets[i]| && t.buckets[i][j].0 == k
    ensures Valid(Removed(t, i, j, k))
    ensures Removed(t, i, j, k).order == Without(t.order, k)
  {
    var t' := Removed(t, i, j, k);
    RemoveFirstIsWithout(t.order, k);
    WithoutUnique(t.order, k);
    WithoutSize(t.order, k);
    assert t.buckets[i][j] in t.order;
    RemovedSound(t, i, j, k);
    RemovedComplete(t, i, j, k);
    forall i2 | 0 <= i2 < |t'.buckets| ensures UniqueKeys(t'.buckets[i2]) {
      if i2 == i {
        DropUnique(t.buckets[i], j);
      }
    }
  }

  /** Dropping one entry from a list with distinct keys keeps them distinct. */
  lemma DropUnique<K, V>(b: seq<(K, V)>, j: nat)
    requires UniqueKeys(b) && j < |b|
    ensures UniqueKeys(b[..j] + b[j + 1..])
  {
    var c := b[..j] + b[j + 1..];
    assert forall m :: 0 <= m < |c| ==> c[m] == if m < j then b[m] else b[m + 1];
  }

  lemma RemovedSound<K, V>(t: Table<K, V>, i: nat, j: nat, k: K)
    requires Valid(t) && i == Slot(t, k) && j < |t.buckets[i]| && t.buckets[i][j].0 == k
    ensures Shaped(Removed(t, i, j, k)) && BucketsSound(Removed(t, i, j, k))
  {
    var t' := Removed(t, i, j, k);
    var b := t.buckets[i];
    RemoveFirstIsWithout(t.order, k);
    forall i2, j2 | 0 <= i2 < |t'.buckets| && 0 <= j2 < |t'.buckets[i2]|
      ensures Slot(t', t'.buckets[i2][j2].0) == i2 && t'.buckets[i2][j2] in t'.order
    {
      var e := t'.buckets[i2][j2];
      if i2 == i {
        var j3 := if j2 < j then j2 else j2 + 1;
        assert e == b[j3];
        assert UniqueKeys(b);
        assert e.0 != k;
      } else {
        assert e == t.buckets[i2][j2];
      }
      assert e in t.order;
      WithoutMembers(t.order, k, e);
    }
  }

  lemma RemovedComplete<K, V>(t: Table<K, V>, i: nat, j: nat, k: K)
    requires Valid(t) && i == Slot(t, k) && j < |t.buckets[i]| && t.buckets[i][j].0 == k
    ensures Shaped(Removed(t, i, j, k)) && BucketsComplete(Removed(t, i, j, k))
  {
    var t' := Removed(t, i, j, k);
    var b := t.buckets[i];
    RemoveFirstIsWithout(t.order, k);
    forall e | e in t'.order
      ensures e in t'.buckets[Slot(t', e.0)]
    {
      WithoutMembers(t.order, k, e);
      var i2 := Slot(t, e.0);
      assert e in t.buckets[i2];
      if i2 == i {
        var j2 :| 0 <= j2 < |b| && b[j2] == e;
        assert j2 != j;
        var c := t'.buckets[i];
        if j2 < j {
          assert c[j2] == e;
        } else {
          assert c[j2 - 1] == e;
        }
      }
    }
  }

  // ---------------------------------------------------------------------------
  // Lemmas: insertion, growth and removal on valid tables

  /** No key of `es` is bound in `order`. */
  predicate Fresh<K(==), V>(order: seq<(K, V)>, es: seq<(K, V)>) {
    forall n :: 0 <= n < |es| ==> Lookup(order, es[n].0).None?
  }

  /** `insert` without growth: an existing key keeps its place in the order
      and takes the new value; a new key is appended. */
  lemma PlaceKeepsValid<K, V>(t: Table<K, V>, k: K, v: V)
    requires Shaped(t)
    ensures Valid(t) ==> Valid(Place(t, k, v))
    ensures Valid(t) && Lookup(t.order, k).Some? ==>
      Place(t, k, v).order == UpdateValue(t.order, k, v) && Place(t, k, v).size == t.size
    ensures Valid(t) && Lookup(t.order, k).None? ==>
      Place(t, k, v).order == t.order + [(k, v)] && Place(t, k, v).size == t.size + 1
  {
    if Valid(t) {
      FoundIffPresent(t, k);
      var i := Slot(t, k);
      match BucketFind(t.buckets[i], k)
      case Some(j) => UpdateKeepsValid(t, i, j, k, v);
      case None => AddKeepsValid(t, i, k, v);
    }
  }

  /** Placing the head of a fresh, duplicate-free batch leaves the tail fresh. */
  lemma PlaceFreshHead<K, V>(t: Table<K, V>, es: seq<(K, V)>)
    requires Shaped(t) && |es| > 0
    ensures FreshBatch(t, es) ==> Lookup(t.order, es[0].0).None?
    ensures FreshBatch(t, es) ==> Valid(Place(t, es[0].0, es[0].1))
    ensures FreshBatch(t, es) ==> Place(t, es[0].0, es[0].1).order == t.order + [es[0]]
    ensures FreshBatch(t, es) ==> Place(t, es[0].0, es[0].1).size == t.size + 1
    ensures FreshBatch(t, es) ==> UniqueKeys(es[1..]) && Fresh(t.order + [es[0]], es[1..])
  {
    if FreshBatch(t, es) {
      PlaceKeepsValid(t, es[0].0, es[0].1);
      UniqueCons(es[0], es[1..]);
      assert es == [es[0]] + es[1..];
      forall n | 0 <= n < |es[1..]| ensures Lookup(t.order + [es[0]], es[1..][n].0).None? {
        assert es[1..][n] == es[n + 1];
        LookupAppend(t.order, es[0], es[n + 1].0);
      }
    }
  }

  lemma SnocHead<T>(a: seq<T>, es: seq<T>)
    requires |es| > 0
    ensures a + [es[0]] + es[1..] == a + es
  {
    assert es == [es[0]] + es[1..];
  }

  lemma KeysOfUpdate<K, V>(es: seq<(K, V)>, k: K, v: V)
    ensures Keys(UpdateValue(es, k, v)) == Keys(es)
  {
  }

  lemma KeysOfSnoc<K, V>(es: seq<(K, V)>, e: (K, V))
    ensures Keys(es + [e]) == Keys(es) + [e.0]
  {
  }

  /** `insert(k, v)` binds `k` to `v` and leaves every other key's binding alone. */
  lemma InsertLookup<K, V>(t: Table<K, V>, k: K, v: V, x: K)
    requires Valid(t)
    ensures Lookup(Insert(t, k, v).order, x) == if x == k then Some(v) else Lookup(t.order, x)
  {
    if Lookup(t.order, k).Some? {
      LookupUpdate(t.order, k, v, x);
    } else {
      LookupAppend(t.order, (k, v), x);
    }
  }

  /** `getAllKeys` after `insert(k, v)`: unchanged for a present key, `k` at the end otherwise. */
  lemma InsertKeyOrder<K, V>(t: Table<K, V>, k: K, v: V)
    requires Valid(t)
    ensures GetAllKeys(Insert(t, k, v)) ==
      if Lookup(t.order, k).Some? then GetAllKeys(t) else GetAllKeys(t) + [k]
  {
    KeysOfUpdate(t.order, k, v);
    KeysOfSnoc(t.order, (k, v));
  }

  /** Below the threshold, a new key goes to the front of its own bucket and
      every other bucket is untouched. */
  lemma InsertNewPrepends<K, V>(t: Table<K, V>, k: K, v: V)
    requires Valid(t) && !NeedsGrowth(t) && Lookup(t.order, k).None?
    ensures Insert(t, k, v).buckets == t.buckets[Slot(t, k) := [(k, v)] + t.buckets[Slot(t, k)]]
  {
    FoundIffPresent(t, k);
  }

  /** Inserting keeps the load within one entry of the growth threshold. */
  lemma InsertKeepsLoad<K, V>(t: Table<K, V>, k: K, v: V)
    requires Valid(t) && LoadBounded(t)
    ensures LoadBounded(Insert(t, k, v))
  {
  }

  /** On a table reached by inserts, one doubling brings the load back under the threshold. */
  lemma RehashRelievesLoad<K, V>(t: Table<K, V>)
    requires Valid(t) && LoadBounded(t)
    ensures !NeedsGrowth(Rehash(t))
  {
  }

  /** A batch of fresh keys that fits under the threshold never triggers
      growth, so the full `insert` agrees with `Place`. */
  lemma {:induction false} InsertAllIsPlaceAll<K, V>(u: Table<K, V>, es: seq<(K, V)>)
    requires Valid(u) && UniqueKeys(es) && Fresh(u.order, es)
    requires 10 * (|u.order| + |es| - 1) <= 7 * u.capacity
    ensures InsertAll(u, es) == PlaceAll(u, es)
    decreases |es|
  {
    if |es| > 0 {
      assert !NeedsGrowth(u);
      PlaceFreshHead(u, es);
      InsertAllIsPlaceAll(Place(u, es[0].0, es[0].1), es[1..]);
    }
  }

  /** The rehash loop of the source calls the full `insert`, growth test
      included; on a table reached by inserts that test never fires inside
      the loop, so the loop is exactly `Rehash`. */
  lemma InsertLoopIsRehash<K, V>(t: Table<K, V>)
    requires Valid(t) && LoadBounded(t)
    ensures InsertAll(Empty(t.hash, 2 * t.capacity), t.order) == Rehash(t)
  {
    InsertAllIsPlaceAll(Empty(t.hash, 2 * t.capacity), t.order);
  }

  /** Inserting distinct fresh keys one after another, growth included, lists
      them after the old keys in call order: key order survives every rehash. */
  lemma InsertAllAppends<K, V>(t: Table<K, V>, es: seq<(K, V)>)
    requires Valid(t) && UniqueKeys(es) && Fresh(t.order, es)
    ensures GetAllKeys(InsertAll(t, es)) == GetAllKeys(t) + Keys(es)
  {
    KeysOfAppend(t.order, es);
  }

  lemma KeysOfAppend<K, V>(a: seq<(K, V)>, b: seq<(K, V)>)
    ensures Keys(a + b) == Keys(a) + Keys(b)
  {
  }

  /** While the entry count stays at or below 7/10 of the capacity before each
      insert, no insert grows the table: eight fresh keys leave a table of
      capacity 10 at capacity 10, and only the ninth doubles it. */
  lemma InsertAllWithinThreshold<K, V>(t: Table<K, V>, es: seq<(K, V)>)
    requires Valid(t) && UniqueKeys(es) && Fresh(t.order, es)
    requires 10 * (|t.order| + |es| - 1) <= 7 * t.capacity
    ensures InsertAll(t, es).capacity == t.capacity
    ensures |es| > 0 && 10 * (|t.order| + |es|) > 7 * t.capacity ==>
      InsertAll(t, es).order == t.order + es && NeedsGrowth(InsertAll(t, es))
  {
    InsertAllIsPlaceAll(t, es);
  }

  /** After `remove(k)` the table is valid and its order has lost exactly `k`'s entry. */
  lemma RemoveKeepsValid<K, V>(t: Table<K, V>, k: K)
    requires Valid(t)
    ensures Valid(Remove(t, k).0) && Remove(t, k).0.order == Without(t.order, k)
    ensures Remove(t, k).0.size == if Lookup(t.order, k).Some? then t.size - 1 else t.size
  {
    FoundIffPresent(t, k);
    WithoutSize(t.order, k);
    var i := Slot(t, k);
    match BucketFind(t.buckets[i], k)
    case Some(j) => RemovedKeepsValid(t, i, j, k);
    case None => NoKeyWithoutSame(t.order, k);
  }

  /** After `remove(k)` no bucket holds an entry keyed `k`. */
  lemma RemoveClearsBuckets<K, V>(t: Table<K, V>, k: K)
    requires Valid(t)
    ensures forall i, j :: 0 <= i < |Remove(t, k).0.buckets| && 0 <= j < |Remove(t, k).0.buckets[i]| ==>
      Remove(t, k).0.buckets[i][j].0 != k
  {
    var r := Remove(t, k).0;
    RemoveKeepsValid(t, k);
    LookupWithout(t.order, k, k);
    forall i, j | 0 <= i < |r.buckets| && 0 <= j < |r.buckets[i]| ensures r.buckets[i][j].0 != k {
      assert r.buckets[i][j] in r.order;
    }
  }

  /** `remove(k)` unbinds `k` and leaves every other key's binding alone. */
  lemma RemoveLookup<K, V>(t: Table<K, V>, k: K, x: K)
    requires Valid(t)
    ensures Lookup(Remove(t, k).0.order, x) == if x == k then None else Lookup(t.order, x)
  {
    RemoveKeepsValid(t, k);
    LookupWithout(t.order, k, x);
  }

  /** `remove` never raises the load. */
  lemma RemoveKeepsLoad<K, V>(t: Table<K, V>, k: K)
    requires Valid(t) && LoadBounded(t)
    ensures LoadBounded(Remove(t, k).0)
  {
    RemoveKeepsValid(t, k);
  }

  /** `at` behaves as a finite map under `insert`. */
  lemma AtAfterInsert<K, V>(t: Table<K, V>, k: K, v: V, x: K)
    requires Valid(t)
    ensures At(Insert(t, k, v), x) == if x == k then Ok(v) else At(t, x)
  {
    InsertLookup(t, k, v, x);
  }

  /** `at` behaves as a finite map under `remove`. */
  lemma AtAfterRemove<K, V>(t: Table<K, V>, k: K, x: K)
    requires Valid(t)
    ensures At(Remove(t, k).0, x) == if x == k then Failure(KeyNotFound) else At(t, x)
  {
    RemoveKeepsValid(t, k);
    RemoveLookup(t, k, x);
  }

  // ---------------------------------------------------------------------------
  // Lemmas: the buckets and the order hold the same entries

  /** All bucket lists, front to back. */
  function Flatten<K, V>(bs: seq<seq<(K, V)>>): seq<(K, V)> {
    if |bs| == 0 then [] else bs[0] + Flatten(bs[1..])
  }

  /** In a list with distinct keys each entry occurs at most once. */
  lemma {:induction false} CountUnique<K, V>(es: seq<(K, V)>, e: (K, V))
    requires UniqueKeys(es)
    ensures multiset(es)[e] == if e in es then 1 else 0
    decreases |es|
  {
    if |es| > 0 {
      UniqueCons(es[0], es[1..]);
      assert es == [es[0]] + es[1..];
      CountUnique(es[1..], e);
      if es[0] == e {
        assert e !in es[1..];
      }
    }
  }

  /** An entry that can only sit in list `i` occurs in the flattening as often as in list `i`. */
  lemma {:induction false} FlattenCount<K, V>(bs: seq<seq<(K, V)>>, e: (K, V), i: int)
    requires forall i2 :: 0 <= i2 < |bs| && i2 != i ==> e !in bs[i2]
    ensures multiset(Flatten(bs))[e] == if 0 <= i < |bs| then multiset(bs[i])[e] else 0
    decreases |bs|
  {
    if |bs| > 0 {
      assert forall i2 :: 0 <= i2 < |bs| - 1 && i2 != i - 1 ==> bs[1..][i2] == bs[i2 + 1];
      FlattenCount(bs[1..], e, i - 1);
      assert multiset(Flatten(bs)) == multiset(bs[0]) + multiset(Flatten(bs[1..]));
      if i != 0 {
        assert multiset(bs[0])[e] == 0;
      }
    }
  }

  /** Each entry occurs in the buckets as often as in the order. */
  lemma EntryCount<K, V>(t: Table<K, V>, e: (K, V))
    requires Valid(t)
    ensures multiset(Flatten(t.buckets))[e] == multiset(t.order)[e]
  {
    var i := Slot(t, e.0);
    forall i2 | 0 <= i2 < |t.buckets| && i2 != i ensures e !in t.buckets[i2] {
    }
    FlattenCount(t.buckets, e, i);
    CountUnique(t.buckets[i], e);
    CountUnique(t.order, e);
    if e in t.buckets[i] {
      var j :| 0 <= j < |t.buckets[i]| && t.buckets[i][j] == e;
      assert e in t.order;
    }
  }

  /** The buckets, taken together, hold exactly the entries of `insertionOrder`,
      each once. */
  lemma BucketsHoldOrder<K, V>(t: Table<K, V>)
    requires Valid(t)
    ensures multiset(Flatten(t.buckets)) == multiset(t.order)
  {
    var inBuckets, inOrder := multiset(Flatten(t.buckets)), multiset(t.order);
    forall e ensures inBuckets[e] == inOrder[e] {
      EntryCount(t, e);
    }
    MultisetExt(inBuckets, inOrder);
  }

  lemma MultisetExt<T>(a: multiset<T>, b: multiset<T>)
    requires forall e :: a[e] == b[e]
    ensures a == b
  {
  }
}
