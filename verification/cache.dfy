/** `ImageAnalysisCache` of `app/core/cache.py`: an `OrderedDict` from cache
    key to (timestamp, result), least recently used first, bounded by
    `max_size` and expiring entries lazily after `ttl_seconds`.

    The monotonic clock is the `now` argument of each operation. The stored
    results are values of type `V`, so the deep copies the source makes on
    `set` and `get` are Dafny's value semantics: nothing a caller does to a
    result it handed in or got back can reach the stored one. */
module Cache {
  import opened Wrappers

  datatype Entry<V> = Entry(timestamp: real, result: V)

  /** The contents of the ordered dictionary: its keys in order (oldest use
      first) and the entry of each key. */
  datatype Store<V> = Store(order: seq<string>, entries: map<string, Entry<V>>)

  predicate NoDuplicates(s: seq<string>)
  {
    forall i, j :: 0 <= i < j < |s| ==> s[i] != s[j]
  }

  /** The order lists each key of the map exactly once. */
  ghost predicate Coherent<V>(st: Store<V>)
  {
    && NoDuplicates(st.order)
    && (forall k :: k in st.entries <==> k in st.order)
  }

  /** What every operation keeps: a coherent store that holds at most
      `maxSize` entries (none at all when `maxSize` is not positive). */
  ghost predicate Invariant<V>(st: Store<V>, maxSize: int)
  {
    Coherent(st) && (|st.order| <= maxSize || st.order == [])
  }

  /** `s` without `key`, the other keys in their old order. */
  function Without(s: seq<string>, key: string): (r: seq<string>)
    ensures forall x :: x in r <==> x in s && x != key
    ensures key !in s ==> r == s
    ensures NoDuplicates(s) && key in s ==> |r| == |s| - 1
  {
    if s == [] then []
    else if s[0] == key then Without(s[1..], key)
    else [s[0]] + Without(s[1..], key)
  }

  /** `Without` filters piecewise: removing a key from a concatenation
      removes it from each part and keeps the parts in order. */
  lemma {:induction false} WithoutConcat(a: seq<string>, b: seq<string>, key: string)
    ensures Without(a + b, key) == Without(a, key) + Without(b, key)
  {
    if a == [] {
      assert a + b == b;
    } else {
      assert (a + b)[0] == a[0] && (a + b)[1..] == a[1..] + b;
      WithoutConcat(a[1..], b, key);
      if a[0] != key {
        assert Without(a + b, key) == [a[0]] + (Without(a[1..], key) + Without(b, key));
      }
    }
  }

  /** On one key, `Without` keeps it unless it is the removed one. Together
      with `WithoutConcat` this pins `Without` as the order-keeping filter. */
  lemma WithoutSingleton(x: string, key: string)
    ensures Without([x], key) == if x == key then [] else [x]
  {
  }

  /** The tail of a list without repetitions has none, nor its head. */
  lemma DistinctTail(s: seq<string>)
    requires NoDuplicates(s) && s != []
    ensures NoDuplicates(s[1..]) && s[0] !in s[1..]
  {
    forall i, j | 0 <= i < j < |s[1..]| ensures s[1..][i] != s[1..][j] {
      assert s[1..][i] == s[i + 1] && s[1..][j] == s[j + 1];
    }
  }

  /** Appending a key that is not there keeps a list free of repetitions. */
  lemma DistinctAppend(s: seq<string>, key: string)
    requires NoDuplicates(s) && key !in s
    ensures NoDuplicates(s + [key])
  {
    forall i, j | 0 <= i < j < |s + [key]| ensures (s + [key])[i] != (s + [key])[j] {
      assert (s + [key])[i] == s[i];
      if j < |s| { assert (s + [key])[j] == s[j]; }
    }
  }

  /** Prepending a key that is not there keeps a list free of repetitions. */
  lemma DistinctPrepend(key: string, s: seq<string>)
    requires NoDuplicates(s) && key !in s
    ensures NoDuplicates([key] + s)
  {
    forall i, j | 0 <= i < j < |[key] + s| ensures ([key] + s)[i] != ([key] + s)[j] {
      assert ([key] + s)[j] == s[j - 1];
      if i > 0 { assert ([key] + s)[i] == s[i - 1]; }
    }
  }

  /** Removing a key from a list without repetitions leaves one. */
  lemma {:induction false} WithoutDistinct(s: seq<string>, key: string)
    requires NoDuplicates(s)
    ensures NoDuplicates(Without(s, key))
  {
    if s != [] {
      DistinctTail(s);
      WithoutDistinct(s[1..], key);
      if s[0] != key {
        DistinctPrepend(s[0], Without(s[1..], key));
      }
    }
  }

  /** `OrderedDict.move_to_end(key)` on the key order. */
  function MoveToEnd(s: seq<string>, key: string): (r: seq<string>)
    ensures |r| > 0 && r[|r| - 1] == key
    ensures r[..|r| - 1] == Without(s, key)
  {
    Without(s, key) + [key]
  }

  /** `time.monotonic() - timestamp > self._ttl`. */
  predicate Expired<V>(e: Entry<V>, now: real, ttl: int)
  {
    now - e.timestamp > ttl as real
  }

  /** `get(key)` at time `now`: the result and the store afterwards. */
  function Lookup<V>(st: Store<V>, key: string, now: real, ttl: int): (r: (Option<V>, Store<V>))
    ensures r.0.Some? <==> key in st.entries && !Expired(st.entries[key], now, ttl)
    ensures r.1.entries.Keys <= st.entries.Keys
    ensures forall k :: k in r.1.entries ==> r.1.entries[k] == st.entries[k]
  {
    if key !in st.entries then (None, st)
    else if Expired(st.entries[key], now, ttl) then
      (None, Store(Without(st.order, key), st.entries - {key}))
    else (Some(st.entries[key].result), Store(MoveToEnd(st.order, key), st.entries))
  }

  /** `set(key, result)` at time `now`: the store afterwards. */
  function Insert<V>(st: Store<V>, key: string, result: V, now: real, maxSize: int): (r: Store<V>)
    ensures r.entries.Keys <= st.entries.Keys + {key}
    ensures forall k :: k in r.entries && k != key ==> r.entries[k] == st.entries[k]
    ensures key in r.entries ==> r.entries[key] == Entry(now, result)
  {
    var order := if key in st.entries then MoveToEnd(st.order, key) else st.order + [key];
    var entries := st.entries[key := Entry(now, result)];
    if |entries| > maxSize then Store(order[1..], entries - {order[0]})
    else Store(order, entries)
  }

  // ---------------------------------------------------------------------
  // Sizes

  lemma {:induction false} DistinctCardinality(s: seq<string>)
    requires NoDuplicates(s)
    ensures |set x | x in s| == |s|
  {
    if s != [] {
      DistinctCardinality(s[1..]);
      assert (set x | x in s) == {s[0]} + (set x | x in s[1..]);
      assert s[0] !in s[1..];
    }
  }

  /** In a coherent store the order is as long as the map is large. */
  lemma CoherentSize<V>(st: Store<V>)
    requires Coherent(st)
    ensures |st.entries| == |st.order|
  {
    DistinctCardinality(st.order);
    assert st.entries.Keys == set x | x in st.order;
  }

  // ---------------------------------------------------------------------
  // get

  /** A key that is not stored is a miss that changes nothing. */
  lemma LookupAbsent<V>(st: Store<V>, key: string, now: real, ttl: int)
    requires key !in st.entries
    ensures Lookup(st, key, now, ttl) == (None, st)
  {
  }

  /** An expired entry is a miss, and it is removed from the order and the
      map alike. */
  lemma LookupExpired<V>(st: Store<V>, key: string, now: real, ttl: int)
    requires Coherent(st)
    requires key in st.entries && now - st.entries[key].timestamp > ttl as real
    ensures var (r, st') := Lookup(st, key, now, ttl);
            && r == None
            && st'.entries == st.entries - {key} && st'.order == Without(st.order, key)
            && key !in st'.entries && key !in st'.order
            && st'.entries.Keys == st.entries.Keys - {key}
            && |st'.entries| == |st.entries| - 1
  {
    CoherentSize(st);
  }

  /** A hit returns the stored result and moves only that key to the most
      recently used end: the keys, every entry and every timestamp stay. */
  lemma LookupHit<V>(st: Store<V>, key: string, now: real, ttl: int)
    requires Coherent(st)
    requires key in st.entries && now - st.entries[key].timestamp <= ttl as real
    ensures var (r, st') := Lookup(st, key, now, ttl);
            && r == Some(st.entries[key].result)
            && st'.entries == st.entries
            && st'.order[|st'.order| - 1] == key
            && st'.order[..|st'.order| - 1] == Without(st.order, key)
            && |st'.order| == |st.order|
  {
  }

  /** `get` keeps the invariant. */
  lemma LookupKeepsInvariant<V>(st: Store<V>, key: string, now: real, ttl: int, maxSize: int)
    requires Invariant(st, maxSize)
    ensures Invariant(Lookup(st, key, now, ttl).1, maxSize)
  {
    if key in st.entries {
      var st' := Lookup(st, key, now, ttl).1;
      var w := Without(st.order, key);
      WithoutDistinct(st.order, key);
      if !Expired(st.entries[key], now, ttl) {
        DistinctAppend(w, key);
      }
    }
  }

  // ---------------------------------------------------------------------
  // set

  /** `set` keeps the invariant: the order lists each key once and the size
      never exceeds `maxSize`. */
  lemma InsertKeepsInvariant<V>(st: Store<V>, key: string, result: V, now: real, maxSize: int)
    requires Invariant(st, maxSize)
    ensures Invariant(Insert(st, key, result, now, maxSize), maxSize)
  {
    var order := if key in st.entries then MoveToEnd(st.order, key) else st.order + [key];
    var entries := st.entries[key := Entry(now, result)];
    var base := if key in st.entries then Without(st.order, key) else st.order;
    WithoutDistinct(st.order, key);
    assert order == base + [key];
    DistinctAppend(base, key);
    var grown := Store(order, entries);
    assert Coherent(grown);
    CoherentSize(grown);
    CoherentSize(st);
    assert |order| <= |st.order| + 1;
    if |entries| > maxSize {
      DistinctTail(order);
      assert Coherent(Store(order[1..], entries - {order[0]}));
    }
  }

  /** A value just stored is found by a `get` within `ttl` of storing it, as
      long as the cache can hold anything at all. */
  lemma InsertThenLookupHits<V>(st: Store<V>, key: string, result: V, now: real,
                                later: real, ttl: int, maxSize: int)
    requires Invariant(st, maxSize) && maxSize >= 1
    requires later - now <= ttl as real
    ensures Lookup(Insert(st, key, result, now, maxSize), key, later, ttl).0 == Some(result)
  {
    var st' := Insert(st, key, result, now, maxSize);
    assert key in st'.entries by {
      var order := if key in st.entries then MoveToEnd(st.order, key) else st.order + [key];
      var entries := st.entries[key := Entry(now, result)];
      var base := if key in st.entries then Without(st.order, key) else st.order;
      WithoutDistinct(st.order, key);
      assert order == base + [key];
      assert NoDuplicates(base) && key !in base;
      CoherentSize(st);
      if |entries| > maxSize {
        assert |order| >= 2;
        assert order[0] == base[0] != key;
      }
    }
    assert st'.entries[key] == Entry(now, result);
  }

  /** A value read more than `ttl` after it was stored is gone. */
  lemma InsertThenLookupExpires<V>(st: Store<V>, key: string, result: V, now: real,
                                   later: real, ttl: int, maxSize: int)
    requires later - now > ttl as real
    ensures Lookup(Insert(st, key, result, now, maxSize), key, later, ttl).0 == None
  {
  }

  /** With `ttl = 0` a read at the storing instant still hits, and any later
      read misses. */
  lemma ZeroTtl<V>(st: Store<V>, key: string, result: V, now: real, later: real, maxSize: int)
    requires Invariant(st, maxSize) && maxSize >= 1
    requires later >= now
    ensures Lookup(Insert(st, key, result, now, maxSize), key, later, 0).0 ==
            if later == now then Some(result) else None
  {
    if later == now {
      InsertThenLookupHits(st, key, result, now, later, 0, maxSize);
    }
  }

  /** Storing a key that is already there moves it to the end and restamps
      it; the size stays and nothing is evicted. */
  lemma InsertExisting<V>(st: Store<V>, key: string, result: V, now: real, maxSize: int)
    requires Invariant(st, maxSize)
    requires key in st.entries
    ensures var st' := Insert(st, key, result, now, maxSize);
            && st' == Store(MoveToEnd(st.order, key), st.entries[key := Entry(now, result)])
            && |st'.entries| == |st.entries|
  {
    CoherentSize(st);
  }

  /** Storing a new key into a full cache evicts exactly the oldest key. */
  lemma InsertEvictsOldest<V>(st: Store<V>, key: string, result: V, now: real, maxSize: int)
    requires Invariant(st, maxSize)
    requires key !in st.entries && |st.order| == maxSize >= 1
    ensures Insert(st, key, result, now, maxSize) ==
            Store(st.order[1..] + [key], (st.entries - {st.order[0]})[key := Entry(now, result)])
  {
    CoherentSize(st);
    var entries := st.entries[key := Entry(now, result)];
    assert (st.order + [key])[1..] == st.order[1..] + [key];
    assert entries - {st.order[0]} == (st.entries - {st.order[0]})[key := Entry(now, result)];
  }

  /** Storing a new key into a cache with room appends it and evicts nothing. */
  lemma InsertWithRoom<V>(st: Store<V>, key: string, result: V, now: real, maxSize: int)
    requires Invariant(st, maxSize)
    requires key !in st.entries && |st.order| < maxSize
    ensures Insert(st, key, result, now, maxSize) ==
            Store(st.order + [key], st.entries[key := Entry(now, result)])
  {
    CoherentSize(st);
  }

  /** A cache of capacity 0 (or less) stays empty. */
  lemma NoCapacityStaysEmpty<V>(st: Store<V>, key: string, result: V, now: real, maxSize: int)
    requires Invariant(st, maxSize) && maxSize <= 0
    ensures Insert(st, key, result, now, maxSize) == Store([], map[])
  {
    CoherentSize(st);
    assert st.entries == map[];
    var entries := st.entries[key := Entry(now, result)];
    assert entries - {key} == map[];
  }

  /** The three steps of the scenario below, one insertion each. */
  lemma ScenarioFirst<V>(a: V, t1: real)
    ensures Insert(Store([], map[]), "a", a, t1, 2) == Store(["a"], map["a" := Entry(t1, a)])
  {
    var empty: Store<V> := Store([], map[]);
    assert Invariant(empty, 2);
    InsertWithRoom(empty, "a", a, t1, 2);
  }

  lemma ScenarioSecond<V>(a: V, b: V, t1: real, t2: real)
    ensures Insert(Store(["a"], map["a" := Entry(t1, a)]), "b", b, t2, 2) ==
            Store(["a", "b"], map["a" := Entry(t1, a), "b" := Entry(t2, b)])
  {
    var s1 := Store(["a"], map["a" := Entry(t1, a)]);
    assert Invariant(s1, 2);
    InsertWithRoom(s1, "b", b, t2, 2);
  }

  lemma ScenarioThird<V>(a: V, b: V, c: V, t1: real, t2: real, t3: real)
    ensures Insert(Store(["a", "b"], map["a" := Entry(t1, a), "b" := Entry(t2, b)]), "c", c, t3, 2) ==
            Store(["b", "c"], map["b" := Entry(t2, b), "c" := Entry(t3, c)])
  {
    var s2 := Store(["a", "b"], map["a" := Entry(t1, a), "b" := Entry(t2, b)]);
    assert Invariant(s2, 2);
    InsertEvictsOldest(s2, "c", c, t3, 2);
    assert s2.entries - {"a"} == map["b" := Entry(t2, b)];
    assert ["a", "b"][1..] + ["c"] == ["b", "c"];
  }

  /** With room for two, storing "a", "b", "c" evicts "a" and keeps the
      other two, in that order. */
  lemma EvictionScenario<V>(a: V, b: V, c: V, t1: real, t2: real, t3: real)
    ensures var empty: Store<V> := Store([], map[]);
            var st := Insert(Insert(Insert(empty, "a", a, t1, 2), "b", b, t2, 2), "c", c, t3, 2);
            && st.order == ["b", "c"]
            && st.entries == map["b" := Entry(t2, b), "c" := Entry(t3, c)]
  {
    ScenarioFirst(a, t1);
    ScenarioSecond(a, b, t1, t2);
    ScenarioThird(a, b, c, t1, t2, t3);
  }

  /** The defaults of `ImageAnalysisCache.__init__`. */
  const DEFAULT_MAX_SIZE: int := 128
  const DEFAULT_TTL_SECONDS: int := 3600

  /** The cache object: the ordered dictionary as two fields. */
  class ImageAnalysisCache<V> {
    const maxSize: int
    const ttl: int
    var order: seq<string>
    var entries: map<string, Entry<V>>

    function State(): Store<V>
      reads this
    {
      Store(order, entries)
    }

    ghost predicate Valid()
      reads this
    {
      Invariant(State(), maxSize)
    }

    constructor (maxSize: int := DEFAULT_MAX_SIZE, ttlSeconds: int := DEFAULT_TTL_SECONDS)
      ensures Valid()
      ensures this.maxSize == maxSize && ttl == ttlSeconds
      ensures State() == Store([], map[])
    {
      this.maxSize := maxSize;
      ttl := ttlSeconds;
      order := [];
      entries := map[];
    }

    /** `get(key)`. */
    method Get(key: string, now: real) returns (r: Option<V>)
      requires Valid()
      modifies this
      ensures Valid()
      ensures (r, State()) == Lookup(old(State()), key, now, ttl)
    {
      LookupKeepsInvariant(State(), key, now, ttl, maxSize);
      if key !in entries {
        return None;
      }
      var entry := entries[key];
      if now - entry.timestamp > ttl as real {
        order := Without(order, key);
        entries := entries - {key};
        return None;
      }
      order := MoveToEnd(order, key);
      r := Some(entry.result);
    }

    /** `set(key, result)`. */
    method Set(key: string, result: V, now: real)
      requires Valid()
      modifies this
      ensures Valid()
      ensures State() == Insert(old(State()), key, result, now, maxSize)
    {
      InsertKeepsInvariant(State(), key, result, now, maxSize);
      if key in entries {
        order := MoveToEnd(order, key);
      } else {
        order := order + [key];
      }
      entries := entries[key := Entry(now, result)];
      if |entries| > maxSize {
        var oldest := order[0];
        order := order[1..];
        entries := entries - {oldest};
      }
    }

    /** `clear()`. */
    method Clear()
      requires Valid()
      modifies this
      ensures Valid()
      ensures State() == Store([], map[])
    {
      order := [];
      entries := map[];
    }

    /** The `size` property. */
    method Size() returns (n: nat)
      requires Valid()
      ensures n == |entries| == |order|
      ensures n <= maxSize || n == 0
    {
      CoherentSize(State());
      n := |entries|;
    }
  }

  /** Reading the scenario's store back at time 4 with a TTL of an hour:
      the evicted "a" misses, "b" and "c" hit and each moves to the end. */
  lemma ScenarioReads<V>(b: V, c: V)
    ensures var entries := map["b" := Entry(2.0, b), "c" := Entry(3.0, c)];
            && Lookup(Store(["b", "c"], entries), "a", 4.0, 3600) == (None, Store(["b", "c"], entries))
            && Lookup(Store(["b", "c"], entries), "b", 4.0, 3600) == (Some(b), Store(["c", "b"], entries))
            && Lookup(Store(["c", "b"], entries), "c", 4.0, 3600) == (Some(c), Store(["b", "c"], entries))
  {
    var entries := map["b" := Entry(2.0, b), "c" := Entry(3.0, c)];
    assert ["b", "c"][1..] == ["c"] && ["c", "b"][1..] == ["b"];
    assert Without(["c"], "b") == ["c"] by { assert ["c"][1..] == []; }
    assert Without(["b"], "c") == ["b"] by { assert ["b"][1..] == []; }
    assert MoveToEnd(["b", "c"], "b") == ["c", "b"];
    assert MoveToEnd(["c", "b"], "c") == ["b", "c"];
  }

  /** A client run of the class: the eviction scenario through the methods. */
  /** A cache built with no arguments takes the defaults and starts empty. */
  method DefaultCacheRun()
  {
    var cache := new ImageAnalysisCache<int>();
    assert cache.maxSize == 128 && cache.ttl == 3600;
    var n := cache.Size();
    assert n == 0;
  }

  method EvictionThroughMethods(a: int, b: int, c: int)
  {
    var cache := new ImageAnalysisCache<int>(2, 3600);
    cache.Set("a", a, 1.0);
    cache.Set("b", b, 2.0);
    cache.Set("c", c, 3.0);
    EvictionScenario(a, b, c, 1.0, 2.0, 3.0);
    ScenarioReads(b, c);
    var ra := cache.Get("a", 4.0);
    assert ra == None;
    var rb := cache.Get("b", 4.0);
    assert rb == Some(b);
    var rc := cache.Get("c", 4.0);
    assert rc == Some(c);
    var n := cache.Size();
    assert n == 2;
    cache.Clear();
    n := cache.Size();
    assert n == 0;
  }
}
