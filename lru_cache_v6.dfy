/** LRUCacheV6.h: an LRU cache whose map entries are themselves the nodes
    of an intrusive recency list. The map holds each key's entry (its value
    and the map iterator of its own position); the list threads those
    entries, least recently used first.

    An entry is identified by its key, the way its map iterator identifies
    it, so the list is modelled as the sequence of the keys it threads. */
module LruCacheV6 {
  import opened Lists
  import opened LruSpec

  /** A map entry and list node: the value and the iterator of its own map
      position, which is `None` until `put` stores it. */
  datatype Entry<K, V> = Entry(value: V, keyLocation: Option<K>)

  /** The list threads every entry of the map once, and each entry knows
      its own key. */
  ghost predicate Linked<K, V>(q: seq<K>, m: map<K, Entry<K, V>>) {
    && Distinct(q)
    && (forall i :: 0 <= i < |q| ==> q[i] in m && m[q[i]].keyLocation == Some(q[i]))
    && (forall k :: k in m ==> k in q)
    && |q| == |m|
  }

  /** Every key of the list has its entry in the map. */
  ghost predicate Threaded<K, V>(q: seq<K>, m: map<K, Entry<K, V>>) {
    forall i :: 0 <= i < |q| ==> q[i] in m
  }

  /** The cache contents the list stands for. */
  ghost function Abstract<K, V>(q: seq<K>, m: map<K, Entry<K, V>>): seq<Pair<K, V>>
    requires Threaded(q, m)
  {
    seq(|q|, i requires 0 <= i < |q| => Pair(q[i], m[q[i]].value))
  }

  /** The keys of the contents are distinct and as many as the map's. */
  lemma LinkedContents<K, V>(q: seq<K>, m: map<K, Entry<K, V>>)
    requires Linked(q, m)
    ensures Threaded(q, m)
    ensures DistinctKeys(Abstract(q, m)) && |Abstract(q, m)| == |m|
  {
    var s := Abstract(q, m);
    forall i, j | 0 <= i < j < |s| ensures s[i].key != s[j].key {
      assert s[i].key == q[i] && s[j].key == q[j];
    }
  }

  /** A key of the map sits at its position in the list. */
  lemma LinkedFind<K, V>(q: seq<K>, m: map<K, Entry<K, V>>, key: K) returns (p: nat)
    requires Linked(q, m) && key in m
    ensures Threaded(q, m)
    ensures p < |q| && q[p] == key
    ensures IndexOfKey(Abstract(q, m), key) == Some(p)
  {
    LinkedContents(q, m);
    p :| 0 <= p < |q| && q[p] == key;
    IndexOfKeyAt(Abstract(q, m), key, p);
  }

  /** The map holds exactly the keys of the contents. */
  lemma LinkedKeys<K, V>(q: seq<K>, m: map<K, Entry<K, V>>, key: K)
    requires Linked(q, m)
    ensures Threaded(q, m)
    ensures key in m <==> Lookup(Abstract(q, m), key).Some?
  {
    if key in m {
      var p := LinkedFind(q, m, key);
    } else {
      var s := Abstract(q, m);
      forall j | 0 <= j < |s| ensures s[j].key != key {
        assert s[j].key == q[j];
      }
    }
  }

  /** Writing a new value into the entry at position `p`. */
  lemma LinkedOverwrite<K, V>(q: seq<K>, m: map<K, Entry<K, V>>, p: nat, v: V)
    requires Linked(q, m) && p < |q|
    ensures Threaded(q, m)
    ensures var m' := m[q[p] := m[q[p]].(value := v)];
            && Linked(q, m') && Threaded(q, m')
            && Abstract(q, m') == Abstract(q, m)[p := Pair(q[p], v)]
  {
    var m' := m[q[p] := m[q[p]].(value := v)];
    assert m'.Keys == m.Keys;
  }

  /** Splicing the entry at position `p` to the back of the list. */
  lemma LinkedSplice<K, V>(q: seq<K>, m: map<K, Entry<K, V>>, p: nat)
    requires Linked(q, m) && p < |q|
    ensures Threaded(q, m) && Threaded(Without(q, q[p]) + [q[p]], m)
    ensures Linked(Without(q, q[p]) + [q[p]], m)
    ensures Abstract(Without(q, q[p]) + [q[p]], m) == MoveToBack(Abstract(q, m), p)
  {
    SpliceToEnd(q, p);
    LinkedMoved(q, m, p);
    AbstractMoved(q, m, p);
  }

  lemma LinkedMoved<K, V>(q: seq<K>, m: map<K, Entry<K, V>>, p: nat)
    requires Linked(q, m) && p < |q|
    ensures Linked(MoveToBack(q, p), m)
  {
    var q' := MoveToBack(q, p);
    DistinctMoveToBack(q, p);
    forall i | 0 <= i < |q'| ensures q'[i] in q {
      MoveToBackMembers(q, p, q'[i]);
    }
    forall k | k in m ensures k in q' {
      MoveToBackMembers(q, p, k);
    }
  }

  lemma AbstractMoved<K, V>(q: seq<K>, m: map<K, Entry<K, V>>, p: nat)
    requires Threaded(q, m) && p < |q|
    ensures Threaded(MoveToBack(q, p), m)
    ensures Abstract(MoveToBack(q, p), m) == MoveToBack(Abstract(q, m), p)
  {
    var q' := MoveToBack(q, p);
    forall i | 0 <= i < |q'| ensures q'[i] in m {
      if i < |q'| - 1 {
        assert q'[i] == q[if i < p then i else i + 1];
      }
    }
    var a, b := Abstract(q', m), MoveToBack(Abstract(q, m), p);
    forall i | 0 <= i < |a| ensures a[i] == b[i] {
      if i < |a| - 1 {
        assert q'[i] == q[if i < p then i else i + 1];
      }
    }
  }

  /** `pop_front` and erasing the front entry, found through its own key location. */
  lemma LinkedPopFront<K, V>(q: seq<K>, m: map<K, Entry<K, V>>)
    requires Linked(q, m) && q != []
    ensures q[0] in m && m[q[0]].keyLocation == Some(q[0])
    ensures Threaded(q, m) && Threaded(q[1..], m - {q[0]})
    ensures Linked(q[1..], m - {q[0]}) && |m - {q[0]}| == |m| - 1
    ensures Abstract(q[1..], m - {q[0]}) == Abstract(q, m)[1..]
  {
    PoppedLinked(q, m);
    PoppedAbstract(q, m);
  }

  lemma PoppedLinked<K, V>(q: seq<K>, m: map<K, Entry<K, V>>)
    requires Linked(q, m) && q != []
    ensures Linked(q[1..], m - {q[0]}) && |m - {q[0]}| == |m| - 1
  {
    var q', m' := q[1..], m - {q[0]};
    DistinctTail(q);
    forall i | 0 <= i < |q'| ensures q'[i] != q[0] && q'[i] in m' {
      assert q'[i] == q[i + 1];
    }
    forall k | k in m' ensures k in q' {
      var j :| 0 <= j < |q| && q[j] == k;
      assert q'[j - 1] == q[j];
    }
    assert |m'| == |m| - 1;
  }

  lemma PoppedAbstract<K, V>(q: seq<K>, m: map<K, Entry<K, V>>)
    requires Threaded(q, m) && q != [] && forall i :: 0 < i < |q| ==> q[i] != q[0]
    ensures Threaded(q[1..], m - {q[0]})
    ensures Abstract(q[1..], m - {q[0]}) == Abstract(q, m)[1..]
  {
    var q', m' := q[1..], m - {q[0]};
    forall i | 0 <= i < |q'| ensures q'[i] in m' {
      assert q'[i] == q[i + 1];
    }
    var a, b := Abstract(q', m'), Abstract(q, m)[1..];
    forall i | 0 <= i < |a| ensures a[i] == b[i] {
      assert q'[i] == q[i + 1];
    }
  }

  /** Inserting a new key's entry and `push_back` of it. */
  lemma LinkedAppend<K, V>(q: seq<K>, m: map<K, Entry<K, V>>, key: K, v: V)
    requires Linked(q, m) && key !in m
    ensures Threaded(q, m) && Threaded(q + [key], m[key := Entry(v, Some(key))])
    ensures Linked(q + [key], m[key := Entry(v, Some(key))]) && |m[key := Entry(v, Some(key))]| == |m| + 1
    ensures Abstract(q + [key], m[key := Entry(v, Some(key))]) == Abstract(q, m) + [Pair(key, v)]
  {
    var q', m' := q + [key], m[key := Entry(v, Some(key))];
    assert key !in q;
    assert Distinct(q') by {
      forall i, j | 0 <= i < j < |q'| ensures q'[i] != q'[j] {
        assert q'[i] == q[i];
        if j < |q| {
          assert q'[j] == q[j];
        }
      }
    }
    forall i | 0 <= i < |q'| ensures q'[i] in m' && m'[q'[i]].keyLocation == Some(q'[i]) {
      if i < |q| {
        assert q'[i] == q[i];
      }
    }
    forall k | k in m' ensures k in q' {
      if k != key {
        var j :| 0 <= j < |q| && q[j] == k;
        assert q'[j] == q[j];
      } else {
        assert q'[|q|] == key;
      }
    }
  }

  class LRUCache<K(==), V> {
    var keyMap: map<K, Entry<K, V>>
    /** The intrusive recency list, least recently used first. */
    var lruQueue: seq<K>
    const maxCacheSize: int

    ghost predicate Valid()
      reads this
    {
      1 <= maxCacheSize && |keyMap| <= maxCacheSize && Linked(lruQueue, keyMap)
    }

    /** What the cache holds, least recently used first. */
    ghost function Contents(): seq<Pair<K, V>>
      reads this
      requires Threaded(lruQueue, keyMap)
    {
      Abstract(lruQueue, keyMap)
    }

    /** The cache starts empty; `reserve` only sizes the table. */
    constructor (cacheSize: int)
      requires cacheSize >= 1
      ensures Valid() && Threaded(lruQueue, keyMap) && Contents() == []
      ensures maxCacheSize == cacheSize && keyMap == map[] && lruQueue == []
    {
      maxCacheSize := cacheSize;
      keyMap := map[];
      lruQueue := [];
    }

    /** `get`: on a hit the entry is spliced to the back of the list and
        its value returned; a miss changes nothing. */
    method Get(key: K) returns (r: Option<V>)
      requires Valid()
      modifies this
      ensures Valid() && old(Threaded(lruQueue, keyMap)) && Threaded(lruQueue, keyMap)
      ensures r == Lookup(old(Contents()), key)
      ensures Contents() == AfterGet(old(Contents()), key)
      ensures keyMap == old(keyMap)
      ensures key in keyMap ==> lruQueue != [] && lruQueue[|lruQueue| - 1] == key
      ensures key !in keyMap ==> lruQueue == old(lruQueue)
    {
      assert |keyMap| <= maxCacheSize;
      LinkedKeys(lruQueue, keyMap, key);
      if key in keyMap {
        var p := LinkedFind(lruQueue, keyMap, key);
        LinkedSplice(lruQueue, keyMap, p);
        PushToQueueEnd(key);
        r := Some(keyMap[key].value);
      } else {
        r := None;
      }
    }

    /** `put`: an existing key's entry gets the value and is spliced to the
        back; for a new key the front entry is popped and erased first when
        the map is full, and the new entry is inserted and pushed to the
        back. Returns whether the key was new. */
    method Put(key: K, value: V) returns (inserted: bool)
      requires Valid()
      modifies this
      ensures Valid() && old(Threaded(lruQueue, keyMap)) && Threaded(lruQueue, keyMap)
      ensures inserted <==> Lookup(old(Contents()), key).None?
      ensures Contents() == AfterPut(old(Contents()), maxCacheSize, key, value)
      ensures lruQueue != [] && lruQueue[|lruQueue| - 1] == key
      ensures !inserted ==> keyMap == old(keyMap)[key := old(keyMap)[key].(value := value)]
      ensures inserted && |old(keyMap)| < maxCacheSize ==> keyMap == old(keyMap)[key := Entry(value, Some(key))]
      ensures inserted && |old(keyMap)| >= maxCacheSize ==>
                old(lruQueue) != [] && keyMap == (old(keyMap) - {old(lruQueue)[0]})[key := Entry(value, Some(key))]
    {
      assert |keyMap| <= maxCacheSize;
      LinkedKeys(lruQueue, keyMap, key);
      if key in keyMap {
        // a hit: overwrite the value and promote the entry
        OverwriteValue(key, value);
        return false;
      }
      if |keyMap| >= maxCacheSize {
        EvictFront();
      }
      InsertEntry(key, value);
      inserted := true;
    }

    /** The path of `put` for a key already in the map. */
    method OverwriteValue(key: K, value: V)
      requires Valid() && key in keyMap
      modifies this
      ensures Valid() && old(Threaded(lruQueue, keyMap)) && Threaded(lruQueue, keyMap)
      ensures Contents() == AfterPut(old(Contents()), maxCacheSize, key, value)
      ensures keyMap == old(keyMap)[key := old(keyMap)[key].(value := value)]
      ensures lruQueue != [] && lruQueue[|lruQueue| - 1] == key
    {
      var p := LinkedFind(lruQueue, keyMap, key);
      LinkedOverwrite(lruQueue, keyMap, p, value);
      keyMap := keyMap[key := keyMap[key].(value := value)];
      LinkedSplice(lruQueue, keyMap, p);
      PushToQueueEnd(key);
    }

    /** The eviction in `put`: the front entry is popped from the list and
        erased from the map through its key location. */
    method EvictFront()
      requires Valid() && |keyMap| >= maxCacheSize
      modifies this
      ensures Linked(lruQueue, keyMap) && |keyMap| < maxCacheSize
      ensures old(Threaded(lruQueue, keyMap)) && Threaded(lruQueue, keyMap)
      ensures old(lruQueue) != [] && Contents() == old(Contents())[1..]
      ensures keyMap == old(keyMap) - {old(lruQueue)[0]} && lruQueue == old(lruQueue)[1..]
    {
      LinkedPopFront(lruQueue, keyMap);
      var e := keyMap[lruQueue[0]];
      lruQueue := lruQueue[1..];
      keyMap := keyMap - {e.keyLocation.value};
    }

    /** The insertion in `put`: the new entry goes into the map, learns its
        own key location and is pushed to the back of the list. */
    method InsertEntry(key: K, value: V)
      requires 1 <= maxCacheSize && |keyMap| < maxCacheSize && Linked(lruQueue, keyMap) && key !in keyMap
      modifies this
      ensures Valid() && old(Threaded(lruQueue, keyMap)) && Threaded(lruQueue, keyMap)
      ensures Contents() == old(Contents()) + [Pair(key, value)]
      ensures keyMap == old(keyMap)[key := Entry(value, Some(key))] && lruQueue == old(lruQueue) + [key]
    {
      LinkedAppend(lruQueue, keyMap, key, value);
      ghost var m := keyMap;
      keyMap := keyMap[key := Entry(value, None)];
      keyMap := keyMap[key := keyMap[key].(keyLocation := Some(key))];
      MapUpdateTwice(m, key, Entry(value, None), Entry(value, Some(key)));
      lruQueue := lruQueue + [key];
    }

    /** `pushToQueueEnd`: `splice` of the entry to the end of the list. */
    method PushToQueueEnd(key: K)
      requires key in lruQueue
      modifies this
      ensures lruQueue == Without(old(lruQueue), key) + [key]
      ensures keyMap == old(keyMap)
    {
      lruQueue := Without(lruQueue, key) + [key];
    }
  }
}
