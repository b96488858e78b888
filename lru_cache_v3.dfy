/** LRUCacheV3.h: an LRU cache whose (key, value) entries live in a vector
    that never grows past `maxCacheSize` elements; an intrusive list threads
    the entries in recency order, least recently used first, and an
    intrusive set (ordered or hashed) threads them by key.

    An entry is identified by its index in the vector, so the list is the
    sequence of indices it threads and the set is a map from each key to
    the index of the entry holding it. */
module LruCacheV3 {
  import opened Lists
  import opened LruSpec

  /** The list threads each entry of the vector once, and the set threads
      each entry under its own key. */
  ghost predicate Linked<K, V>(es: seq<Pair<K, V>>, q: seq<nat>, m: map<K, nat>) {
    && Distinct(q) && |q| == |es|
    && (forall i :: 0 <= i < |q| ==> q[i] < |es|)
    && (forall j :: 0 <= j < |es| ==> j in q)
    && (forall j :: 0 <= j < |es| ==> es[j].key in m && m[es[j].key] == j)
    && (forall k :: k in m ==> m[k] < |es| && es[m[k]].key == k)
    && |m| == |es|
  }

  /** Every index of the list is an entry of the vector. */
  ghost predicate Threaded<K, V>(es: seq<Pair<K, V>>, q: seq<nat>) {
    forall i :: 0 <= i < |q| ==> q[i] < |es|
  }

  /** The cache contents the list stands for. */
  ghost function Abstract<K, V>(es: seq<Pair<K, V>>, q: seq<nat>): seq<Pair<K, V>>
    requires Threaded(es, q)
  {
    seq(|q|, i requires 0 <= i < |q| => es[q[i]])
  }

  /** The map from each key to its entry, without the entry at `e`: what
      erasing that entry's node leaves of the set, whatever its key now is. */
  function EraseNode<K>(m: map<K, nat>, e: nat): (r: map<K, nat>)
    ensures forall k :: k in r ==> k in m && m[k] != e && r[k] == m[k]
    ensures forall k :: k in m && m[k] != e ==> k in r
  {
    map k | k in m && m[k] != e :: m[k]
  }

  /** The keys of the contents are distinct and as many as the set's. */
  lemma LinkedContents<K, V>(es: seq<Pair<K, V>>, q: seq<nat>, m: map<K, nat>)
    requires Linked(es, q, m)
    ensures Threaded(es, q)
    ensures DistinctKeys(Abstract(es, q)) && |Abstract(es, q)| == |m|
  {
    var s := Abstract(es, q);
    forall i, j | 0 <= i < j < |s| ensures s[i].key != s[j].key {
      assert m[s[i].key] == q[i] && m[s[j].key] == q[j];
    }
  }

  /** A key of the set sits at the list position of its entry. */
  lemma LinkedFind<K, V>(es: seq<Pair<K, V>>, q: seq<nat>, m: map<K, nat>, key: K) returns (p: nat)
    requires Linked(es, q, m) && key in m
    ensures Threaded(es, q)
    ensures p < |q| && q[p] == m[key]
    ensures IndexOfKey(Abstract(es, q), key) == Some(p)
  {
    LinkedContents(es, q, m);
    assert m[key] in q;
    p :| 0 <= p < |q| && q[p] == m[key];
    IndexOfKeyAt(Abstract(es, q), key, p);
  }

  /** The set holds exactly the keys of the contents. */
  lemma LinkedKeys<K, V>(es: seq<Pair<K, V>>, q: seq<nat>, m: map<K, nat>, key: K)
    requires Linked(es, q, m)
    ensures Threaded(es, q)
    ensures key in m <==> Lookup(Abstract(es, q), key).Some?
  {
    if key in m {
      var p := LinkedFind(es, q, m, key);
    } else {
      var s := Abstract(es, q);
      forall j | 0 <= j < |s| ensures s[j].key != key {
        assert s[j] == es[q[j]];
      }
    }
  }

  /** Writing a new value into the entry at the list position `p`. */
  lemma LinkedOverwrite<K, V>(es: seq<Pair<K, V>>, q: seq<nat>, m: map<K, nat>, p: nat, v: V)
    requires Linked(es, q, m) && p < |q|
    ensures Threaded(es, q)
    ensures var es' := es[q[p] := es[q[p]].(value := v)];
            && Linked(es', q, m) && Threaded(es', q)
            && Abstract(es', q) == Abstract(es, q)[p := Pair(es[q[p]].key, v)]
  {
    var es' := es[q[p] := es[q[p]].(value := v)];
    var a, b := Abstract(es', q), Abstract(es, q)[p := Pair(es[q[p]].key, v)];
    forall i | 0 <= i < |a| ensures a[i] == b[i] {
      assert i != p ==> q[i] != q[p];
    }
  }

  /** Splicing the entry at list position `p` to the back of the list. */
  lemma LinkedSplice<K, V>(es: seq<Pair<K, V>>, q: seq<nat>, m: map<K, nat>, p: nat)
    requires Linked(es, q, m) && p < |q|
    ensures Threaded(es, q) && Threaded(es, Without(q, q[p]) + [q[p]])
    ensures Linked(es, Without(q, q[p]) + [q[p]], m)
    ensures Abstract(es, Without(q, q[p]) + [q[p]]) == MoveToBack(Abstract(es, q), p)
  {
    SpliceToEnd(q, p);
    LinkedMoved(es, q, m, p);
    AbstractMoved(es, q, p);
  }

  lemma LinkedMoved<K, V>(es: seq<Pair<K, V>>, q: seq<nat>, m: map<K, nat>, p: nat)
    requires Linked(es, q, m) && p < |q|
    ensures Linked(es, MoveToBack(q, p), m)
  {
    var q' := MoveToBack(q, p);
    DistinctMoveToBack(q, p);
    forall i | 0 <= i < |q'| ensures q'[i] in q {
      MoveToBackMembers(q, p, q'[i]);
    }
    forall j | 0 <= j < |es| ensures j in q' {
      MoveToBackMembers(q, p, j);
    }
  }

  lemma AbstractMoved<K, V>(es: seq<Pair<K, V>>, q: seq<nat>, p: nat)
    requires Threaded(es, q) && p < |q|
    ensures Threaded(es, MoveToBack(q, p))
    ensures Abstract(es, MoveToBack(q, p)) == MoveToBack(Abstract(es, q), p)
  {
    var q' := MoveToBack(q, p);
    forall i | 0 <= i < |q'| ensures q'[i] < |es| {
      if i < |q'| - 1 {
        assert q'[i] == q[if i < p then i else i + 1];
      }
    }
    var a, b := Abstract(es, q'), MoveToBack(Abstract(es, q), p);
    forall i | 0 <= i < |a| ensures a[i] == b[i] {
      if i < |a| - 1 {
        assert q'[i] == q[if i < p then i else i + 1];
      }
    }
  }

  /** Erasing the node of the entry at `e` from the set drops exactly that
      entry's key. */
  lemma EraseNodeIsKey<K, V>(es: seq<Pair<K, V>>, q: seq<nat>, m: map<K, nat>, e: nat)
    requires Linked(es, q, m) && e < |es|
    ensures EraseNode(m, e) == m - {es[e].key}
  {
  }

  /** The front entry taken over by a new key: the entry gets the key and
      the value and the set maps the new key, not the old one, to it. */
  lemma LinkedRekey<K, V>(es: seq<Pair<K, V>>, q: seq<nat>, m: map<K, nat>, key: K, v: V)
    requires Linked(es, q, m) && q != [] && key !in m
    ensures q[0] < |es|
    ensures var es', m' := es[q[0] := Pair(key, v)], (m - {es[q[0]].key})[key := q[0]];
            && Linked(es', q, m') && Threaded(es, q) && Threaded(es', q)
            && Abstract(es', q) == Abstract(es, q)[0 := Pair(key, v)]
  {
    var e := q[0];
    var es', m' := es[e := Pair(key, v)], (m - {es[e].key})[key := e];
    forall j | 0 <= j < |es'| ensures es'[j].key in m' && m'[es'[j].key] == j {
      if j != e {
        assert es'[j] == es[j] && es[j].key != es[e].key;
      }
    }
    assert |m'| == |es'| by {
      assert |m - {es[e].key}| == |m| - 1;
    }
    var a, b := Abstract(es', q), Abstract(es, q)[0 := Pair(key, v)];
    forall i | 0 <= i < |a| ensures a[i] == b[i] {
      assert i != 0 ==> q[i] != e;
    }
  }

  /** The whole of reusing the front entry `e` for a new key: the entry is
      rewritten, spliced to the back, and the set loses the node's old key
      and maps the new key to it. */
  lemma PendingReuse<K, V>(es: seq<Pair<K, V>>, q: seq<nat>, m: map<K, nat>, key: K, v: V)
    requires Linked(es, q, m) && q != [] && key !in m
    ensures q[0] < |es| && Threaded(es, q) && Abstract(es, q) != []
    ensures var e := q[0];
            var es', q' := es[e := Pair(key, v)], Without(q, e) + [e];
            && Linked(es', q', EraseNode(m, e)[key := e]) && Threaded(es', q')
            && Abstract(es', q') == Abstract(es, q)[1..] + [Pair(key, v)]
            && EraseNode(m, e)[key := e] == (m - {Abstract(es, q)[0].key})[key := e]
  {
    LinkedRekey(es, q, m, key, v);
    var e := q[0];
    EraseNodeIsKey(es, q, m, e);
    var es' := es[e := Pair(key, v)];
    LinkedSplice(es', q, (m - {es[e].key})[key := e], 0);
    ReplaceFrontToBack(Abstract(es, q), Pair(key, v));
  }

  /** `emplace_back` of a new entry, `push_back` of it on the list and
      its insertion into the set. */
  lemma LinkedAppend<K, V>(es: seq<Pair<K, V>>, q: seq<nat>, m: map<K, nat>, key: K, v: V)
    requires Linked(es, q, m) && key !in m
    ensures var es', q' := es + [Pair(key, v)], q + [|es|];
            && Linked(es', q', m[key := |es|]) && Threaded(es, q) && Threaded(es', q')
            && Abstract(es', q') == Abstract(es, q) + [Pair(key, v)]
  {
    var es', q', m' := es + [Pair(key, v)], q + [|es|], m[key := |es|];
    assert |es| !in q;
    assert Distinct(q') by {
      forall i, j | 0 <= i < j < |q'| ensures q'[i] != q'[j] {
        assert q'[i] == q[i];
        if j < |q| {
          assert q'[j] == q[j];
        }
      }
    }
    forall i | 0 <= i < |q'| ensures q'[i] < |es'| {
      if i < |q| {
        assert q'[i] == q[i];
      }
    }
    forall j | 0 <= j < |es'| ensures j in q' {
      if j < |es| {
        assert j in q;
        var i :| 0 <= i < |q| && q[i] == j;
        assert q'[i] == j;
      } else {
        assert q'[|q|] == j;
      }
    }
    forall j | 0 <= j < |es'| ensures es'[j].key in m' && m'[es'[j].key] == j {
      if j < |es| {
        assert es'[j] == es[j];
      }
    }
    var a, b := Abstract(es', q'), Abstract(es, q) + [Pair(key, v)];
    forall i | 0 <= i < |a| ensures a[i] == b[i] {
      if i < |q| {
        assert q'[i] == q[i];
      }
    }
  }

  class LRUCache<K(==), V(0)> {
    /** The entries; never more than `maxCacheSize`, so never reallocated. */
    var entries: seq<Pair<K, V>>
    /** The intrusive recency list as entry indices, least recently used first. */
    var lruQueue: seq<nat>
    /** The intrusive set: each key to the index of the entry holding it. */
    var keyMap: map<K, nat>
    const maxCacheSize: int

    ghost predicate Valid()
      reads this
    {
      1 <= maxCacheSize && |entries| <= maxCacheSize && Linked(entries, lruQueue, keyMap)
    }

    /** What the cache holds, least recently used first. */
    ghost function Contents(): seq<Pair<K, V>>
      reads this
      requires Threaded(entries, lruQueue)
    {
      Abstract(entries, lruQueue)
    }

    /** The cache starts empty; `reserve` only sizes the vector. */
    constructor (cacheSize: int)
      requires cacheSize >= 1
      ensures Valid() && Threaded(entries, lruQueue) && Contents() == []
      ensures maxCacheSize == cacheSize && entries == [] && keyMap == map[]
    {
      maxCacheSize := cacheSize;
      entries := [];
      lruQueue := [];
      keyMap := map[];
    }

    /** `get`: on a hit the entry is spliced to the back of the list and
        its value returned with `true`; a miss returns `false` and changes
        nothing. */
    method Get(key: K) returns (found: bool, value: V)
      requires Valid()
      modifies this
      ensures Valid() && old(Threaded(entries, lruQueue)) && Threaded(entries, lruQueue)
      ensures found <==> Lookup(old(Contents()), key).Some?
      ensures found ==> value == Lookup(old(Contents()), key).value
      ensures Contents() == AfterGet(old(Contents()), key)
      ensures entries == old(entries) && keyMap == old(keyMap)
    {
      LinkedKeys(entries, lruQueue, keyMap, key);
      if key in keyMap {
        var p := LinkedFind(entries, lruQueue, keyMap, key);
        LinkedSplice(entries, lruQueue, keyMap, p);
        var e := keyMap[key];
        PushToQueueEnd(e);
        found, value := true, entries[e].value;
      } else {
        found, value := false, *;
      }
    }

    /** `put`: an existing key's entry gets the value and is spliced to the
        back; a new key takes over the front entry when the vector is full,
        and gets a new entry at the back of the vector otherwise. */
    method Put(key: K, value: V)
      requires Valid()
      modifies this
      ensures Valid() && old(Threaded(entries, lruQueue)) && Threaded(entries, lruQueue)
      ensures Contents() == AfterPut(old(Contents()), maxCacheSize, key, value)
      ensures lruQueue != [] && keyMap[key] == lruQueue[|lruQueue| - 1]
      ensures |entries| == if Lookup(old(Contents()), key).None? && |old(entries)| < maxCacheSize
                           then |old(entries)| + 1 else |old(entries)|
    {
      LinkedKeys(entries, lruQueue, keyMap, key);
      if key in keyMap {
        OverwriteValue(key, value);
        return;
      }
      LinkedContents(entries, lruQueue, keyMap);
      if |entries| == maxCacheSize {
        ReuseFront(key, value);
      } else {
        AppendEntry(key, value);
      }
    }

    /** The path of `put` for a key already in the set. */
    method OverwriteValue(key: K, value: V)
      requires Valid() && key in keyMap
      modifies this
      ensures Valid() && old(Threaded(entries, lruQueue)) && Threaded(entries, lruQueue)
      ensures Contents() == AfterPut(old(Contents()), maxCacheSize, key, value)
      ensures keyMap == old(keyMap) && |entries| == |old(entries)|
      ensures lruQueue != [] && keyMap[key] == lruQueue[|lruQueue| - 1]
    {
      var p := LinkedFind(entries, lruQueue, keyMap, key);
      LinkedOverwrite(entries, lruQueue, keyMap, p, value);
      var e := keyMap[key];
      entries := entries[e := entries[e].(value := value)];
      LinkedSplice(entries, lruQueue, keyMap, p);
      PushToQueueEnd(e);
    }

    /** The path of `put` for a new key when the vector is full: the front
        entry gets the key and the value and is spliced to the back, its
        node is erased from the set and inserted again under the new key. */
    method ReuseFront(key: K, value: V)
      requires Valid() && key !in keyMap && |entries| == maxCacheSize
      modifies this
      ensures Valid() && old(Threaded(entries, lruQueue)) && Threaded(entries, lruQueue)
      ensures old(Contents()) != [] && Contents() == old(Contents())[1..] + [Pair(key, value)]
      ensures keyMap == (old(keyMap) - {old(Contents())[0].key})[key := old(lruQueue)[0]]
      ensures |entries| == |old(entries)| && keyMap[key] == lruQueue[|lruQueue| - 1]
    {
      PendingReuse(entries, lruQueue, keyMap, key, value);
      ghost var es0 := entries;
      var e := lruQueue[0];
      entries := entries[e := entries[e].(key := key)];
      entries := entries[e := entries[e].(value := value)];
      assert entries == es0[e := Pair(key, value)];
      PushToQueueEnd(e);
      keyMap := EraseNode(keyMap, e);
      keyMap := keyMap[key := e];
    }

    /** The path of `put` for a new key while the vector has room. */
    method AppendEntry(key: K, value: V)
      requires Valid() && key !in keyMap && |entries| < maxCacheSize
      modifies this
      ensures Valid() && old(Threaded(entries, lruQueue)) && Threaded(entries, lruQueue)
      ensures Contents() == old(Contents()) + [Pair(key, value)]
      ensures keyMap == old(keyMap)[key := |old(entries)|] && entries == old(entries) + [Pair(key, value)]
      ensures lruQueue != [] && keyMap[key] == lruQueue[|lruQueue| - 1]
    {
      LinkedAppend(entries, lruQueue, keyMap, key, value);
      entries := entries + [Pair(key, value)];
      var e := |entries| - 1;
      lruQueue := lruQueue + [e];
      keyMap := keyMap[key := e];
    }

    /** `pushToQueueEnd`: `splice` of the entry to the end of the list. */
    method PushToQueueEnd(e: nat)
      requires e in lruQueue
      modifies this
      ensures lruQueue == Without(old(lruQueue), e) + [e]
      ensures entries == old(entries) && keyMap == old(keyMap)
    {
      lruQueue := Without(lruQueue, e) + [e];
    }
  }
}
