/** LRUCacheV2.h: an LRU cache made of a `std::list` of (value, map
    iterator) items, least recently used at the front, and an associative
    container from each key to the iterator of its list item. A hit is moved
    to the back with `splice`.

    List nodes keep their identity while they are spliced, so the list is
    modelled as a sequence of node handles `lruQueue` with the node contents
    in `nodes`; `nextNode` stands for the list's node allocator, which hands
    out a handle no live node has. A map iterator is identified by its key. */
module LruCacheV2 {
  import opened Lists
  import opened LruSpec

  /** A list item: the value and the map entry it belongs to. */
  datatype QueueItem<K, V> = QueueItem(value: V, mapLocation: K)

  /** A map entry: the iterator of its list item; `None` is the
      default-constructed iterator of a freshly emplaced `Entry()`. */
  datatype Entry = Entry(queueLocation: Option<nat>)

  /** The list and the map describe each other: the list holds distinct live
      nodes, each node's map entry points back at it, each key's entry points
      at a node of the list holding that key, and there are as many nodes as keys. */
  ghost predicate Linked<K, V>(q: seq<nat>, nodes: map<nat, QueueItem<K, V>>, m: map<K, Entry>, nextNode: nat) {
    && Distinct(q)
    && (forall i :: 0 <= i < |q| ==> q[i] in nodes && q[i] < nextNode)
    && (forall i :: 0 <= i < |q| ==>
          nodes[q[i]].mapLocation in m && m[nodes[q[i]].mapLocation].queueLocation == Some(q[i]))
    && (forall k :: k in m ==>
          && m[k].queueLocation.Some? && m[k].queueLocation.value in q
          && m[k].queueLocation.value in nodes && nodes[m[k].queueLocation.value].mapLocation == k)
    && |q| == |m|
  }

  /** Every node handle of the list is a live node. */
  ghost predicate NodesLive<K, V>(q: seq<nat>, nodes: map<nat, QueueItem<K, V>>) {
    forall i :: 0 <= i < |q| ==> q[i] in nodes
  }

  /** The cache contents the list stands for. */
  ghost function Abstract<K, V>(q: seq<nat>, nodes: map<nat, QueueItem<K, V>>): seq<Pair<K, V>>
    requires NodesLive(q, nodes)
  {
    seq(|q|, i requires 0 <= i < |q| => Pair(nodes[q[i]].mapLocation, nodes[q[i]].value))
  }

  /** The keys of the list are distinct and as many as the map's. */
  lemma LinkedContents<K, V>(q: seq<nat>, nodes: map<nat, QueueItem<K, V>>, m: map<K, Entry>, nextNode: nat)
    requires Linked(q, nodes, m, nextNode)
    ensures NodesLive(q, nodes)
    ensures DistinctKeys(Abstract(q, nodes)) && |Abstract(q, nodes)| == |m|
  {
    var s := Abstract(q, nodes);
    forall i, j | 0 <= i < j < |s| ensures s[i].key != s[j].key {
      assert m[s[i].key].queueLocation == Some(q[i]);
      assert m[s[j].key].queueLocation == Some(q[j]);
    }
  }

  /** A key in the map sits at the position of its node in the list. */
  lemma LinkedFind<K, V>(q: seq<nat>, nodes: map<nat, QueueItem<K, V>>, m: map<K, Entry>, nextNode: nat, key: K)
    returns (p: nat)
    requires Linked(q, nodes, m, nextNode) && key in m
    ensures NodesLive(q, nodes)
    ensures p < |q| && Some(q[p]) == m[key].queueLocation
    ensures IndexOfKey(Abstract(q, nodes), key) == Some(p)
  {
    LinkedContents(q, nodes, m, nextNode);
    p :| 0 <= p < |q| && q[p] == m[key].queueLocation.value;
    IndexOfKeyAt(Abstract(q, nodes), key, p);
  }

  /** A key that is not in the map is in no node of the list. */
  lemma LinkedMissing<K, V>(q: seq<nat>, nodes: map<nat, QueueItem<K, V>>, m: map<K, Entry>, nextNode: nat, key: K)
    requires Linked(q, nodes, m, nextNode) && key !in m
    ensures NodesLive(q, nodes)
    ensures IndexOfKey(Abstract(q, nodes), key) == None
  {
    var s := Abstract(q, nodes);
    forall j | 0 <= j < |s| ensures s[j].key != key {
      assert s[j].key in m;
    }
  }

  /** The map holds exactly the keys the list holds. */
  lemma LinkedKeys<K, V>(q: seq<nat>, nodes: map<nat, QueueItem<K, V>>, m: map<K, Entry>, nextNode: nat, key: K)
    requires Linked(q, nodes, m, nextNode)
    ensures NodesLive(q, nodes)
    ensures key in m <==> Lookup(Abstract(q, nodes), key).Some?
  {
    if key in m {
      var p := LinkedFind(q, nodes, m, nextNode, key);
    } else {
      LinkedMissing(q, nodes, m, nextNode, key);
    }
  }

  /** Splicing the node at position `p` to the back keeps the list and the
      map in step and moves its pair to the back of the contents. */
  lemma LinkedSplice<K, V>(q: seq<nat>, nodes: map<nat, QueueItem<K, V>>, m: map<K, Entry>, nextNode: nat, p: nat)
    requires Linked(q, nodes, m, nextNode) && p < |q|
    ensures NodesLive(q, nodes) && NodesLive(Without(q, q[p]) + [q[p]], nodes)
    ensures Linked(Without(q, q[p]) + [q[p]], nodes, m, nextNode)
    ensures Abstract(Without(q, q[p]) + [q[p]], nodes) == MoveToBack(Abstract(q, nodes), p)
  {
    SpliceToEnd(q, p);
    LinkedMoved(q, nodes, m, nextNode, p);
    AbstractMoved(q, nodes, p);
  }

  lemma LinkedMoved<K, V>(q: seq<nat>, nodes: map<nat, QueueItem<K, V>>, m: map<K, Entry>, nextNode: nat, p: nat)
    requires Linked(q, nodes, m, nextNode) && p < |q|
    ensures Linked(MoveToBack(q, p), nodes, m, nextNode)
  {
    var q' := MoveToBack(q, p);
    DistinctMoveToBack(q, p);
    forall i | 0 <= i < |q'| ensures q'[i] in q {
      MoveToBackMembers(q, p, q'[i]);
    }
    forall k | k in m ensures m[k].queueLocation.value in q' {
      MoveToBackMembers(q, p, m[k].queueLocation.value);
    }
  }

  lemma AbstractMoved<K, V>(q: seq<nat>, nodes: map<nat, QueueItem<K, V>>, p: nat)
    requires NodesLive(q, nodes) && p < |q|
    ensures NodesLive(MoveToBack(q, p), nodes)
    ensures Abstract(MoveToBack(q, p), nodes) == MoveToBack(Abstract(q, nodes), p)
  {
    var q' := MoveToBack(q, p);
    forall i | 0 <= i < |q'| ensures q'[i] in nodes {
      if i < |q'| - 1 {
        assert q'[i] == q[if i < p then i else i + 1];
      }
    }
    var a, b := Abstract(q', nodes), MoveToBack(Abstract(q, nodes), p);
    forall i | 0 <= i < |a| ensures a[i] == b[i] {
      if i < |a| - 1 {
        assert q'[i] == q[if i < p then i else i + 1];
      }
    }
  }

  /** Writing a new value into the node at position `p`. */
  lemma LinkedOverwrite<K, V>(q: seq<nat>, nodes: map<nat, QueueItem<K, V>>, m: map<K, Entry>, nextNode: nat,
                              p: nat, v: V)
    requires Linked(q, nodes, m, nextNode) && p < |q|
    ensures NodesLive(q, nodes)
    ensures var nodes' := nodes[q[p] := nodes[q[p]].(value := v)];
            && Linked(q, nodes', m, nextNode)
            && Abstract(q, nodes') == Abstract(q, nodes)[p := Pair(Abstract(q, nodes)[p].key, v)]
  {
    var nodes' := nodes[q[p] := nodes[q[p]].(value := v)];
    forall i | 0 <= i < |q| ensures nodes'[q[i]].mapLocation == nodes[q[i]].mapLocation {
    }
  }

  /** `pop_front` followed by erasing the front node's key from the map. */
  lemma LinkedPopFront<K, V>(q: seq<nat>, nodes: map<nat, QueueItem<K, V>>, m: map<K, Entry>, nextNode: nat)
    requires Linked(q, nodes, m, nextNode) && q != []
    ensures q[0] in nodes && nodes[q[0]].mapLocation in m
    ensures NodesLive(q, nodes) && NodesLive(q[1..], nodes - {q[0]})
    ensures Linked(q[1..], nodes - {q[0]}, m - {nodes[q[0]].mapLocation}, nextNode)
    ensures Abstract(q, nodes) != [] && Abstract(q, nodes)[0].key == nodes[q[0]].mapLocation
    ensures Abstract(q[1..], nodes - {q[0]}) == Abstract(q, nodes)[1..]
  {
    var h := q[0];
    var k0 := nodes[h].mapLocation;
    DistinctTail(q);
    PopFrontLive(q, nodes, nextNode);
    PopFrontBacked(q, nodes, m);
    PopFrontMapped(q, nodes, m);
    assert |m - {k0}| == |m| - 1;
    PopFrontAbstract(q, nodes);
  }

  lemma PopFrontLive<K, V>(q: seq<nat>, nodes: map<nat, QueueItem<K, V>>, nextNode: nat)
    requires Distinct(q) && q != [] && forall i :: 0 <= i < |q| ==> q[i] in nodes && q[i] < nextNode
    ensures forall i :: 0 <= i < |q| - 1 ==> q[1..][i] in nodes - {q[0]} && q[1..][i] < nextNode
  {
    forall i | 0 <= i < |q| - 1 ensures q[1..][i] != q[0] && q[1..][i] in nodes {
      assert q[1..][i] == q[i + 1];
    }
  }

  lemma PopFrontBacked<K, V>(q: seq<nat>, nodes: map<nat, QueueItem<K, V>>, m: map<K, Entry>)
    requires Distinct(q) && q != [] && forall i :: 0 <= i < |q| ==> q[i] in nodes
    requires forall i :: 0 <= i < |q| ==>
               nodes[q[i]].mapLocation in m && m[nodes[q[i]].mapLocation].queueLocation == Some(q[i])
    ensures var nodes', m' := nodes - {q[0]}, m - {nodes[q[0]].mapLocation};
            forall i :: 0 <= i < |q| - 1 ==>
              q[1..][i] in nodes' && nodes'[q[1..][i]].mapLocation in m'
              && m'[nodes'[q[1..][i]].mapLocation].queueLocation == Some(q[1..][i])
  {
    var nodes', m' := nodes - {q[0]}, m - {nodes[q[0]].mapLocation};
    forall i | 0 <= i < |q| - 1
      ensures q[1..][i] in nodes' && nodes'[q[1..][i]].mapLocation in m'
      ensures m'[nodes'[q[1..][i]].mapLocation].queueLocation == Some(q[1..][i])
    {
      assert q[1..][i] == q[i + 1];
    }
  }

  lemma PopFrontMapped<K, V>(q: seq<nat>, nodes: map<nat, QueueItem<K, V>>, m: map<K, Entry>)
    requires q != [] && q[0] in nodes
    requires forall k :: k in m ==>
               && m[k].queueLocation.Some? && m[k].queueLocation.value in q
               && m[k].queueLocation.value in nodes && nodes[m[k].queueLocation.value].mapLocation == k
    ensures var nodes', m' := nodes - {q[0]}, m - {nodes[q[0]].mapLocation};
            forall k :: k in m' ==>
              && m'[k].queueLocation.Some? && m'[k].queueLocation.value in q[1..]
              && m'[k].queueLocation.value in nodes' && nodes'[m'[k].queueLocation.value].mapLocation == k
  {
    var nodes', m' := nodes - {q[0]}, m - {nodes[q[0]].mapLocation};
    forall k | k in m'
      ensures m'[k].queueLocation.value in q[1..] && m'[k].queueLocation.value in nodes'
    {
      var j :| 0 <= j < |q| && q[j] == m[k].queueLocation.value;
      assert j != 0;
      assert q[1..][j - 1] == q[j];
    }
  }

  lemma PopFrontAbstract<K, V>(q: seq<nat>, nodes: map<nat, QueueItem<K, V>>)
    requires NodesLive(q, nodes) && q != [] && forall i :: 0 < i < |q| ==> q[i] != q[0]
    ensures NodesLive(q[1..], nodes - {q[0]})
    ensures Abstract(q[1..], nodes - {q[0]}) == Abstract(q, nodes)[1..]
  {
    var a, b := Abstract(q[1..], nodes - {q[0]}), Abstract(q, nodes)[1..];
    forall i | 0 <= i < |q| - 1 ensures q[1..][i] in nodes - {q[0]} {
      assert q[1..][i] == q[i + 1];
    }
    forall i | 0 <= i < |a| ensures a[i] == b[i] {
      assert q[1..][i] == q[i + 1];
    }
  }

  /** The eviction while a new key waits for its item: the front node is
      popped and its key, which is not the new one, erased from the map. */
  lemma PendingPopFront<K, V>(q: seq<nat>, nodes: map<nat, QueueItem<K, V>>, M: map<K, Entry>, nextNode: nat, key: K)
    requires key in M && M[key].queueLocation == None && Linked(q, nodes, M - {key}, nextNode) && q != []
    ensures q[0] in nodes && nodes[q[0]].mapLocation in M && nodes[q[0]].mapLocation != key
    ensures NodesLive(q, nodes) && NodesLive(q[1..], nodes - {q[0]})
    ensures Linked(q[1..], nodes - {q[0]}, M - {nodes[q[0]].mapLocation} - {key}, nextNode)
    ensures |M - {nodes[q[0]].mapLocation}| == |M| - 1 && |M - {key}| == |M| - 1
    ensures Abstract(q, nodes) != [] && Abstract(q, nodes)[0].key == nodes[q[0]].mapLocation
    ensures Abstract(q[1..], nodes - {q[0]}) == Abstract(q, nodes)[1..]
  {
    LinkedPopFront(q, nodes, M - {key}, nextNode);
    RemoveTwo(M, nodes[q[0]].mapLocation, key);
  }

  /** Erasing two different keys of a map, in either order. */
  lemma RemoveTwo<K, T>(M: map<K, T>, a: K, b: K)
    requires a in M && b in M && a != b
    ensures M - {b} - {a} == M - {a} - {b}
    ensures |M - {a}| == |M| - 1 && |M - {b}| == |M| - 1
  {
    assert (M - {a}).Keys == M.Keys - {a};
    assert (M - {b}).Keys == M.Keys - {b};
  }

  /** The append for a key that waits with a default entry. */
  lemma PendingAppend<K, V>(q: seq<nat>, nodes: map<nat, QueueItem<K, V>>, M: map<K, Entry>, nextNode: nat,
                            key: K, v: V)
    requires key in M && Linked(q, nodes, M - {key}, nextNode)
    ensures NodesLive(q, nodes) && NodesLive(q + [nextNode], nodes[nextNode := QueueItem(v, key)])
    ensures Linked(q + [nextNode], nodes[nextNode := QueueItem(v, key)], M[key := Entry(Some(nextNode))], nextNode + 1)
    ensures |M[key := Entry(Some(nextNode))]| == |M|
    ensures Abstract(q + [nextNode], nodes[nextNode := QueueItem(v, key)]) == Abstract(q, nodes) + [Pair(key, v)]
  {
    LinkedAppend(q, nodes, M - {key}, nextNode, key, v);
    assert (M - {key})[key := Entry(Some(nextNode))] == M[key := Entry(Some(nextNode))];
    assert M[key := Entry(Some(nextNode))].Keys == M.Keys;
  }

  /** `emplace_back` of a fresh node for a key that is not in the map, and
      the key's entry pointed at it. */
  lemma LinkedAppend<K, V>(q: seq<nat>, nodes: map<nat, QueueItem<K, V>>, m: map<K, Entry>, nextNode: nat,
                           key: K, v: V)
    requires Linked(q, nodes, m, nextNode) && key !in m
    ensures NodesLive(q, nodes) && NodesLive(q + [nextNode], nodes[nextNode := QueueItem(v, key)])
    ensures Linked(q + [nextNode], nodes[nextNode := QueueItem(v, key)], m[key := Entry(Some(nextNode))], nextNode + 1)
    ensures Abstract(q + [nextNode], nodes[nextNode := QueueItem(v, key)]) == Abstract(q, nodes) + [Pair(key, v)]
  {
    var q' := q + [nextNode];
    var nodes' := nodes[nextNode := QueueItem(v, key)];
    var m' := m[key := Entry(Some(nextNode))];
    assert nextNode !in q;
    DistinctAppend(q, nextNode);
    AppendAbstract(q, nodes, nextNode, QueueItem(v, key));
    forall i | 0 <= i < |q'|
      ensures q'[i] in nodes' && q'[i] < nextNode + 1
      ensures nodes'[q'[i]].mapLocation in m' && m'[nodes'[q'[i]].mapLocation].queueLocation == Some(q'[i])
    {
      if i < |q| {
        assert q'[i] == q[i] && q[i] != nextNode;
      }
    }
    forall k | k in m'
      ensures && m'[k].queueLocation.Some? && m'[k].queueLocation.value in q'
              && m'[k].queueLocation.value in nodes' && nodes'[m'[k].queueLocation.value].mapLocation == k
    {
      if k != key {
        var j :| 0 <= j < |q| && q[j] == m[k].queueLocation.value;
        assert q'[j] == q[j] && q[j] != nextNode;
      } else {
        assert q'[|q|] == nextNode;
      }
    }
    assert |m'| == |m| + 1;
  }

  /** A node appended to the list adds its pair to the contents. */
  lemma AppendAbstract<K, V>(q: seq<nat>, nodes: map<nat, QueueItem<K, V>>, x: nat, item: QueueItem<K, V>)
    requires NodesLive(q, nodes) && x !in q
    ensures NodesLive(q + [x], nodes[x := item])
    ensures Abstract(q + [x], nodes[x := item]) == Abstract(q, nodes) + [Pair(item.mapLocation, item.value)]
  {
    var q', nodes' := q + [x], nodes[x := item];
    forall i | 0 <= i < |q'| ensures q'[i] in nodes' && (i < |q| ==> nodes'[q'[i]] == nodes[q[i]]) {
      if i < |q| {
        assert q'[i] == q[i] && q[i] != x;
      }
    }
    var a, b := Abstract(q', nodes'), Abstract(q, nodes) + [Pair(item.mapLocation, item.value)];
    forall i | 0 <= i < |a| ensures a[i] == b[i] {
      if i < |q| {
        assert q'[i] == q[i] && q[i] != x;
      }
    }
  }

  class LRUCache<K(==), V> {
    var keyMap: map<K, Entry>
    /** The recency list as node handles, least recently used first. */
    var lruQueue: seq<nat>
    /** The list nodes. */
    var nodes: map<nat, QueueItem<K, V>>
    /** The next handle the node allocator gives out. */
    var nextNode: nat
    const maxCacheSize: int
    /** Whether `insertIntoMap` emulates `try_emplace` with `find` and
        `emplace` (the container is chosen by template parameters). */
    const emulateTryEmplace: bool

    ghost predicate Valid()
      reads this
    {
      1 <= maxCacheSize && |keyMap| <= maxCacheSize && Linked(lruQueue, nodes, keyMap, nextNode)
    }

    /** What the cache holds, least recently used first. */
    ghost function Contents(): seq<Pair<K, V>>
      reads this
      requires NodesLive(lruQueue, nodes)
    {
      Abstract(lruQueue, nodes)
    }

    /** Between `insertIntoMap` and `finishPutOperation` for a new key: the
        key has a default entry and the rest of the cache is intact. */
    ghost predicate Pending(key: K)
      reads this
    {
      && 1 <= maxCacheSize && key in keyMap && keyMap[key].queueLocation == None
      && |keyMap - {key}| <= maxCacheSize && Linked(lruQueue, nodes, keyMap - {key}, nextNode)
    }

    /** The cache starts empty. */
    constructor (cacheSize: int, emulate: bool)
      requires cacheSize >= 1
      ensures Valid() && NodesLive(lruQueue, nodes) && Contents() == []
      ensures maxCacheSize == cacheSize && emulateTryEmplace == emulate
      ensures keyMap == map[] && lruQueue == []
    {
      maxCacheSize := cacheSize;
      emulateTryEmplace := emulate;
      keyMap := map[];
      lruQueue := [];
      nodes := map[];
      nextNode := 0;
    }

    /** `get`: on a hit the item is spliced to the back of the list and its
        value returned; a miss changes nothing. */
    method Get(key: K) returns (r: Option<V>)
      requires Valid()
      modifies this
      ensures Valid() && old(NodesLive(lruQueue, nodes)) && NodesLive(lruQueue, nodes)
      ensures r == Lookup(old(Contents()), key)
      ensures Contents() == AfterGet(old(Contents()), key)
      ensures keyMap == old(keyMap) && nodes == old(nodes)
      ensures key in keyMap ==> lruQueue != [] && Some(lruQueue[|lruQueue| - 1]) == keyMap[key].queueLocation
      ensures key !in keyMap ==> lruQueue == old(lruQueue)
    {
      LinkedContents(lruQueue, nodes, keyMap, nextNode);
      if key in keyMap {
        var it := keyMap[key].queueLocation.value;
        ghost var p := LinkedFind(lruQueue, nodes, keyMap, nextNode, key);
        LinkedSplice(lruQueue, nodes, keyMap, nextNode, p);
        PushToQueueEnd(it);
        r := Some(nodes[it].value);
      } else {
        LinkedMissing(lruQueue, nodes, keyMap, nextNode, key);
        r := None;
      }
    }

    /** `put`: stores the value under the key and makes it the most recently
        used one, evicting the least recently used key when a new key makes
        the map exceed `maxCacheSize`; returns whether the key was new. */
    method Put(key: K, value: V) returns (inserted: bool)
      requires Valid()
      modifies this
      ensures Valid() && old(NodesLive(lruQueue, nodes)) && NodesLive(lruQueue, nodes)
      ensures inserted <==> Lookup(old(Contents()), key).None?
      ensures Contents() == AfterPut(old(Contents()), maxCacheSize, key, value)
      ensures key in keyMap && lruQueue != [] && Some(lruQueue[|lruQueue| - 1]) == keyMap[key].queueLocation
    {
      LinkedContents(lruQueue, nodes, keyMap, nextNode);
      if key in keyMap {
        ghost var p := LinkedFind(lruQueue, nodes, keyMap, nextNode, key);
      } else {
        LinkedMissing(lruQueue, nodes, keyMap, nextNode, key);
      }
      inserted := InsertIntoMap(key);
      inserted := FinishPutOperation(key, inserted, value);
    }

    /** `insertIntoMap`: gives a new key a default entry and leaves an
        existing one alone, whether by `try_emplace` or by `find` then
        `emplace`; the two paths have the same effect. */
    method InsertIntoMap(key: K) returns (inserted: bool)
      requires Valid()
      modifies this
      ensures inserted <==> key !in old(keyMap)
      ensures keyMap == if inserted then old(keyMap)[key := Entry(None)] else old(keyMap)
      ensures lruQueue == old(lruQueue) && nodes == old(nodes) && nextNode == old(nextNode)
      ensures inserted ==> Pending(key)
      ensures !inserted ==> Valid()
    {
      if emulateTryEmplace {
        if key in keyMap {
          return false;
        }
        keyMap := keyMap[key := Entry(None)];
        inserted := true;
      } else {
        inserted := key !in keyMap;
        if inserted {
          keyMap := keyMap[key := Entry(None)];
        }
      }
      if inserted {
        assert keyMap - {key} == old(keyMap);
      }
    }

    /** `finishPutOperation`: an existing key's item gets the value and is
        spliced to the back; for a new key the front item is popped and its
        key erased when the map now holds more than `maxCacheSize` keys, and
        a new item is appended and the key's entry pointed at it. */
    method FinishPutOperation(key: K, inserted: bool, value: V) returns (r: bool)
      requires inserted ==> Pending(key)
      requires !inserted ==> Valid() && key in keyMap
      modifies this
      ensures r == inserted
      ensures Valid() && old(NodesLive(lruQueue, nodes)) && NodesLive(lruQueue, nodes)
      ensures Contents() == AfterPut(old(Contents()), maxCacheSize, key, value)
      ensures key in keyMap && lruQueue != [] && Some(lruQueue[|lruQueue| - 1]) == keyMap[key].queueLocation
      ensures !inserted ==> keyMap == old(keyMap)
    {
      if !inserted {
        // a hit: overwrite the value and promote the entry
        OverwriteValue(key, value);
        return false;
      }
      InsertItem(key, value);
      r := true;
    }

    /** The path of `finishPutOperation` for a new key. */
    method InsertItem(key: K, value: V)
      requires Pending(key)
      modifies this
      ensures Valid() && old(NodesLive(lruQueue, nodes)) && NodesLive(lruQueue, nodes)
      ensures Contents() == AfterPut(old(Contents()), maxCacheSize, key, value)
      ensures |old(keyMap)| <= maxCacheSize ==> keyMap == old(keyMap)[key := Entry(Some(old(nextNode)))]
      ensures |old(keyMap)| > maxCacheSize ==>
                && old(Contents()) != []
                && keyMap == (old(keyMap) - {old(Contents())[0].key})[key := Entry(Some(old(nextNode)))]
      ensures lruQueue != [] && Some(lruQueue[|lruQueue| - 1]) == keyMap[key].queueLocation
    {
      LinkedMissing(lruQueue, nodes, keyMap - {key}, nextNode, key);
      if |keyMap| > maxCacheSize {
        PopOldest(key);
      }
      AppendItem(key, value);
    }

    /** The path of `finishPutOperation` for a key already in the map. */
    method OverwriteValue(key: K, value: V)
      requires Valid() && key in keyMap
      modifies this
      ensures Valid() && old(NodesLive(lruQueue, nodes)) && NodesLive(lruQueue, nodes)
      ensures Contents() == AfterPut(old(Contents()), maxCacheSize, key, value)
      ensures keyMap == old(keyMap)
      ensures lruQueue != [] && Some(lruQueue[|lruQueue| - 1]) == keyMap[key].queueLocation
    {
      ghost var p := LinkedFind(lruQueue, nodes, keyMap, nextNode, key);
      ghost var s := Contents();
      LinkedContents(lruQueue, nodes, keyMap, nextNode);
      LinkedOverwrite(lruQueue, nodes, keyMap, nextNode, p, value);
      var it := keyMap[key].queueLocation.value;
      nodes := nodes[it := nodes[it].(value := value)];
      LinkedSplice(lruQueue, nodes, keyMap, nextNode, p);
      PushToQueueEnd(it);
    }

    /** The eviction in `finishPutOperation`: the front item is popped and
        its key erased from the map. */
    method PopOldest(key: K)
      requires Pending(key) && |keyMap| > maxCacheSize
      modifies this
      ensures Pending(key) && |keyMap| <= maxCacheSize
      ensures old(NodesLive(lruQueue, nodes)) && NodesLive(lruQueue, nodes)
      ensures old(Contents()) != [] && Contents() == old(Contents())[1..]
      ensures keyMap == old(keyMap) - {old(Contents())[0].key}
      ensures nextNode == old(nextNode)
    {
      PendingPopFront(lruQueue, nodes, keyMap, nextNode, key);
      var eloc := nodes[lruQueue[0]].mapLocation;
      nodes := nodes - {lruQueue[0]};
      lruQueue := lruQueue[1..];
      keyMap := keyMap - {eloc};
    }

    /** The insertion in `finishPutOperation`: a new item for the key is
        appended and the key's entry pointed at it. */
    method AppendItem(key: K, value: V)
      requires Pending(key) && |keyMap| <= maxCacheSize
      modifies this
      ensures Valid() && old(NodesLive(lruQueue, nodes)) && NodesLive(lruQueue, nodes)
      ensures Contents() == old(Contents()) + [Pair(key, value)]
      ensures keyMap == old(keyMap)[key := Entry(Some(old(nextNode)))]
      ensures lruQueue != [] && Some(lruQueue[|lruQueue| - 1]) == keyMap[key].queueLocation
    {
      PendingAppend(lruQueue, nodes, keyMap, nextNode, key, value);
      var it := nextNode;
      nextNode := nextNode + 1;
      nodes := nodes[it := QueueItem(value, key)];
      lruQueue := lruQueue + [it];
      keyMap := keyMap[key := Entry(Some(it))];
    }

    /** `pushToQueueEnd`: `splice` of the item to the end of the list. */
    method PushToQueueEnd(it: nat)
      requires it in lruQueue
      modifies this
      ensures lruQueue == Without(old(lruQueue), it) + [it]
      ensures keyMap == old(keyMap) && nodes == old(nodes) && nextNode == old(nextNode)
    {
      lruQueue := Without(lruQueue, it) + [it];
    }
  }
}
