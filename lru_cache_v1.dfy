/** LRUCacheV1.h: an LRU cache whose recency list is a hand-made circular
    doubly linked list over a vector of slots, with an associative container
    from each key to the index of its slot. The key map is a `map`; which
    container (ordered, hashed, boost or std) holds it does not change the
    behaviour, and the two `insertIntoMap` overloads (`emplace` and
    `try_emplace`) both insert `keyMap.size() + 1` only when the key is new. */
module LruCacheV1 {
  import opened Lists
  import opened LruSpec
  import opened ArenaRing

  class LRUCache<K(==), V(0)> {
    /** The slots; slot 0 is the sentinel of the ring. */
    var entries: seq<Entry<K, V>>
    /** Each cached key to the index of its slot. */
    var keyMap: map<K, int>
    const maxCacheSize: int
    /** The live slots in ring order, least recently used first. */
    ghost var order: seq<int>

    ghost predicate Valid()
      reads this
    {
      ArenaInv(entries, order, keyMap, maxCacheSize) && WellFormed(entries, order)
    }

    /** What the cache holds, least recently used first. */
    ghost function Contents(): seq<Pair<K, V>>
      reads this
      requires Valid()
    {
      Abstract(entries, order)
    }

    /** Between `insertIntoMap` and `finishPutOperation` for a new key: the
        key is mapped to `keyMap.size()` and the rest of the cache is intact. */
    ghost predicate Pending(key: K)
      reads this
    {
      && key in keyMap && keyMap[key] == |keyMap|
      && ArenaInv(entries, order, keyMap - {key}, maxCacheSize) && WellFormed(entries, order)
    }

    /** The cache starts empty, holding only the self-linked sentinel. */
    constructor (cacheSize: int)
      requires cacheSize >= 1
      ensures Valid() && Contents() == []
      ensures maxCacheSize == cacheSize && keyMap == map[]
      ensures |entries| == 1 && entries[0].next == 0 && entries[0].prev == 0 && entries[0].keyLocation == None
    {
      maxCacheSize := cacheSize;
      keyMap := map[];
      var sentinelValue: V := *;
      entries := [Entry(0, 0, sentinelValue, None)];
      order := [];
    }

    /** `get`: on a hit the slot becomes the most recently used one and its
        value is returned; a miss changes nothing. */
    method Get(key: K) returns (r: Option<V>)
      requires Valid()
      modifies this
      ensures Valid()
      ensures r == Lookup(old(Contents()), key)
      ensures Contents() == AfterGet(old(Contents()), key)
      ensures keyMap == old(keyMap)
      ensures key in keyMap ==> entries[0].prev == keyMap[key]
      ensures key !in keyMap ==> entries == old(entries) && order == old(order)
    {
      assert |keyMap| <= maxCacheSize;
      if key in keyMap {
        var entryIndex := keyMap[key];
        ghost var es0, o0 := entries, order;
        RingDistinct(order, |entries|);
        PushIntoQueue(entryIndex);
        GetPromotes(es0, o0, keyMap, maxCacheSize, key, entries, order);
        r := Some(entries[entryIndex].value);
      } else {
        MissingKey(entries, order, keyMap, maxCacheSize, key);
        r := None;
      }
    }

    /** `put`: stores the value under the key and makes it the most recently
        used one, evicting the least recently used key when a new key finds
        the cache full; returns whether the key was new. */
    method Put(key: K, value: V) returns (inserted: bool)
      requires Valid()
      modifies this
      ensures Valid()
      ensures inserted <==> Lookup(old(Contents()), key).None?
      ensures Contents() == AfterPut(old(Contents()), maxCacheSize, key, value)
      ensures key in keyMap && entries[0].prev == keyMap[key]
      ensures !inserted ==> keyMap == old(keyMap)
      ensures inserted && Evicted(old(Contents()), maxCacheSize, key).None? ==>
                keyMap == old(keyMap)[key := |old(entries)|]
      ensures Evicted(old(Contents()), maxCacheSize, key).Some? ==>
                keyMap == old(keyMap)[key := old(entries[0].next)] - {Evicted(old(Contents()), maxCacheSize, key).value}
    {
      if key in keyMap {
        ghost var p := FindSlot(entries, order, keyMap, maxCacheSize, key);
      } else {
        MissingKey(entries, order, keyMap, maxCacheSize, key);
      }
      ghost var m := keyMap;
      inserted := InsertIntoMap(key);
      inserted := FinishPutOperation(key, inserted, value);
      MapUpdateTwice(m, key, |m| + 1, old(entries[0].next));
    }

    /** `insertIntoMap`: maps a new key to `keyMap.size() + 1`, the slot it
        will get if the cache is not full; an existing key is left alone. */
    method InsertIntoMap(key: K) returns (inserted: bool)
      requires Valid()
      modifies this
      ensures inserted <==> key !in old(keyMap)
      ensures keyMap == if inserted then old(keyMap)[key := |old(keyMap)| + 1] else old(keyMap)
      ensures entries == old(entries) && order == old(order)
      ensures inserted ==> Pending(key)
      ensures !inserted ==> Valid()
    {
      assert |keyMap| <= maxCacheSize;
      if key in keyMap {
        inserted := false;
      } else {
        ghost var m := keyMap;
        keyMap := keyMap[key := |keyMap| + 1];
        assert keyMap - {key} == m;
        inserted := true;
      }
    }

    /** `finishPutOperation`: an existing key gets the new value; a new key
        gets a fresh slot appended to the vector, or, when that would exceed
        `maxCacheSize`, takes over the least recently used slot, whose old
        key is erased from the map; either way the slot becomes the most
        recently used one. */
    method FinishPutOperation(key: K, inserted: bool, value: V) returns (r: bool)
      requires inserted ==> Pending(key)
      requires !inserted ==> Valid() && key in keyMap
      modifies this
      ensures r == inserted
      ensures Valid()
      ensures Contents() == AfterPut(old(Abstract(entries, order)), maxCacheSize, key, value)
      ensures key in keyMap && entries[0].prev == keyMap[key]
      ensures !inserted ==> keyMap == old(keyMap)
      ensures inserted && |old(keyMap)| <= maxCacheSize ==> keyMap == old(keyMap) && keyMap[key] == |old(entries)|
      ensures inserted && |old(keyMap)| > maxCacheSize ==>
                && old(Abstract(entries, order)) != []
                && keyMap == old(keyMap)[key := old(entries[0].next)] - {old(Abstract(entries, order))[0].key}
    {
      var entryIndex := keyMap[key];
      if !inserted {
        // a hit: overwrite the value and promote the entry
        OverwriteValue(key, value);
        return false;
      }
      assert entryIndex == |keyMap|;
      if entryIndex <= maxCacheSize {
        AppendSlot(key, value);
      } else {
        ReuseOldestSlot(key, value);
      }
      r := true;
    }

    /** The path of `finishPutOperation` for a key already in the map. */
    method OverwriteValue(key: K, value: V)
      requires Valid() && key in keyMap
      modifies this
      ensures Valid()
      ensures Contents() == AfterPut(old(Contents()), maxCacheSize, key, value)
      ensures keyMap == old(keyMap) && entries[0].prev == keyMap[key]
    {
      var entryIndex := keyMap[key];
      ghost var es0, o0 := entries, order;
      ReadyToPush(entries, order, keyMap, maxCacheSize, entryIndex, entries[entryIndex].(value := value));
      entries := entries[entryIndex := entries[entryIndex].(value := value)];
      PushIntoQueue(entryIndex);
      PutOverwrites(es0, o0, keyMap, maxCacheSize, key, value, entries, order);
    }

    /** The path of `finishPutOperation` for a new key while the cache is not
        full: the new slot goes at index `keyMap.size()`. */
    method AppendSlot(key: K, value: V)
      requires Pending(key) && keyMap[key] <= maxCacheSize
      modifies this
      ensures Valid()
      ensures Contents() == AfterPut(old(Abstract(entries, order)), maxCacheSize, key, value)
      ensures keyMap == old(keyMap) && keyMap[key] == |old(entries)| && entries[0].prev == keyMap[key]
    {
      var entryIndex := keyMap[key];
      ghost var es0, o0 := entries, order;
      SlotAppended(entries, order, keyMap - {key}, maxCacheSize, key, value);
      entries := entries + [Entry(entryIndex, entryIndex, value, Some(key))];
      PushIntoQueue(entryIndex);
      PutAppends(es0, o0, keyMap, maxCacheSize, key, value, entries, order);
    }

    /** The path of `finishPutOperation` for a new key when the cache is
        full: the least recently used slot `entries[0].next` is taken over
        and its old key erased from the map. */
    method ReuseOldestSlot(key: K, value: V)
      requires Pending(key) && keyMap[key] > maxCacheSize
      modifies this
      ensures Valid()
      ensures Contents() == AfterPut(old(Abstract(entries, order)), maxCacheSize, key, value)
      ensures old(Abstract(entries, order)) != []
      ensures keyMap == old(keyMap)[key := old(entries[0].next)] - {old(Abstract(entries, order))[0].key}
      ensures entries[0].prev == keyMap[key]
    {
      ghost var es0, o0, M := entries, order, keyMap;
      SlotReused(entries, order, keyMap, maxCacheSize, key, value);
      var entryIndex := entries[0].next;
      keyMap := keyMap[key := entryIndex];
      keyMap := keyMap - {entries[entryIndex].keyLocation.value};
      entries := entries[entryIndex := entries[entryIndex].(value := value)];
      entries := entries[entryIndex := entries[entryIndex].(keyLocation := Some(key))];
      RekeyWrites(es0, entryIndex, value, key);
      ReadyToPush(es0, o0, M - {key}, maxCacheSize, entryIndex,
                  es0[entryIndex].(value := value, keyLocation := Some(key)));
      PushIntoQueue(entryIndex);
      PutReuses(es0, o0, M, maxCacheSize, key, value, entries, order);
    }

    /** `pushIntoQueue`: the slot leaves its place in the ring (a fresh slot
        is linked only to itself, and leaving changes nothing) and is linked
        in just before the sentinel, as the most recently used one. */
    method PushIntoQueue(entryIndex: int)
      requires Closed(entries, [0] + order) && Distinct([0] + order) && 0 < entryIndex < |entries|
      requires entryIndex in order ||
               (entries[entryIndex].next == entryIndex && entries[entryIndex].prev == entryIndex)
      modifies this
      ensures order == Without(old(order), entryIndex) + [entryIndex]
      ensures Closed(entries, [0] + order) && SamePayload(old(entries), entries)
      ensures entries[0].prev == entryIndex
      ensures keyMap == old(keyMap)
    {
      PushedToBack(entries, order, entryIndex);
      var e := entries[entryIndex];
      entries := entries[e.prev := entries[e.prev].(next := e.next)];
      e := entries[entryIndex];
      entries := entries[e.next := entries[e.next].(prev := e.prev)];
      assert entries == Unlink(old(entries), entryIndex);
      ghost var unlinked := entries;
      var sentinel := entries[0];
      entries := entries[entryIndex := entries[entryIndex].(prev := sentinel.prev)];
      entries := entries[entryIndex := entries[entryIndex].(next := 0)];
      sentinel := entries[0];
      entries := entries[sentinel.prev := entries[sentinel.prev].(next := entryIndex)];
      entries := entries[0 := entries[0].(prev := entryIndex)];
      assert entries == LinkLast(unlinked, entryIndex) by {
        LinkLastInSteps(unlinked, entryIndex);
      }
      order := Without(order, entryIndex) + [entryIndex];
      assert [0] + order == [0] + Without(old(order), entryIndex) + [entryIndex];
    }
  }
}
