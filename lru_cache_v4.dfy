/** LRUCacheV4.h: an LRU cache kept in one `boost::multi_index_container`
    of (key, value) entries with two indices: a sequenced index, the
    recency order with the least recently used entry first, and a unique
    index on the key. The container is modelled as the sequence of its
    entries in sequenced order; the key index is a lookup in it, which
    finds at most one entry because keys are unique. Because the container
    is the contents sequence itself, `Get` and `Put` are written out as the
    container operations the source calls (`relocate` to the end,
    `pop_front`, `emplace_back`), and their contracts tie the result to
    `AfterGet` and `AfterPut`. */
module LruCacheV4 {
  import opened Lists
  import opened LruSpec

  class LRUCache<K(==), V(0)> {
    /** The entries in sequenced order. */
    var entries: seq<Pair<K, V>>
    const maxCacheSize: int

    ghost predicate Valid()
      reads this
    {
      Inv(entries, maxCacheSize)
    }

    /** The cache starts empty. */
    constructor (cacheSize: int)
      requires cacheSize >= 1
      ensures Valid() && entries == [] && maxCacheSize == cacheSize
    {
      maxCacheSize := cacheSize;
      entries := [];
    }

    /** `get`: a hit relocates the entry to the end of the sequenced index
        and returns its value with `true`; a miss returns `false` and
        changes nothing. */
    method Get(key: K) returns (found: bool, value: V)
      requires Valid()
      modifies this
      ensures Valid()
      ensures found <==> Lookup(old(entries), key).Some?
      ensures found ==> value == Lookup(old(entries), key).value
      ensures entries == AfterGet(old(entries), key)
    {
      GetKeepsInv(entries, maxCacheSize, key);
      var l := IndexOfKey(entries, key);
      if l.Some? {
        entries := MoveToBack(entries, l.value);
        found, value := true, entries[|entries| - 1].value;
      } else {
        found, value := false, *;
      }
    }

    /** `put`: an existing entry gets the value and is relocated to the
        end; otherwise the front entry is popped when the cache is full and
        the new entry emplaced at the back. */
    method Put(key: K, value: V)
      requires Valid()
      modifies this
      ensures Valid()
      ensures entries == AfterPut(old(entries), maxCacheSize, key, value)
    {
      PutKeepsInv(entries, maxCacheSize, key, value);
      var l := IndexOfKey(entries, key);
      if l.Some? {
        entries := entries[l.value := entries[l.value].(value := value)];
        entries := MoveToBack(entries, l.value);
        return;
      }
      if |entries| >= maxCacheSize {
        entries := entries[1..];
      }
      entries := entries + [Pair(key, value)];
    }
  }
}
