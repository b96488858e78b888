# LRU cache, six ways

LRUCacheTest implements one contract six times: a key-to-value cache of
fixed capacity with least-recently-used replacement. Both `get` and `put`
count as a use of a key and make it the most recently used one. A `put` of a
new key into a full cache evicts the least recently used key. The six
headers differ in the data structures behind that contract:

- `LRUCacheV1.h` and `LRUCacheV5.h` keep the entries in a vector of slots.
  Integer `next`/`prev` fields link the slots into a circular doubly linked
  list through a sentinel slot 0. A key map sends each key to its slot, and
  each slot keeps a handle (`keyLocation`) back to its map entry. When the
  cache is full, the least recently used slot is reused in place.
- `LRUCacheV2.h` keeps a `std::list` of (value, map iterator) items as the
  recency queue, and a map from each key to the iterator of its item.
- `LRUCacheV6.h` threads the map's own entries on an intrusive list.
- `LRUCacheV3.h` keeps the entries in a vector that never grows past the
  capacity. An intrusive list and an intrusive set thread the entries; when
  the vector is full, the front entry is reused in place.
- `LRUCacheV4.h` uses one multi-index container with a sequenced index and a
  unique key index.

The project has one abstract specification and six refinements of it:

- `LruSpec` is the specification. The state is a sequence of (key, value)
  pairs, least recently used first, with distinct keys and never longer than
  the capacity. `Lookup`, `AfterGet` and `AfterPut` say what `get` and `put`
  return and leave behind. Lemmas prove the invariant and the round trips on
  this sequence, and how eviction and promotion interact.
- `Lists` holds the sequence operations behind it: `Without`, a list
  `splice` to the end, and `MoveToBack`.
- Each header is a Dafny `class` whose fields are the header's containers.
  Its methods change those fields step by step, as the header does. Each
  class has a `Valid()` invariant. V1, V2, V3, V5 and V6 also have a ghost
  `Contents()`, and their `Get` and `Put` are proved to act on it as
  `Lookup`, `AfterGet` and `AfterPut`. V4's `entries` field is the
  contents itself, so its `Get` and `Put` are stated on `entries`
  directly. The classes are `LruCacheV1` to `LruCacheV6`.
- `ArenaRing` holds the slot ring that V1 and V5 share. It proves that
  `pushIntoQueue`'s six link writes move a slot to the most recently used
  end of the ring, and it proves the whole-cache invariant: one slot per key
  plus the sentinel, the ring visits every slot once, `prev` inverts `next`,
  and the key map and the slots' handles point at each other.
- `LruScenarios` replays the two sanity tests of `LRUCacheTest.cpp` on the
  specification.

## Model

| member | source | states |
|---|---|---|
| LruSpec.IndexOfKey | LRUCacheV4.h:38-46 | the key index finds the one position holding the key, or reports that no pair holds it |
| LruSpec.Lookup | LRUCacheV4.h:38-46 | `get` hits exactly when some stored pair has the key, and the value it returns is the value of that pair |
| LruSpec.AfterGet | LRUCacheV4.h:38-46 | a miss changes nothing; a hit puts the found pair at the back, keeps the length, and keeps the multiset of pairs |
| LruSpec.AfterPut | LRUCacheV4.h:52-65 | after `put(k, v)` the pair (k, v) is the most recently used; the length grows by one only for a new key in a cache that is not full |
| LruSpec.EvictedIsLost | LRUCacheV4.h:61-64 | a `put` loses exactly one stored key or none: a key that was found before the put and is missing after it is the front (least recently used) key, evicted because the put's key was new and the cache full; and when that happens the front key is indeed lost |
| LruSpec.LookupIsMember | LRUCacheV4.h:38-46 | with distinct keys, `get(k)` returns `v` if and only if the pair (k, v) is stored |
| LruSpec.GetKeepsInv | LRUCacheV4.h:38-46 | `get` keeps the keys distinct and the size within the capacity |
| LruSpec.PutKeepsInv | LRUCacheV4.h:52-65 | `put` keeps the keys distinct and the size within the capacity |
| LruSpec.PutThenLookup | LRUCacheV4.h:52-65 | round trip: right after `put(k, v)`, `get(k)` returns `v` |
| LruSpec.PutLookupOther | LRUCacheV4.h:52-65 | `put(k, v)` leaves the lookup of every other key alone, except the evicted key, which then misses |
| LruSpec.GetLookupAny | LRUCacheV4.h:38-46 | `get` changes no key's lookup; it moves only the recency order |
| LruSpec.PutAllFresh | LRUCacheV4.h:61-64 | putting new keys one after another keeps exactly the `capacity` most recently put pairs, in put order |
| LruSpec.FillEvictsOldest | LRUCacheV4.h:61-64 | filling a cache of capacity C with C + 1 distinct keys evicts the first key and keeps every other key with its value |
| LruSpec.TailLookups | LRUCacheV4.h:61-63 | after the front pair is popped, its key misses and every other pair is still found with its value |
| LruSpec.PromotionPreventsEviction | LRUCacheV4.h:38-64 | in a full cache, a `get` of the least recently used key saves it from the next insertion of a new key, which evicts the second oldest key instead |
| LruSpec.DistinctKeysMoveToBack | LRUCacheV4.h:42 | relocating an entry to the end keeps the keys unique |
| Lists.Without | LRUCacheV2.h:308-310 | removing an element takes out every occurrence of it, keeps every other element and adds none, and never makes the list longer |
| Lists.MoveToBack | LRUCacheV4.h:42 | the chosen element ends up at the back and the others keep their relative order: the same elements, permuted |
| Lists.SpliceToEnd | LRUCacheV2.h:308-310 | in a list without duplicates, `splice` of an element to the end is `MoveToBack` of its position |
| Lists.WithoutAt | LRUCacheV2.h:308-310 | in a list without duplicates, removing an element removes exactly its position |
| Lists.WithoutLast | LRUCacheV6.h:88-91 | splicing the last element of a list without duplicates to the end changes nothing |
| Lists.DistinctMoveToBack | LRUCacheV4.h:42 | moving an element to the back keeps a list free of duplicates |
| ArenaRing.ArenaContents | LRUCacheV1.h:328-330 | under the arena invariant, the live slots' keys are distinct and at most `maxCacheSize` |
| ArenaRing.RingWalk | LRUCacheV1.h:328-330 | walking `next` from the sentinel visits every live slot once, least to most recently used, and returns to the sentinel; `prev` is the inverse of `next` on every slot |
| ArenaRing.NextPrevInverse | LRUCacheV1.h:305-315 | on a ring through every slot, `prev` undoes `next` |
| ArenaRing.PushedToBack | LRUCacheV1.h:305-315 | `pushIntoQueue`'s writes take a slot, either on the ring or a fresh self-linked slot, to the most recently used end; the other slots keep their ring order, and only links change |
| ArenaRing.UnlinkLinks | LRUCacheV1.h:307-308 | the unlink writes of `pushIntoQueue`: the previous slot's `next` becomes the slot's `next`, the next slot's `prev` becomes the slot's `prev`, and every other link is unchanged |
| ArenaRing.LinkLastLinks | LRUCacheV1.h:310-314 | the link writes of `pushIntoQueue`: the slot points back to the old most recent slot and forward to the sentinel, both of those point to it, payloads and every other link are unchanged |
| ArenaRing.UnlinkedFromRing | LRUCacheV1.h:306-308 | the first two writes of `pushIntoQueue` join the slot's two neighbours and take the slot off the ring |
| ArenaRing.UnlinkSelfLinked | LRUCacheV1.h:306-308 | for a fresh slot linked to itself, the unlink writes change nothing |
| ArenaRing.LinkLastAppends | LRUCacheV1.h:310-314 | the last four writes of `pushIntoQueue` put a slot that is off the ring between the most recent slot and the sentinel |
| ArenaRing.LinkLastInSteps | LRUCacheV1.h:310-314 | the four link writes, made one after the other on the mutable slots, have the effect `LinkLast` describes |
| ArenaRing.PushMostRecent | LRUCacheV1.h:305-315 | `pushIntoQueue` of the slot that is already most recently used, including the only live slot, leaves every slot as it was |
| ArenaRing.RingDetermines | LRUCacheV1.h:328-330 | two slot vectors with the same payload that form the same ring through every slot are equal |
| ArenaRing.FindSlot | LRUCacheV1.h:97-103 | a key in the map is found by `IndexOfKey` at the ring position of its slot |
| ArenaRing.MissingKey | LRUCacheV1.h:97-105 | a key not in the map is in no live slot |
| ArenaRing.GetPromotes | LRUCacheV1.h:97-105 | after `pushIntoQueue` of a hit slot, the arena invariant holds and the contents are the specification's `AfterGet` |
| ArenaRing.PutOverwrites | LRUCacheV1.h:281-286 | overwriting a slot's value and pushing it to the back keeps the invariant and gives `AfterPut` for an existing key |
| ArenaRing.PutAppends | LRUCacheV1.h:288-293 | appending a self-linked slot for a new key and pushing it keeps the invariant and gives `AfterPut` in a cache that is not full |
| ArenaRing.PutReuses | LRUCacheV1.h:294-302 | reusing the least recently used slot `entries[0].next` for a new key, with its old key erased through `keyLocation`, keeps the invariant and gives `AfterPut` in a full cache |
| ArenaRing.SlotReused | LRUCacheV1.h:294-301 | in a full cache, the slot after the sentinel holds the oldest key, which differs from the new key; rekeying that slot keeps the map and the handles inverse |
| ArenaRing.ValueOverwritten | LRUCacheV1.h:283 | writing a slot's value changes only that pair's value in the contents |
| ArenaRing.AppendedSlotLinked | LRUCacheV1.h:289-293 | a new slot at index `keyMap.size()`, once linked last, extends the contents by the new pair and restores the invariant |
| ArenaRing.ReadyToPush | LRUCacheV1.h:283-284 | rewriting a live slot's payload leaves the ring intact, so `pushIntoQueue` may follow |
| LruCacheV1.LRUCache.constructor | LRUCacheV1.h:88-95 | the cache starts with only the sentinel, linked to itself, and an empty map: empty contents |
| LruCacheV1.LRUCache.Get | LRUCacheV1.h:97-105 | returns `Lookup` of the old contents; the contents become `AfterGet`; a hit slot becomes `entries[0].prev`; a miss changes nothing |
| LruCacheV1.LRUCache.Put | LRUCacheV1.h:107-111 | returns true exactly for a new key; the contents become `AfterPut`; the key's slot becomes `entries[0].prev`; the map gains the key at slot `keyMap.size() + 1`, or at the reused slot with the evicted key erased |
| LruCacheV1.LRUCache.InsertIntoMap | LRUCacheV1.h:242-257 | both overloads insert a new key with slot `keyMap.size() + 1` and change nothing for an existing key |
| LruCacheV1.LRUCache.FinishPutOperation | LRUCacheV1.h:279-304 | from the state `insertIntoMap` leaves, ends in the invariant with contents `AfterPut` and returns whether the key was new |
| LruCacheV1.LRUCache.OverwriteValue | LRUCacheV1.h:282-286 | an existing key's slot gets the value and becomes the most recent; the map is unchanged |
| LruCacheV1.LRUCache.AppendSlot | LRUCacheV1.h:289-293 | a new key in a cache that is not full gets a fresh slot at the end of the arena, pushed to the most recent end |
| LruCacheV1.LRUCache.ReuseOldestSlot | LRUCacheV1.h:294-302 | a new key in a full cache takes over slot `entries[0].next`; the old key leaves the map |
| LruCacheV1.LRUCache.PushIntoQueue | LRUCacheV1.h:305-315 | the slot moves to the most recent end of the ring, and `entries[0].prev` is that slot; payloads and the map are unchanged |
| LruCacheV5.LRUCache.constructor | LRUCacheV5.h:32-37 | the cache starts with only the sentinel, linked to itself, and an empty map |
| LruCacheV5.LRUCache.Get | LRUCacheV5.h:54-62 | returns `Lookup`; the contents become `AfterGet`; a hit slot becomes `entries[0].prev`; a miss changes nothing |
| LruCacheV5.LRUCache.Put | LRUCacheV5.h:64-91 | returns true exactly for a new key; the contents become `AfterPut`; map updates as in V1 |
| LruCacheV5.LRUCache.OverwriteValue | LRUCacheV5.h:68-73 | an existing key ignores the precomputed index; its slot gets the value and becomes the most recent |
| LruCacheV5.LRUCache.AppendSlot | LRUCacheV5.h:75-80 | a new key in a cache that is not full gets slot `keyMap.size()`, appended and pushed |
| LruCacheV5.LRUCache.ReuseOldestSlot | LRUCacheV5.h:81-89 | a new key in a full cache takes over slot `entries[0].next`; the old key leaves the map |
| LruCacheV5.LRUCache.PushIntoQueue | LRUCacheV5.h:94-104 | the slot moves to the most recent end; the other slots keep their order |
| LruCacheV2.LinkedContents | LRUCacheV2.h:312-325 | when list and map point at each other, the list's keys are distinct and as many as the map's |
| LruCacheV2.LinkedFind | LRUCacheV2.h:113-116 | a key's `queueLocation` is the list position of its item |
| LruCacheV2.LinkedMissing | LRUCacheV2.h:113-120 | a key not in the map is in no list item |
| LruCacheV2.LinkedPopFront | LRUCacheV2.h:298-302 | popping the front item and erasing its `mapLocation` keeps list and map linked and drops the front pair |
| LruCacheV2.LinkedAppend | LRUCacheV2.h:303-304 | an item appended for a new key, with its `queueLocation` set, keeps list and map linked and appends the pair |
| LruCacheV2.LRUCache.constructor | LRUCacheV2.h:110-111 | the cache starts empty |
| LruCacheV2.LRUCache.Get | LRUCacheV2.h:113-120 | returns `Lookup`; the contents become `AfterGet`; a hit item is at the back of the list; a miss changes nothing |
| LruCacheV2.LRUCache.Put | LRUCacheV2.h:122-126 | returns true exactly for a new key; the contents become `AfterPut`; the key's item is at the back of the list |
| LruCacheV2.LRUCache.InsertIntoMap | LRUCacheV2.h:253-289 | the `find`-and-`emplace` emulation and `try_emplace` behave alike: a new key gets a default entry, and an existing key changes nothing |
| LruCacheV2.LRUCache.FinishPutOperation | LRUCacheV2.h:291-306 | from the state `insertIntoMap` leaves, ends in the invariant with contents `AfterPut` and returns whether the key was new |
| LruCacheV2.LRUCache.OverwriteValue | LRUCacheV2.h:293-297 | an existing key's item gets the value and is spliced to the back; the map is unchanged |
| LruCacheV2.LRUCache.InsertItem | LRUCacheV2.h:298-305 | the new-key path of `finishPutOperation`: the contents become `AfterPut`; the map gains the key, and loses the front item's key exactly when it already held more than `maxCacheSize` keys; the key's `queueLocation` is the last node of the queue |
| LruCacheV2.LRUCache.PopOldest | LRUCacheV2.h:298-302 | when the map exceeds the capacity, the front item is popped and its key erased |
| LruCacheV2.LRUCache.AppendItem | LRUCacheV2.h:303-305 | the new item goes to the back and the key's `queueLocation` points at it |
| LruCacheV2.LRUCache.PushToQueueEnd | LRUCacheV2.h:308-310 | `splice` to the end: the item is removed from its place and put at the back |
| LruCacheV6.LinkedContents | LRUCacheV6.h:93-113 | the list's keys are distinct and as many as the map's entries |
| LruCacheV6.LinkedPopFront | LRUCacheV6.h:73-77 | popping the front entry and erasing it through its `keyLocation` keeps list and map linked and drops the front pair |
| LruCacheV6.LinkedAppend | LRUCacheV6.h:79-84 | inserting a new entry, recording its `keyLocation` and pushing it back appends the pair |
| LruCacheV6.LRUCache.constructor | LRUCacheV6.h:34-37 | the cache starts empty |
| LruCacheV6.LRUCache.Get | LRUCacheV6.h:54-62 | returns `Lookup`; the contents become `AfterGet`; a hit entry is at the back of the list; a miss changes nothing |
| LruCacheV6.LRUCache.Put | LRUCacheV6.h:64-85 | returns true exactly for a new key; the contents become `AfterPut`; the map is the old one with the value changed, or with the new entry added and, when full, the front key erased first |
| LruCacheV6.LRUCache.OverwriteValue | LRUCacheV6.h:66-71 | an existing key's entry gets the value and is spliced to the back |
| LruCacheV6.LRUCache.EvictFront | LRUCacheV6.h:73-77 | the front entry leaves the list and the map, and the size drops below the capacity |
| LruCacheV6.LRUCache.InsertEntry | LRUCacheV6.h:79-84 | the new entry is inserted with its own key location and pushed to the back |
| LruCacheV6.LRUCache.PushToQueueEnd | LRUCacheV6.h:88-91 | `splice` to the end of the list |
| LruCacheV3.LinkedContents | LRUCacheV3.h:98-126 | when list and set thread every entry once, the contents' keys are distinct and as many as the set's |
| LruCacheV3.LinkedFind | LRUCacheV3.h:41-44 | a key of the set sits at the list position of its entry |
| LruCacheV3.EraseNodeIsKey | LRUCacheV3.h:73-78 | erasing the node of an entry removes exactly that entry's old key from the set |
| LruCacheV3.LinkedRekey | LRUCacheV3.h:68-79 | the front entry taken over by a new key, with the set rebuilt, keeps everything threaded and replaces the front pair |
| LruCacheV3.PendingReuse | LRUCacheV3.h:68-80 | reusing the front entry gives the contents without the front pair plus the new pair at the back |
| LruCacheV3.LinkedAppend | LRUCacheV3.h:81-90 | `emplace_back` of a new entry, threaded on the list and the set, appends the pair |
| LruCacheV3.LRUCache.constructor | LRUCacheV3.h:31-39 | the cache starts empty |
| LruCacheV3.LRUCache.Get | LRUCacheV3.h:41-48 | returns true with the value exactly on a hit; the contents become `AfterGet`; the vector and the set are unchanged |
| LruCacheV3.LRUCache.Put | LRUCacheV3.h:61-91 | the contents become `AfterPut`; the vector grows only for a new key while below the capacity |
| LruCacheV3.LRUCache.OverwriteValue | LRUCacheV3.h:62-67 | an existing key's entry gets the value and is spliced to the back |
| LruCacheV3.LRUCache.ReuseFront | LRUCacheV3.h:68-80 | in a full vector, the front entry gets the new key and value and moves to the back; the old key is replaced in the set; the vector size is unchanged |
| LruCacheV3.LRUCache.AppendEntry | LRUCacheV3.h:81-90 | below the capacity, the new entry is appended to the vector, the list and the set |
| LruCacheV3.LRUCache.PushToQueueEnd | LRUCacheV3.h:93-96 | `splice` of the entry to the end of the list |
| LruCacheV4.LRUCache.constructor | LRUCacheV4.h:36 | the cache starts empty |
| LruCacheV4.LRUCache.Get | LRUCacheV4.h:38-46 | returns true with the value exactly on a hit; the entries become `AfterGet` |
| LruCacheV4.LRUCache.Put | LRUCacheV4.h:52-65 | the entries become `AfterPut`, and so keep unique keys within the capacity |
| LruScenarios.FreshRound | LRUCacheTest.cpp:48-54 | in each round of the filling loop, the new key is read back with its value and `get(keys[0])` hits |
| LruScenarios.FillingLoop | LRUCacheTest.cpp:48-54 | in every round the key just put is read back with its value and then `get(keys[0])` hits; after the loop the cache holds the fifth to seventh pairs and then the first, which every round promoted |
| LruScenarios.Scenario | LRUCacheTest.cpp:48-70 | for any seven distinct keys and any values, every loop assert holds; after the loop the first key hits with its value and the second to fourth miss; each of the last three is read twice, the first read hits and the second returns its value; re-putting the second key evicts the first; putting it once more with the first value updates it |
| LruScenarios.Test1 | LRUCacheTest.cpp:44-71 | every assert of `test1`, inside and after the loop, including the value checks of the second reads (lines 61, 63 and 65), with its keys and string values, on a cache of capacity 4 |
| LruScenarios.Test2 | LRUCacheTest.cpp:73-99 | every assert of `test2`, inside and after the loop, including the value checks of the second reads (lines 89, 91 and 93), with each key's position as its value |
| LruScenarios.KeysDistinct | LRUCacheTest.cpp:46 | the seven test keys are distinct |

## Left out

- `description()` in V1, V2, V5 and V6: it only builds a string naming the containers in use.
- LRUCacheOptions.h, LRUCacheMapOptions.h and LRUCacheListOptions.h: type aliases and name strings for std, boost and emilib containers and allocators. Every key index is modelled as a `map` and every list as a `seq`.
- The benchmark in LRUCacheTest.cpp (`performanceTest`, `main`): it uses a random workload, timing and console output.
- Allocators, and the fixed bucket array of V3's intrusive set (LRUCacheV3.h:34-35, a set that never rehashes by itself): they affect performance only.
- `keyMap(2 * cacheSize)` in V1 and V2 (LRUCacheV1.h:89, LRUCacheV2.h:111) is not only for speed. In the builds that select a standard or boost unordered map (LRUCacheV1.h:76, LRUCacheV2.h:87), it sets the initial bucket count. The ordered-map builds never invalidate iterators, so there it changes nothing. The map never holds more than `maxCacheSize + 1` keys, so at the default load factor of 1 no insert rehashes it. V1's slots keep `MapType::iterator`s into the map (`keyLocation`, LRUCacheV1.h:326), and so do V2's queue items (`mapLocation`, LRUCacheV2.h:324). Both later erase through them, so both rely on the map never rehashing. The model identifies entries by key, so it does not capture iterator invalidation or the bucket count this needs.
- `keyMap.reserve(cacheSize)` in V5 and V6 (LRUCacheV5.h:36, LRUCacheV6.h:36) is not only for speed. V5's entries hold iterators into the emilib map (`keyLocation`), and V6's map stores the entries themselves, with their queue hooks. A rehash would move them and leave those iterators and hooks dangling, so both variants rely on the map never rehashing. V5 also holds `maxCacheSize + 1` keys for a moment, between its insert and its erase. The model identifies entries by key or index, so it captures neither the relocation nor the bucket count the reservation must cover.
- The overloads of `put` (copy and move of the key and the value): they forward to the same logic, so each class has one `Put`.
- Address, iterator and reference stability: slots and nodes are identified by index, handle or key. Whether the `const ValueType*` that `get` returns stays valid later is not modelled.
- The V3 intrusive hooks rely on `reserve` so that the vector never reallocates. The model identifies an entry by its index and proves that the vector never holds more than `maxCacheSize` entries.
- Capacity 0: every variant misbehaves with it, so each constructor requires `cacheSize >= 1`.
- `size_t` arithmetic is modelled with unbounded integers. The values involved are at most `maxCacheSize + 1`, so nothing wraps.
- LruCacheV3.LRUCache.Get: on a miss the source returns `ValueType()`, but the model returns an arbitrary value, because a generic Dafny type has no nameable default.
- LruCacheV4.LRUCache.Get: on a miss the source returns `ValueType()`, but the model returns an arbitrary value, for the same reason.
- LruCacheV1.LRUCache.constructor: the sentinel's value is `ValueType()` in the source and an arbitrary value in the model. No lookup ever reads it.
- LruCacheV5.LRUCache.constructor: the sentinel's value is arbitrary in the model, as in V1.
- `get` in V1, V2, V5 and V6 returns the address of the stored value, or `nullptr` on a miss; the model returns the value as an `Option`.
- The V3 hashed build rewrites an entry's key before erasing its node from the intrusive set. The model erases the entry's node by identity (`EraseNode`): an intrusive unique set holds each entry's node once, whatever key it now has.
- V2's list node allocator: `nextNode` stands for it and hands out a handle that no live node has.
- Concurrency: the source has no thread safety, and none is modelled.
