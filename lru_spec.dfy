/** The contract every cache variant implements, stated on values.

    The state of a cache is a sequence of (key, value) pairs with distinct
    keys, ordered from least to most recently used, never longer than the
    capacity. `get` and `put` both count as a use: a hit moves the pair to
    the back. `put` of a new key into a full cache first drops the front
    pair. Each variant's class refines this: its `Contents()` is such a
    sequence and its `Get`/`Put` are proved to act as `Lookup`/`AfterGet`
    and `AfterPut` below. */
module LruSpec {
  import opened Lists

  datatype Option<T> = None | Some(value: T)

  datatype Pair<K, V> = Pair(key: K, value: V)

  /** No key occurs twice. */
  ghost predicate DistinctKeys<K, V>(s: seq<Pair<K, V>>) {
    forall i, j :: 0 <= i < j < |s| ==> s[i].key != s[j].key
  }

  /** What holds of a cache's contents at every call boundary. */
  ghost predicate Inv<K, V>(s: seq<Pair<K, V>>, capacity: int) {
    1 <= capacity && |s| <= capacity && DistinctKeys(s)
  }

  /** The position of the first pair whose key is `k`, if any. */
  function IndexOfKey<K(==), V>(s: seq<Pair<K, V>>, k: K): (r: Option<nat>)
    ensures r.Some? ==> r.value < |s| && s[r.value].key == k
    ensures r.Some? ==> forall j :: 0 <= j < r.value ==> s[j].key != k
    ensures r.None? <==> forall j :: 0 <= j < |s| ==> s[j].key != k
  {
    if s == [] then None
    else if s[0].key == k then Some(0)
    else match IndexOfKey(s[1..], k)
      case None => None
      case Some(i) => Some(i + 1)
  }

  /** The value `get(k)` returns: the value stored under `k`, or nothing on a miss. */
  function Lookup<K(==), V>(s: seq<Pair<K, V>>, k: K): (r: Option<V>)
    ensures r.Some? <==> exists i :: 0 <= i < |s| && s[i].key == k
    ensures r.Some? ==> Pair(k, r.value) in s
  {
    match IndexOfKey(s, k)
    case None => None
    case Some(i) => Some(s[i].value)
  }

  /** The contents after `get(k)`: unchanged on a miss, the hit pair moved to the back otherwise. */
  function AfterGet<K(==), V>(s: seq<Pair<K, V>>, k: K): (r: seq<Pair<K, V>>)
    ensures Lookup(s, k).None? ==> r == s
    ensures Lookup(s, k).Some? ==> |r| == |s| && r[|r| - 1] == Pair(k, Lookup(s, k).value)
    ensures multiset(r) == multiset(s)
  {
    match IndexOfKey(s, k)
    case None => s
    case Some(i) => MoveToBack(s, i)
  }

  /** The contents after `put(k, v)`: an existing pair is overwritten and
      moved to the back; a new pair is appended, after dropping the front
      pair when the cache is full. */
  function AfterPut<K(==), V>(s: seq<Pair<K, V>>, capacity: int, k: K, v: V): (r: seq<Pair<K, V>>)
    requires 1 <= capacity
    ensures |r| > 0 && r[|r| - 1] == Pair(k, v)
    ensures |r| == if Lookup(s, k).None? && |s| < capacity then |s| + 1 else |s|
  {
    match IndexOfKey(s, k)
    case Some(i) => MoveToBack(s[i := Pair(k, v)], i)
    case None => if |s| < capacity then s + [Pair(k, v)] else s[1..] + [Pair(k, v)]
  }

  /** The key that `put(k, _)` evicts, if it evicts one. */
  function Evicted<K(==), V>(s: seq<Pair<K, V>>, capacity: int, k: K): (e: Option<K>)
    requires 1 <= capacity
    ensures e.Some? <==> Lookup(s, k).None? && capacity <= |s|
    ensures e.Some? ==> |s| > 0 && e.value == s[0].key
  {
    if Lookup(s, k).None? && capacity <= |s| then Some(s[0].key) else None
  }

  /** In a sequence with distinct keys the pair holding `k` is the one `IndexOfKey` finds. */
  lemma IndexOfKeyAt<K, V>(s: seq<Pair<K, V>>, k: K, p: nat)
    requires DistinctKeys(s) && p < |s| && s[p].key == k
    ensures IndexOfKey(s, k) == Some(p)
  {
  }

  /** With distinct keys, `get(k)` returns `v` exactly when the pair (k, v) is stored. */
  lemma LookupIsMember<K, V>(s: seq<Pair<K, V>>, k: K, v: V)
    requires DistinctKeys(s)
    ensures Lookup(s, k) == Some(v) <==> Pair(k, v) in s
  {
    if Pair(k, v) in s {
      var p :| 0 <= p < |s| && s[p] == Pair(k, v);
      IndexOfKeyAt(s, k, p);
    }
  }

  lemma DistinctKeysMoveToBack<K, V>(s: seq<Pair<K, V>>, p: nat)
    requires DistinctKeys(s) && p < |s|
    ensures DistinctKeys(MoveToBack(s, p))
  {
    var r := MoveToBack(s, p);
    forall i, j | 0 <= i < j < |r| ensures r[i].key != r[j].key {
      var i' := if i < p then i else i + 1;
      var j' := if j == |r| - 1 then p else if j < p then j else j + 1;
      assert r[i] == s[i'] && r[j] == s[j'] && i' != j';
    }
  }

  /** `get` keeps the invariant. */
  lemma GetKeepsInv<K, V>(s: seq<Pair<K, V>>, capacity: int, k: K)
    requires Inv(s, capacity)
    ensures Inv(AfterGet(s, k), capacity)
  {
    match IndexOfKey(s, k)
    case None =>
    case Some(i) => DistinctKeysMoveToBack(s, i);
  }

  /** `put` keeps the invariant: keys stay distinct and the length stays within the capacity. */
  lemma PutKeepsInv<K, V>(s: seq<Pair<K, V>>, capacity: int, k: K, v: V)
    requires Inv(s, capacity)
    ensures Inv(AfterPut(s, capacity, k, v), capacity)
  {
    var r := AfterPut(s, capacity, k, v);
    match IndexOfKey(s, k)
    case Some(i) =>
      var u := s[i := Pair(k, v)];
      assert DistinctKeys(u) by {
        forall a, b | 0 <= a < b < |u| ensures u[a].key != u[b].key {
          assert u[a].key == s[a].key && u[b].key == s[b].key;
        }
      }
      DistinctKeysMoveToBack(u, i);
    case None =>
      var t := if |s| < capacity then s else s[1..];
      assert r == t + [Pair(k, v)];
      forall a, b | 0 <= a < b < |r| ensures r[a].key != r[b].key {
        var off := if |s| < capacity then 0 else 1;
        assert r[a] == s[a + off];
        if b < |r| - 1 {
          assert r[b] == s[b + off];
        }
      }
  }

  /** Round trip: right after `put(k, v)`, `get(k)` returns `v`. */
  lemma PutThenLookup<K, V>(s: seq<Pair<K, V>>, capacity: int, k: K, v: V)
    requires Inv(s, capacity)
    ensures Lookup(AfterPut(s, capacity, k, v), k) == Some(v)
  {
    var r := AfterPut(s, capacity, k, v);
    PutKeepsInv(s, capacity, k, v);
    IndexOfKeyAt(r, k, |r| - 1);
  }

  /** `put(k, v)` leaves every other key's lookup alone, except the key it evicts,
      which then misses. */
  lemma PutLookupOther<K, V>(s: seq<Pair<K, V>>, capacity: int, k: K, v: V, k': K)
    requires Inv(s, capacity) && k' != k
    ensures Lookup(AfterPut(s, capacity, k, v), k') ==
            if Evicted(s, capacity, k) == Some(k') then None else Lookup(s, k')
  {
    var r := AfterPut(s, capacity, k, v);
    PutKeepsInv(s, capacity, k, v);
    match IndexOfKey(s, k)
    case Some(i) =>
      var u := s[i := Pair(k, v)];
      match IndexOfKey(s, k') {
        case None =>
          forall j | 0 <= j < |r| ensures r[j].key != k' {
            var j' := if j == |r| - 1 then i else if j < i then j else j + 1;
            assert r[j] == u[j'];
          }
        case Some(q) =>
          var q' := if q < i then q else q - 1;
          assert r[q'] == s[q];
          IndexOfKeyAt(r, k', q');
      }
    case None =>
      var off := if |s| < capacity then 0 else 1;
      assert forall j :: 0 <= j < |r| - 1 ==> r[j] == s[j + off];
      match IndexOfKey(s, k')
      case None =>
      case Some(q) =>
        if q >= off {
          assert r[q - off] == s[q];
          IndexOfKeyAt(r, k', q - off);
        } else {
          assert Evicted(s, capacity, k) == Some(k');
          forall j | 0 <= j < |r| ensures r[j].key != k' {
            if j < |r| - 1 {
              assert r[j] == s[j + 1];
            }
          }
        }
  }
  /** A put loses exactly the key `Evicted` names: a key that was found
      before the put and is missing after it is that key, and that key is
      always found before and missing after. */
  lemma EvictedIsLost<K, V>(s: seq<Pair<K, V>>, capacity: int, k: K, v: V, k': K)
    requires Inv(s, capacity)
    ensures (Lookup(s, k').Some? && Lookup(AfterPut(s, capacity, k, v), k').None?) <==>
            Evicted(s, capacity, k) == Some(k')
  {
    if |s| > 0 {
      IndexOfKeyAt(s, s[0].key, 0);
    }
    if k' == k {
      PutThenLookup(s, capacity, k, v);
    } else {
      PutLookupOther(s, capacity, k, v, k');
    }
  }


  /** `get` changes no key's lookup: only the recency order moves. */
  lemma GetLookupAny<K, V>(s: seq<Pair<K, V>>, k: K, k': K)
    requires DistinctKeys(s)
    ensures Lookup(AfterGet(s, k), k') == Lookup(s, k')
  {
    match IndexOfKey(s, k)
    case None =>
    case Some(i) =>
      var r := MoveToBack(s, i);
      DistinctKeysMoveToBack(s, i);
      match IndexOfKey(s, k')
      case None =>
        forall j | 0 <= j < |r| ensures r[j].key != k' {
          var j' := if j == |r| - 1 then i else if j < i then j else j + 1;
          assert r[j] == s[j'];
        }
      case Some(q) =>
        var q' := if q == i then |r| - 1 else if q < i then q else q - 1;
        assert r[q'] == s[q];
        IndexOfKeyAt(r, k', q');
  }

  /** The contents after putting the pairs of `ps` one after the other. */
  function PutAll<K(==), V>(s: seq<Pair<K, V>>, capacity: int, ps: seq<Pair<K, V>>): seq<Pair<K, V>>
    requires 1 <= capacity
    decreases |ps|
  {
    if ps == [] then s
    else PutAll(AfterPut(s, capacity, ps[0].key, ps[0].value), capacity, ps[1..])
  }

  /** The last `n` elements of `s`, or all of `s` when it is shorter. */
  function Newest<T>(s: seq<T>, n: nat): (r: seq<T>)
    ensures |r| == if |s| <= n then |s| else n
    ensures forall i :: 0 <= i < |r| ==> r[i] == s[|s| - |r| + i]
  {
    if |s| <= n then s else s[|s| - n..]
  }

  lemma DistinctKeysSuffix<K, V>(s: seq<Pair<K, V>>, d: nat)
    requires DistinctKeys(s) && d <= |s|
    ensures DistinctKeys(s[d..])
  {
    var t := s[d..];
    forall i, j | 0 <= i < j < |t| ensures t[i].key != t[j].key {
      assert t[i] == s[d + i] && t[j] == s[d + j];
    }
  }

  /** Putting keys that are all new, one after the other, keeps exactly the
      `capacity` most recently put pairs: every older one is evicted, oldest first. */
  lemma {:induction false} PutAllFresh<K, V>(s: seq<Pair<K, V>>, capacity: int, ps: seq<Pair<K, V>>)
    requires Inv(s, capacity) && DistinctKeys(s + ps)
    ensures PutAll(s, capacity, ps) == Newest(s + ps, capacity)
    decreases |ps|
  {
    if ps == [] {
      assert s + ps == s;
    } else {
      var all := s + ps;
      var p := ps[0];
      assert all[|s|] == p;
      assert IndexOfKey(s, p.key) == None by {
        forall j | 0 <= j < |s| ensures s[j].key != p.key {
          assert all[j] == s[j];
        }
      }
      var s1 := AfterPut(s, capacity, p.key, p.value);
      PutKeepsInv(s, capacity, p.key, p.value);
      var d := |s| + 1 - |s1|;
      assert s1 + ps[1..] == all[d..];
      DistinctKeysSuffix(all, d);
      PutAllFresh(s1, capacity, ps[1..]);
      assert Newest(all[d..], capacity) == Newest(all, capacity);
    }
  }

  /** Recency: filling a cache of capacity C with C + 1 distinct keys, with no
      gets in between, evicts the first key and keeps every other one. */
  lemma FillEvictsOldest<K, V>(capacity: int, ps: seq<Pair<K, V>>)
    requires 1 <= capacity && |ps| == capacity + 1 && DistinctKeys(ps)
    ensures Lookup(PutAll([], capacity, ps), ps[0].key) == None
    ensures forall i :: 1 <= i < |ps| ==> Lookup(PutAll([], capacity, ps), ps[i].key) == Some(ps[i].value)
  {
    assert [] + ps == ps;
    PutAllFresh([], capacity, ps);
    assert Newest(ps, capacity) == ps[1..];
    TailLookups(ps);
  }

  /** The pairs after the first of `ps`, whose keys are distinct, lose the
      first key and keep every other pair. */
  lemma TailLookups<K, V>(ps: seq<Pair<K, V>>)
    requires 1 <= |ps| && DistinctKeys(ps)
    ensures Lookup(ps[1..], ps[0].key) == None
    ensures forall i :: 1 <= i < |ps| ==> Lookup(ps[1..], ps[i].key) == Some(ps[i].value)
  {
    var r := ps[1..];
    DistinctKeysSuffix(ps, 1);
    assert IndexOfKey(r, ps[0].key) == None by {
      forall j | 0 <= j < |r| ensures r[j].key != ps[0].key {
        assert r[j] == ps[j + 1];
      }
    }
    forall i | 1 <= i < |ps| ensures Lookup(r, ps[i].key) == Some(ps[i].value) {
      assert r[i - 1] == ps[i];
      IndexOfKeyAt(r, ps[i].key, i - 1);
    }
  }

  /** Promotion prevents eviction: in a full cache, a get of the least recently
      used key saves it from the next insertion of a new key, which evicts the
      second oldest key instead. */
  lemma PromotionPreventsEviction<K, V>(s: seq<Pair<K, V>>, capacity: int, k: K, v: V)
    requires Inv(s, capacity) && |s| == capacity && 2 <= capacity && Lookup(s, k).None?
    ensures Lookup(AfterPut(AfterGet(s, s[0].key), capacity, k, v), s[0].key) == Some(s[0].value)
    ensures Lookup(AfterPut(AfterGet(s, s[0].key), capacity, k, v), s[1].key) == None
  {
    IndexOfKeyAt(s, s[0].key, 0);
    var s1 := AfterGet(s, s[0].key);
    assert s1 == s[1..] + [s[0]];
    GetKeepsInv(s, capacity, s[0].key);
    GetLookupAny(s, s[0].key, k);
    GetLookupAny(s, s[0].key, s[0].key);
    assert Evicted(s1, capacity, k) == Some(s[1].key);
    assert s[0].key != s[1].key;
    PutLookupOther(s1, capacity, k, v, s[0].key);
    PutLookupOther(s1, capacity, k, v, s[1].key);
  }

  /** Mapping a key twice keeps the second target. */
  lemma MapUpdateTwice<K, T>(m: map<K, T>, k: K, a: T, b: T)
    ensures m[k := a][k := b] == m[k := b]
  {
  }
}
