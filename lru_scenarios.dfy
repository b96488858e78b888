/** The two sanity scenarios of LRUCacheTest.cpp, replayed on the contract
    every variant is proved to implement. Both fill a cache of capacity 4
    with seven keys, reading the key "aaa" after each insertion so that it
    survives, then probe all seven keys and overwrite one; they differ only
    in the values stored (strings in the first, the key's position in the
    second), so one lemma over any seven values covers both. */
module LruScenarios {
  import opened Lists
  import opened LruSpec

  const Keys: seq<string> := ["aaa", "bbb", "ccc", "ddd", "eee", "fff", "ggg"]

  /** One round of the filling loop: `put(k, v)`, `get(k)`, then `get(first)`. */
  function Round<K(==), V>(s: seq<Pair<K, V>>, k: K, v: V, first: K): seq<Pair<K, V>> {
    AfterGet(AfterGet(AfterPut(s, 4, k, v), k), first)
  }

  /** The asserts inside one round of the filling loop: the value just put
      is read back, and then the first key hits. */
  ghost predicate RoundChecks<K, V>(s: seq<Pair<K, V>>, k: K, v: V, first: K) {
    var t := AfterPut(s, 4, k, v);
    Lookup(t, k) == Some(v) && Lookup(AfterGet(t, k), first).Some?
  }

  /** A hit at position `p` of a sequence with distinct keys. */
  lemma Hit<K, V>(s: seq<Pair<K, V>>, p: nat)
    requires DistinctKeys(s) && p < |s|
    ensures Lookup(s, s[p].key) == Some(s[p].value)
    ensures AfterGet(s, s[p].key) == MoveToBack(s, p)
  {
    IndexOfKeyAt(s, s[p].key, p);
  }

  /** A round that puts a new key: the put is read back, and the round ends
      with the pair of `first`, at position `p` after the put, moved to the back. */
  lemma FreshRound<K, V>(s: seq<Pair<K, V>>, k: K, v: V, first: K, p: nat)
    requires DistinctKeys(s) && |s| <= 4 && forall j :: 0 <= j < |s| ==> s[j].key != k
    requires var t := (if |s| < 4 then s else s[1..]) + [Pair(k, v)]; p < |t| && t[p].key == first
    ensures var t := (if |s| < 4 then s else s[1..]) + [Pair(k, v)];
            && AfterPut(s, 4, k, v) == t
            && Lookup(t, k) == Some(v) && Lookup(AfterGet(t, k), first) == Some(t[p].value)
            && AfterGet(t, k) == t && Round(s, k, v, first) == MoveToBack(t, p)
  {
    var t := (if |s| < 4 then s else s[1..]) + [Pair(k, v)];
    assert AfterPut(s, 4, k, v) == t by {
      assert IndexOfKey(s, k) == None;
    }
    assert DistinctKeys(t) by {
      PutKeepsInv(s, 4, k, v);
    }
    assert AfterGet(t, k) == t by {
      Hit(t, |t| - 1);
      LastToBack(t);
    }
    Hit(t, p);
  }

  /** Moving the last element to the back changes nothing. */
  lemma LastToBack<T>(s: seq<T>)
    requires s != []
    ensures MoveToBack(s, |s| - 1) == s
  {
  }

  /** The second round: the new pair goes in before `first`. */
  lemma SecondRound<K, V>(first: Pair<K, V>, n: Pair<K, V>)
    requires first.key != n.key
    ensures Round([first], n.key, n.value, first.key) == [n, first]
    ensures RoundChecks([first], n.key, n.value, first.key)
  {
    FreshRound([first], n.key, n.value, first.key, 0);
    assert MoveToBack([first, n], 0) == [n, first];
  }

  /** The third round: the new pair goes in just before `first`, the last
      of `w`. */
  lemma ThirdRound<K, V>(w: seq<Pair<K, V>>, n: Pair<K, V>)
    requires |w| == 2 && w[0].key != w[1].key && w[0].key != n.key && w[1].key != n.key
    ensures Round(w, n.key, n.value, w[1].key) == [w[0], n, w[1]]
    ensures RoundChecks(w, n.key, n.value, w[1].key)
  {
    FreshRound(w, n.key, n.value, w[1].key, 1);
    assert MoveToBack(w + [n], 1) == [w[0], n, w[1]];
  }

  /** The fourth round fills the cache; the new pair goes in just before
      `first`, the last of `w`. */
  lemma FourthRound<K, V>(w: seq<Pair<K, V>>, n: Pair<K, V>)
    requires |w| == 3 && w[0].key != w[1].key && w[0].key != w[2].key && w[1].key != w[2].key
    requires w[0].key != n.key && w[1].key != n.key && w[2].key != n.key
    ensures Round(w, n.key, n.value, w[2].key) == [w[0], w[1], n, w[2]]
    ensures RoundChecks(w, n.key, n.value, w[2].key)
  {
    FreshRound(w, n.key, n.value, w[2].key, 2);
    assert MoveToBack(w + [n], 2) == [w[0], w[1], n, w[2]];
  }

  /** A round once the cache is full: the front pair of `w` is evicted and
      the new pair goes in just before `first`, the last of `w`. */
  lemma FullRound<K, V>(w: seq<Pair<K, V>>, n: Pair<K, V>)
    requires |w| == 4 && w[0].key != w[1].key && w[0].key != w[2].key && w[0].key != w[3].key
    requires w[1].key != w[2].key && w[1].key != w[3].key && w[2].key != w[3].key
    requires w[0].key != n.key && w[1].key != n.key && w[2].key != n.key && w[3].key != n.key
    ensures Round(w, n.key, n.value, w[3].key) == [w[1], w[2], n, w[3]]
    ensures RoundChecks(w, n.key, n.value, w[3].key)
  {
    FreshRound(w, n.key, n.value, w[3].key, 2);
    assert MoveToBack(w[1..] + [n], 2) == [w[1], w[2], n, w[3]];
  }

  /** `ThirdRound` on named pairs. */
  lemma ThirdRoundOf<K, V>(x: Pair<K, V>, first: Pair<K, V>, n: Pair<K, V>)
    requires x.key != first.key && x.key != n.key && first.key != n.key
    ensures Round([x, first], n.key, n.value, first.key) == [x, n, first]
    ensures RoundChecks([x, first], n.key, n.value, first.key)
  {
    ThirdRound([x, first], n);
  }

  /** `FourthRound` on named pairs. */
  lemma FourthRoundOf<K, V>(x: Pair<K, V>, y: Pair<K, V>, first: Pair<K, V>, n: Pair<K, V>)
    requires x.key != y.key && x.key != first.key && y.key != first.key
    requires x.key != n.key && y.key != n.key && first.key != n.key
    ensures Round([x, y, first], n.key, n.value, first.key) == [x, y, n, first]
    ensures RoundChecks([x, y, first], n.key, n.value, first.key)
  {
    FourthRound([x, y, first], n);
  }

  /** `FullRound` on named pairs. */
  lemma FullRoundOf<K, V>(x: Pair<K, V>, y: Pair<K, V>, z: Pair<K, V>, first: Pair<K, V>, n: Pair<K, V>)
    requires x.key != y.key && x.key != z.key && x.key != first.key
    requires y.key != z.key && y.key != first.key && z.key != first.key
    requires x.key != n.key && y.key != n.key && z.key != n.key && first.key != n.key
    ensures Round([x, y, z, first], n.key, n.value, first.key) == [y, z, n, first]
    ensures RoundChecks([x, y, z, first], n.key, n.value, first.key)
  {
    FullRound([x, y, z, first], n);
  }

  /** The filling loop over seven distinct keys: the cache ends holding the
      fifth, sixth and seventh pairs and then the first, which every round
      read and so saved from eviction. */
  lemma FillingLoop<K, V>(ks: seq<K>, vals: seq<V>)
    requires |ks| == 7 && |vals| == 7 && Distinct(ks)
    ensures Filled(ks, vals) == [Pair(ks[4], vals[4]), Pair(ks[5], vals[5]), Pair(ks[6], vals[6]), Pair(ks[0], vals[0])]
    ensures LoopChecks(ks, vals)
  {
    var a, b, c, d := Pair(ks[0], vals[0]), Pair(ks[1], vals[1]), Pair(ks[2], vals[2]), Pair(ks[3], vals[3]);
    var e, f, g := Pair(ks[4], vals[4]), Pair(ks[5], vals[5]), Pair(ks[6], vals[6]);
    assert ks[0] != ks[1] && ks[0] != ks[2] && ks[0] != ks[3] && ks[0] != ks[4] && ks[0] != ks[5] && ks[0] != ks[6];
    assert ks[1] != ks[2] && ks[1] != ks[3] && ks[1] != ks[4] && ks[2] != ks[3] && ks[2] != ks[4] && ks[2] != ks[5];
    assert ks[3] != ks[4] && ks[3] != ks[5] && ks[3] != ks[6] && ks[4] != ks[5] && ks[4] != ks[6] && ks[5] != ks[6];
    var s1 := Round([], a.key, a.value, a.key);
    assert s1 == [a] && RoundChecks([], a.key, a.value, a.key) by {
      FreshRound([], a.key, a.value, a.key, 0);
      assert [] + [a] == [a];
    }
    var s2 := Round(s1, b.key, b.value, a.key);
    assert s2 == [b, a] && RoundChecks(s1, b.key, b.value, a.key) by { SecondRound(a, b); }
    var s3 := Round(s2, c.key, c.value, a.key);
    assert s3 == [b, c, a] && RoundChecks(s2, c.key, c.value, a.key) by { ThirdRoundOf(b, a, c); }
    var s4 := Round(s3, d.key, d.value, a.key);
    assert s4 == [b, c, d, a] && RoundChecks(s3, d.key, d.value, a.key) by { FourthRoundOf(b, c, a, d); }
    var s5 := Round(s4, e.key, e.value, a.key);
    assert s5 == [c, d, e, a] && RoundChecks(s4, e.key, e.value, a.key) by { FullRoundOf(b, c, d, a, e); }
    var s6 := Round(s5, f.key, f.value, a.key);
    assert s6 == [d, e, f, a] && RoundChecks(s5, f.key, f.value, a.key) by { FullRoundOf(c, d, e, a, f); }
    var s7 := Round(s6, g.key, g.value, a.key);
    assert s7 == [e, f, g, a] && RoundChecks(s6, g.key, g.value, a.key) by { FullRoundOf(d, e, f, a, g); }
  }

  /** Of a full cache `s` whose four keys are distinct, reading the front
      key hits and promotes its pair to the back. */
  lemma ReadFrontOfFull<K, V>(s: seq<Pair<K, V>>)
    requires |s| == 4 && s[0].key != s[1].key && s[0].key != s[2].key && s[0].key != s[3].key
    ensures Lookup(s, s[0].key) == Some(s[0].value) && AfterGet(s, s[0].key) == [s[1], s[2], s[3], s[0]]
  {
    assert IndexOfKey(s, s[0].key) == Some(0);
    assert MoveToBack(s, 0) == [s[1], s[2], s[3], s[0]];
  }

  /** Of a full cache `s` with distinct keys, reading the back key hits and
      leaves `s` as it is. */
  lemma ReadBackOfFull<K, V>(s: seq<Pair<K, V>>)
    requires |s| == 4 && s[0].key != s[3].key && s[1].key != s[3].key && s[2].key != s[3].key
    ensures Lookup(s, s[3].key) == Some(s[3].value) && AfterGet(s, s[3].key) == s
  {
    assert IndexOfKey(s, s[3].key) == Some(3);
    LastToBack(s);
  }

  /** Of a full cache, reading a key it does not hold misses. */
  lemma MissOfFull<K, V>(s: seq<Pair<K, V>>, k: K)
    requires |s| == 4 && s[0].key != k && s[1].key != k && s[2].key != k && s[3].key != k
    ensures Lookup(s, k) == None
  {
    assert IndexOfKey(s, k) == None;
  }

  /** A put of a new key into a full cache `s` evicts the front pair. */
  lemma PutNewOfFull<K, V>(s: seq<Pair<K, V>>, n: Pair<K, V>)
    requires |s| == 4 && s[0].key != n.key && s[1].key != n.key && s[2].key != n.key && s[3].key != n.key
    ensures AfterPut(s, 4, n.key, n.value) == [s[1], s[2], s[3], n]
  {
    assert IndexOfKey(s, n.key) == None;
    assert s[1..] + [n] == [s[1], s[2], s[3], n];
  }

  /** A put of the back key of a cache `s` with distinct keys updates it
      where it stands. */
  lemma PutBackOfFull<K, V>(s: seq<Pair<K, V>>, v: V)
    requires |s| == 4 && s[0].key != s[3].key && s[1].key != s[3].key && s[2].key != s[3].key
    ensures AfterPut(s, 4, s[3].key, v) == [s[0], s[1], s[2], Pair(s[3].key, v)]
  {
    assert IndexOfKey(s, s[3].key) == Some(3);
    var u := s[3 := Pair(s[3].key, v)];
    assert MoveToBack(u, 3) == u by { LastToBack(u); }
  }

  /** The reads of a full cache, on named pairs. */
  lemma ReadsOf<K, V>(w: Pair<K, V>, x: Pair<K, V>, y: Pair<K, V>, z: Pair<K, V>, k: K)
    requires w.key != x.key && w.key != y.key && w.key != z.key
    requires x.key != y.key && x.key != z.key && y.key != z.key
    ensures Lookup([w, x, y, z], w.key) == Some(w.value) && AfterGet([w, x, y, z], w.key) == [x, y, z, w]
    ensures Lookup([w, x, y, z], z.key) == Some(z.value) && AfterGet([w, x, y, z], z.key) == [w, x, y, z]
    ensures k != w.key && k != x.key && k != y.key && k != z.key ==> Lookup([w, x, y, z], k) == None
  {
    ReadFrontOfFull([w, x, y, z]);
    ReadBackOfFull([w, x, y, z]);
    if k != w.key && k != x.key && k != y.key && k != z.key {
      MissOfFull([w, x, y, z], k);
    }
  }

  /** The puts into a full cache, on named pairs. */
  lemma PutsOf<K, V>(w: Pair<K, V>, x: Pair<K, V>, y: Pair<K, V>, z: Pair<K, V>, n: Pair<K, V>, v: V)
    requires w.key != x.key && w.key != y.key && w.key != z.key
    requires x.key != y.key && x.key != z.key && y.key != z.key
    requires w.key != n.key && x.key != n.key && y.key != n.key && z.key != n.key
    ensures AfterPut([w, x, y, z], 4, n.key, n.value) == [x, y, z, n]
    ensures AfterPut([w, x, y, z], 4, z.key, v) == [w, x, y, Pair(z.key, v)]
  {
    PutNewOfFull([w, x, y, z], n);
    PutBackOfFull([w, x, y, z], v);
  }

  /** The state the filling loop leaves: seven rounds from the empty cache,
      every round reading the first key. */
  function Filled<K(==), V>(ks: seq<K>, vals: seq<V>): seq<Pair<K, V>>
    requires |ks| == 7 && |vals| == 7
  {
    var s1 := Round([], ks[0], vals[0], ks[0]);
    var s2 := Round(s1, ks[1], vals[1], ks[0]);
    var s3 := Round(s2, ks[2], vals[2], ks[0]);
    var s4 := Round(s3, ks[3], vals[3], ks[0]);
    var s5 := Round(s4, ks[4], vals[4], ks[0]);
    var s6 := Round(s5, ks[5], vals[5], ks[0]);
    Round(s6, ks[6], vals[6], ks[0])
  }

  /** The asserts inside the filling loop, round by round. */
  ghost predicate LoopChecks<K, V>(ks: seq<K>, vals: seq<V>)
    requires |ks| == 7 && |vals| == 7
  {
    var s1 := Round([], ks[0], vals[0], ks[0]);
    var s2 := Round(s1, ks[1], vals[1], ks[0]);
    var s3 := Round(s2, ks[2], vals[2], ks[0]);
    var s4 := Round(s3, ks[3], vals[3], ks[0]);
    var s5 := Round(s4, ks[4], vals[4], ks[0]);
    var s6 := Round(s5, ks[5], vals[5], ks[0]);
    && RoundChecks([], ks[0], vals[0], ks[0]) && RoundChecks(s1, ks[1], vals[1], ks[0])
    && RoundChecks(s2, ks[2], vals[2], ks[0]) && RoundChecks(s3, ks[3], vals[3], ks[0])
    && RoundChecks(s4, ks[4], vals[4], ks[0]) && RoundChecks(s5, ks[5], vals[5], ks[0])
    && RoundChecks(s6, ks[6], vals[6], ks[0])
  }

  /** Two reads of `k` in a row, as the tests make them: the first hits and
      the second returns `v`. */
  ghost predicate ReadTwice<K, V>(s: seq<Pair<K, V>>, k: K, v: V) {
    Lookup(s, k).Some? && Lookup(AfterGet(s, k), k) == Some(v)
  }

  /** The asserts after the filling loop, from the state `s0` it leaves.
      The first key and the last three hit with their values and the
      second to fourth miss; reading the last three (twice each) leaves the
      first key oldest, so putting the second key again evicts it; putting
      the second key once more with the first value updates it in place. */
  ghost predicate ProbeChecks<K, V>(s0: seq<Pair<K, V>>, ks: seq<K>, vals: seq<V>)
    requires |ks| == 7 && |vals| == 7
  {
    && Lookup(s0, ks[0]) == Some(vals[0]) && AfterGet(s0, ks[0]) == s0
    && Lookup(s0, ks[1]) == None && Lookup(s0, ks[2]) == None && Lookup(s0, ks[3]) == None
    && ReadTwice(s0, ks[4], vals[4])
    && var s1 := AfterGet(AfterGet(s0, ks[4]), ks[4]);
    && ReadTwice(s1, ks[5], vals[5])
    && var s2 := AfterGet(AfterGet(s1, ks[5]), ks[5]);
    && ReadTwice(s2, ks[6], vals[6])
    && var s3 := AfterGet(AfterGet(s2, ks[6]), ks[6]);
    && var s4 := AfterPut(s3, 4, ks[1], vals[1]);
    && Lookup(s4, ks[0]) == None
    && var s5 := AfterPut(s4, 4, ks[1], vals[0]);
    && Lookup(s5, ks[1]) == Some(vals[0]) && AfterGet(s5, ks[1]) == s5
  }

  /** The asserts of a test: those inside the filling loop, and then those after it. */
  ghost predicate ScenarioChecks<K, V>(ks: seq<K>, vals: seq<V>)
    requires |ks| == 7 && |vals| == 7
  {
    LoopChecks(ks, vals) && ProbeChecks(Filled(ks, vals), ks, vals)
  }

  /** Reading the front key of a full cache twice: both reads hit, the
      second with its value, and the pair ends at the back. */
  lemma ReadFrontTwice<K, V>(w: Pair<K, V>, x: Pair<K, V>, y: Pair<K, V>, z: Pair<K, V>)
    requires w.key != x.key && w.key != y.key && w.key != z.key
    requires x.key != y.key && x.key != z.key && y.key != z.key
    ensures ReadTwice([w, x, y, z], w.key, w.value)
    ensures AfterGet(AfterGet([w, x, y, z], w.key), w.key) == [x, y, z, w]
  {
    ReadsOf(w, x, y, z, w.key);
    ReadsOf(x, y, z, w, w.key);
  }

  /** The probes after the loop, on the state the loop leaves. */
  lemma Probes<K, V>(ks: seq<K>, vals: seq<V>)
    requires |ks| == 7 && |vals| == 7 && Distinct(ks)
    ensures ProbeChecks([Pair(ks[4], vals[4]), Pair(ks[5], vals[5]), Pair(ks[6], vals[6]), Pair(ks[0], vals[0])], ks, vals)
  {
    var a, b := Pair(ks[0], vals[0]), Pair(ks[1], vals[1]);
    var e, f, g := Pair(ks[4], vals[4]), Pair(ks[5], vals[5]), Pair(ks[6], vals[6]);
    assert ks[0] != ks[1] && ks[0] != ks[2] && ks[0] != ks[3] && ks[0] != ks[4] && ks[0] != ks[5] && ks[0] != ks[6];
    assert ks[1] != ks[4] && ks[1] != ks[5] && ks[1] != ks[6] && ks[2] != ks[4] && ks[2] != ks[5] && ks[2] != ks[6];
    assert ks[3] != ks[4] && ks[3] != ks[5] && ks[3] != ks[6] && ks[4] != ks[5] && ks[4] != ks[6] && ks[5] != ks[6];
    var s0 := [e, f, g, a];
    ReadsOf(e, f, g, a, ks[1]);
    ReadsOf(e, f, g, a, ks[2]);
    ReadsOf(e, f, g, a, ks[3]);
    ReadFrontTwice(e, f, g, a);
    var s1 := AfterGet(AfterGet(s0, e.key), e.key);
    assert s1 == [f, g, a, e];
    ReadFrontTwice(f, g, a, e);
    var s2 := AfterGet(AfterGet(s1, f.key), f.key);
    assert s2 == [g, a, e, f];
    ReadFrontTwice(g, a, e, f);
    var s3 := AfterGet(AfterGet(s2, g.key), g.key);
    assert s3 == [a, e, f, g];
    var s4 := AfterPut(s3, 4, b.key, b.value);
    assert s4 == [e, f, g, b] by { PutsOf(a, e, f, g, b, b.value); }
    assert Lookup(s4, a.key) == None by { ReadsOf(e, f, g, b, a.key); }
    var s5 := AfterPut(s4, 4, b.key, a.value);
    assert s5 == [e, f, g, Pair(b.key, a.value)] by { PutsOf(e, f, g, b, a, a.value); }
    ReadsOf(e, f, g, Pair(b.key, a.value), b.key);
  }

  /** The checks hold for any seven distinct keys and any seven values. */
  lemma Scenario<K, V>(ks: seq<K>, vals: seq<V>)
    requires |ks| == 7 && |vals| == 7 && Distinct(ks)
    ensures ScenarioChecks(ks, vals)
  {
    FillingLoop(ks, vals);
    Probes(ks, vals);
  }

  /** The seven keys of both scenarios differ in their first letter. */
  lemma KeysDistinct()
    ensures Distinct(Keys)
  {
    forall i, j | 0 <= i < j < |Keys|
      ensures Keys[i] != Keys[j]
    {
      assert Keys[i][0] != Keys[j][0];
    }
  }

  /** `test1`: string values. */
  lemma Test1()
    ensures ScenarioChecks(Keys, ["a1", "b1", "c1", "d1", "e1", "f1", "g1"])
  {
    KeysDistinct();
    Scenario(Keys, ["a1", "b1", "c1", "d1", "e1", "f1", "g1"]);
  }

  /** `test2`: each key's value is its position. */
  lemma Test2()
    ensures ScenarioChecks(Keys, [0, 1, 2, 3, 4, 5, 6])
  {
    KeysDistinct();
    Scenario(Keys, [0, 1, 2, 3, 4, 5, 6]);
  }
}
