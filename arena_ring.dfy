/** The slot arena and recency ring that LRUCacheV1.h and LRUCacheV5.h share.

    `entries` is a vector of slots. Slot 0 is a permanent sentinel; every
    other slot holds one live key. The `next`/`prev` fields of the slots
    thread them into one circular doubly linked list through the sentinel:
    `entries[0].next` is the least recently used slot and `entries[0].prev`
    the most recently used one. Each live slot keeps a handle to its entry in
    the key map (`keyLocation`); the sentinel keeps a default handle, here
    `None`, and its value is a default-constructed value.

    A ghost sequence `order` lists the live slots in ring order, from least
    to most recently used. `Closed` says that the links describe exactly the
    cycle `[0] + order`; `ArenaInv` is the invariant of the whole cache. */
module ArenaRing {
  import opened Lists
  import opened LruSpec

  /** A slot of the arena. */
  datatype Entry<K, V> = Entry(next: int, prev: int, value: V, keyLocation: Option<K>)

  /** The position after `i` on a cycle of `n` positions. */
  function Succ(i: nat, n: nat): (j: nat)
    requires i < n
    ensures j < n
  {
    if i + 1 == n then 0 else i + 1
  }

  /** The links of `es` form the cycle `r`: `next` goes from each element of
      `r` to the following one (the last back to the first) and `prev` back. */
  ghost predicate Closed<K, V>(es: seq<Entry<K, V>>, r: seq<int>) {
    && (forall i :: 0 <= i < |r| ==> 0 <= r[i] < |es|)
    && (forall i :: 0 <= i < |r| ==>
          es[r[i]].next == r[Succ(i, |r|)] && es[r[Succ(i, |r|)]].prev == r[i])
  }

  /** `order` lists the slots 1 .. n - 1, each once. */
  ghost predicate LiveSlots(order: seq<int>, n: int) {
    && |order| == n - 1
    && Distinct(order)
    && (forall i :: 0 <= i < |order| ==> 1 <= order[i] < n)
    && (forall x :: 1 <= x < n ==> x in order)
  }

  /** Only the links of the slots differ. */
  ghost predicate SamePayload<K, V>(es: seq<Entry<K, V>>, es': seq<Entry<K, V>>) {
    |es| == |es'| &&
    forall i :: 0 <= i < |es| ==> es[i].value == es'[i].value && es[i].keyLocation == es'[i].keyLocation
  }

  /** Every slot in `order` exists and holds a key. */
  ghost predicate WellFormed<K, V>(es: seq<Entry<K, V>>, order: seq<int>) {
    forall i :: 0 <= i < |order| ==> 0 <= order[i] < |es| && es[order[i]].keyLocation.Some?
  }

  /** The cache contents the arena stands for: the pairs of the live slots in ring order. */
  ghost function Abstract<K, V>(es: seq<Entry<K, V>>, order: seq<int>): (s: seq<Pair<K, V>>)
    requires WellFormed(es, order)
  {
    seq(|order|, i requires 0 <= i < |order| =>
      Pair(es[order[i]].keyLocation.value, es[order[i]].value))
  }

  /** The invariant at every call boundary of LRUCacheV1.h / LRUCacheV5.h: the
      map holds at most `maxCacheSize` keys and there is one slot per key plus
      the sentinel; the ring visits every live slot once; and the key map and
      the slots' `keyLocation` handles are inverse to each other. */
  ghost predicate ArenaInv<K, V>(es: seq<Entry<K, V>>, order: seq<int>, m: map<K, int>, maxCacheSize: int) {
    && 1 <= maxCacheSize
    && |m| <= maxCacheSize
    && |es| == |m| + 1
    && es[0].keyLocation == None
    && Closed(es, [0] + order)
    && LiveSlots(order, |es|)
    && (forall k :: k in m ==> 1 <= m[k] < |es| && es[m[k]].keyLocation == Some(k))
    && (forall i :: 1 <= i < |es| ==>
          es[i].keyLocation.Some? && es[i].keyLocation.value in m && m[es[i].keyLocation.value] == i)
  }

  /** The first two writes of `pushIntoQueue`: the slot's neighbours are joined
      (`entries[e.prev].next = e.next; entries[e.next].prev = e.prev`). */
  ghost function Unlink<K, V>(es: seq<Entry<K, V>>, x: int): seq<Entry<K, V>>
    requires 0 <= x < |es| && 0 <= es[x].prev < |es| && 0 <= es[x].next < |es|
  {
    var es1 := es[es[x].prev := es[es[x].prev].(next := es[x].next)];
    es1[es1[x].next := es1[es1[x].next].(prev := es1[x].prev)]
  }

  /** The last writes of `pushIntoQueue`: the slot is put between the most
      recent slot and the sentinel (`e.prev = sentinel.prev; e.next = 0;
      entries[sentinel.prev].next = entryIndex; sentinel.prev = entryIndex`). */
  ghost function LinkLast<K, V>(es: seq<Entry<K, V>>, x: int): seq<Entry<K, V>>
    requires 0 < x < |es| && 0 <= es[0].prev < |es|
  {
    var es1 := es[x := es[x].(prev := es[0].prev, next := 0)];
    var es2 := es1[es1[0].prev := es1[es1[0].prev].(next := x)];
    es2[0 := es2[0].(prev := x)]
  }

  lemma RingDistinct(order: seq<int>, n: int)
    requires LiveSlots(order, n)
    ensures Distinct([0] + order)
  {
    var r := [0] + order;
    forall i, j | 0 <= i < j < |r| ensures r[i] != r[j] {
      assert r[j] == order[j - 1];
      if i > 0 {
        assert r[i] == order[i - 1];
      }
    }
  }

  /** Position `i` of the cycle `r` with position `q` taken out. */
  function Skip(i: nat, q: nat): nat {
    if i < q then i else i + 1
  }

  /** The slot at position `q` of the cycle `r` and its two neighbours. */
  lemma UnlinkNeighbours<K, V>(es: seq<Entry<K, V>>, r: seq<int>, q: nat)
    requires Closed(es, r) && 1 <= q < |r|
    ensures es[r[q]].prev == r[q - 1] && es[r[q]].next == r[Succ(q, |r|)]
    ensures 0 <= es[r[q]].prev < |es| && 0 <= es[r[q]].next < |es|
    ensures Unlink(es, r[q])
         == var es1 := es[r[q - 1] := es[r[q - 1]].(next := r[Succ(q, |r|)])];
            es1[r[Succ(q, |r|)] := es1[r[Succ(q, |r|)]].(prev := r[q - 1])]
  {
    assert Succ(q - 1, |r|) == q;
  }

  /** The links `Unlink` writes and the links it keeps. */
  lemma UnlinkLinks<K, V>(es: seq<Entry<K, V>>, x: int)
    requires 0 <= x < |es| && 0 <= es[x].prev < |es| && 0 <= es[x].next < |es|
    ensures |Unlink(es, x)| == |es|
    ensures Unlink(es, x)[es[x].prev].next == es[x].next
    ensures Unlink(es, x)[es[x].next].prev == es[x].prev
    ensures forall y :: 0 <= y < |es| && y != es[x].prev ==> Unlink(es, x)[y].next == es[y].next
    ensures forall y :: 0 <= y < |es| && y != es[x].next ==> Unlink(es, x)[y].prev == es[y].prev
  {
  }

  /** One `next` link of the cycle left after unlinking the slot at position `q`. */
  lemma UnlinkJoinsNext<K, V>(es: seq<Entry<K, V>>, r: seq<int>, q: nat, i: nat)
    requires Closed(es, r) && Distinct(r) && 1 <= q < |r| && i < |r| - 1
    ensures 0 <= es[r[q]].prev < |es| && 0 <= es[r[q]].next < |es|
    ensures Unlink(es, r[q])[r[Skip(i, q)]].next == r[Skip(Succ(i, |r| - 1), q)]
  {
    var n := |r|;
    UnlinkNeighbours(es, r, q);
    var a, b := r[q - 1], r[Succ(q, n)];
    UnlinkLinks(es, r[q]);
    var es2 := Unlink(es, r[q]);
    var oi, oj := Skip(i, q), Skip(Succ(i, n - 1), q);
    if oi == q - 1 {
      assert oj == Succ(q, n);
      assert es2[r[oi]].next == b;
    } else {
      assert r[oi] != a;
      assert Succ(oi, n) == oj;
      assert es2[r[oi]].next == es[r[oi]].next;
    }
  }

  /** One `prev` link of the cycle left after unlinking the slot at position `q`. */
  lemma UnlinkJoinsPrev<K, V>(es: seq<Entry<K, V>>, r: seq<int>, q: nat, i: nat)
    requires Closed(es, r) && Distinct(r) && 1 <= q < |r| && i < |r| - 1
    ensures 0 <= es[r[q]].prev < |es| && 0 <= es[r[q]].next < |es|
    ensures Unlink(es, r[q])[r[Skip(Succ(i, |r| - 1), q)]].prev == r[Skip(i, q)]
  {
    var n := |r|;
    UnlinkNeighbours(es, r, q);
    var a, b := r[q - 1], r[Succ(q, n)];
    UnlinkLinks(es, r[q]);
    var es2 := Unlink(es, r[q]);
    var oi, oj := Skip(i, q), Skip(Succ(i, n - 1), q);
    var po := if oj == 0 then n - 1 else oj - 1;
    assert Succ(po, n) == oj;
    if oj == Succ(q, n) {
      assert oi == q - 1;
      assert es2[r[oj]].prev == a;
    } else {
      assert r[oj] != b;
      assert po == oi;
      assert es2[r[oj]].prev == es[r[oj]].prev;
      assert es[r[Succ(po, n)]].prev == r[po];
    }
  }

  /** Joining the neighbours of the slot at position `q` of the cycle leaves
      the cycle without that slot. */
  lemma UnlinkJoins<K, V>(es: seq<Entry<K, V>>, r: seq<int>, q: nat)
    requires Closed(es, r) && Distinct(r) && 1 <= q < |r|
    ensures 0 <= es[r[q]].prev < |es| && 0 <= es[r[q]].next < |es|
    ensures Closed(Unlink(es, r[q]), r[..q] + r[q + 1..])
    ensures SamePayload(es, Unlink(es, r[q]))
  {
    UnlinkNeighbours(es, r, q);
    UnlinkPayload(es, r[q]);
    var r' := r[..q] + r[q + 1..];
    assert |r'| == |r| - 1;
    forall i | 0 <= i < |r'|
      ensures 0 <= r'[i] < |Unlink(es, r[q])|
      ensures Unlink(es, r[q])[r'[i]].next == r'[Succ(i, |r'|)]
      ensures Unlink(es, r[q])[r'[Succ(i, |r'|)]].prev == r'[i]
    {
      UnlinkJoinsAt(es, r, q, i);
    }
  }

  /** Position `i` of the cycle left after unlinking the slot at position `q`. */
  lemma UnlinkJoinsAt<K, V>(es: seq<Entry<K, V>>, r: seq<int>, q: nat, i: nat)
    requires Closed(es, r) && Distinct(r) && 1 <= q < |r| && i < |r| - 1
    ensures 0 <= es[r[q]].prev < |es| && 0 <= es[r[q]].next < |es|
    ensures var r' := r[..q] + r[q + 1..];
            && |r'| == |r| - 1
            && 0 <= r'[i] < |Unlink(es, r[q])|
            && Unlink(es, r[q])[r'[i]].next == r'[Succ(i, |r'|)]
            && Unlink(es, r[q])[r'[Succ(i, |r'|)]].prev == r'[i]
  {
    UnlinkJoinsNext(es, r, q, i);
    UnlinkJoinsPrev(es, r, q, i);
    CutIndex(r, q);
    var r' := r[..q] + r[q + 1..];
    assert r'[i] == r[Skip(i, q)];
    assert r'[Succ(i, |r'|)] == r[Skip(Succ(i, |r| - 1), q)];
  }

  /** Position `i` of `r` with position `q` cut out is position `Skip(i, q)` of `r`. */
  lemma CutIndex(r: seq<int>, q: nat)
    requires q < |r|
    ensures |r[..q] + r[q + 1..]| == |r| - 1
    ensures forall i :: 0 <= i < |r| - 1 ==> (r[..q] + r[q + 1..])[i] == r[Skip(i, q)]
  {
    var r' := r[..q] + r[q + 1..];
    forall i | 0 <= i < |r| - 1 ensures r'[i] == r[Skip(i, q)] {
      if i < q {
        assert r'[i] == r[..q][i];
      } else {
        assert r'[i] == r[q + 1..][i - q];
      }
    }
  }

  lemma UnlinkPayload<K, V>(es: seq<Entry<K, V>>, x: int)
    requires 0 <= x < |es| && 0 <= es[x].prev < |es| && 0 <= es[x].next < |es|
    ensures SamePayload(es, Unlink(es, x))
  {
    var es1 := es[es[x].prev := es[es[x].prev].(next := es[x].next)];
    assert SamePayload(es, es1);
    var es2 := es1[es1[x].next := es1[es1[x].next].(prev := es1[x].prev)];
    assert SamePayload(es1, es2);
    assert Unlink(es, x) == es2;
  }

  /** Unlinking a slot that is linked only to itself (a freshly created one) changes nothing. */
  lemma UnlinkSelfLinked<K, V>(es: seq<Entry<K, V>>, x: int)
    requires 0 <= x < |es| && es[x].next == x && es[x].prev == x
    ensures Unlink(es, x) == es
  {
  }

  /** `LinkLast` as the four field writes `pushIntoQueue` makes, one at a time. */
  lemma LinkLastInSteps<K, V>(es: seq<Entry<K, V>>, x: int)
    requires 0 < x < |es| && 0 <= es[0].prev < |es|
    ensures var es1 := es[x := es[x].(prev := es[0].prev)];
            var es2 := es1[x := es1[x].(next := 0)];
            var es3 := es2[es2[0].prev := es2[es2[0].prev].(next := x)];
            es3[0 := es3[0].(prev := x)] == LinkLast(es, x)
  {
  }

  /** The links `LinkLast` writes and the links and payload it keeps. */
  lemma LinkLastLinks<K, V>(es: seq<Entry<K, V>>, x: int)
    requires 0 < x < |es| && 0 <= es[0].prev < |es| && es[0].prev != x
    ensures SamePayload(es, LinkLast(es, x))
    ensures LinkLast(es, x)[x].next == 0 && LinkLast(es, x)[x].prev == es[0].prev
    ensures LinkLast(es, x)[es[0].prev].next == x && LinkLast(es, x)[0].prev == x
    ensures forall y :: 0 <= y < |es| && y != x && y != es[0].prev ==> LinkLast(es, x)[y].next == es[y].next
    ensures forall y :: 0 <= y < |es| && y != x && y != 0 ==> LinkLast(es, x)[y].prev == es[y].prev
  {
  }

  /** Linking a slot that is not on the cycle in before the sentinel appends it to the cycle. */
  lemma LinkLastAppends<K, V>(es: seq<Entry<K, V>>, r: seq<int>, x: int)
    requires Closed(es, r) && Distinct(r) && 1 <= |r| && r[0] == 0
    requires 0 < x < |es| && x !in r
    ensures 0 <= es[0].prev < |es|
    ensures Closed(LinkLast(es, x), r + [x])
    ensures SamePayload(es, LinkLast(es, x))
  {
    var n := |r|;
    assert Succ(n - 1, n) == 0;
    assert es[0].prev == r[n - 1];
    LinkLastLinks(es, x);
    var r' := r + [x];
    forall i | 0 <= i < |r'|
      ensures LinkLast(es, x)[r'[i]].next == r'[Succ(i, |r'|)]
      ensures LinkLast(es, x)[r'[Succ(i, |r'|)]].prev == r'[i]
    {
      LinkLastStep(es, r, x, i);
    }
  }

  /** One link of the cycle after `LinkLast`. */
  lemma LinkLastStep<K, V>(es: seq<Entry<K, V>>, r: seq<int>, x: int, i: nat)
    requires Closed(es, r) && Distinct(r) && 1 <= |r| && r[0] == 0
    requires 0 < x < |es| && x !in r && i <= |r|
    ensures 0 <= es[0].prev < |es|
    ensures LinkLast(es, x)[(r + [x])[i]].next == (r + [x])[Succ(i, |r| + 1)]
    ensures LinkLast(es, x)[(r + [x])[Succ(i, |r| + 1)]].prev == (r + [x])[i]
  {
    var n := |r|;
    var last := r[n - 1];
    assert Succ(n - 1, n) == 0;
    assert es[0].prev == last;
    LinkLastLinks(es, x);
    var r' := r + [x];
    if i < n - 1 {
      assert Succ(i, n) == i + 1 && r'[i] == r[i] && r'[i + 1] == r[i + 1];
      assert r[i] != last && r[i] != x && r[i + 1] != 0 && r[i + 1] != x;
    } else if i == n - 1 {
      assert r'[i] == last && r'[i + 1] == x;
    } else {
      assert r'[i] == x && r'[0] == 0;
    }
  }

  /** What `pushIntoQueue` does to the ring: slot `x`, whether it is on the
      ring or a fresh slot linked only to itself, leaves its place and is put
      at the most recently used end, and only links change. */
  lemma PushedToBack<K, V>(es: seq<Entry<K, V>>, order: seq<int>, x: int)
    requires Closed(es, [0] + order) && Distinct([0] + order) && 0 < x < |es|
    requires x in order || (es[x].next == x && es[x].prev == x)
    ensures 0 <= es[x].prev < |es| && 0 <= es[x].next < |es|
    ensures 0 <= Unlink(es, x)[0].prev < |es|
    ensures Closed(LinkLast(Unlink(es, x), x), [0] + Without(order, x) + [x])
    ensures SamePayload(es, LinkLast(Unlink(es, x), x))
  {
    if x in order {
      var p :| 0 <= p < |order| && order[p] == x;
      PushedFromRing(es, order, p);
    } else {
      var r := [0] + order;
      UnlinkSelfLinked(es, x);
      WithoutAbsent(order, x);
      assert x !in r;
      LinkLastAppends(es, r, x);
    }
  }

  /** `PushedToBack` for the slot at position `p` of the ring. */
  lemma PushedFromRing<K, V>(es: seq<Entry<K, V>>, order: seq<int>, p: nat)
    requires Closed(es, [0] + order) && Distinct([0] + order) && p < |order| && 0 < order[p] < |es|
    ensures 0 <= es[order[p]].prev < |es| && 0 <= es[order[p]].next < |es|
    ensures 0 <= Unlink(es, order[p])[0].prev < |es|
    ensures Closed(LinkLast(Unlink(es, order[p]), order[p]), [0] + Without(order, order[p]) + [order[p]])
    ensures SamePayload(es, LinkLast(Unlink(es, order[p]), order[p]))
  {
    var x := order[p];
    var w := [0] + Without(order, x);
    UnlinkedFromRing(es, order, p);
    LinkLastAppends(Unlink(es, x), w, x);
  }

  /** Unlinking the slot at position `p` of the ring leaves the ring without it. */
  lemma UnlinkedFromRing<K, V>(es: seq<Entry<K, V>>, order: seq<int>, p: nat)
    requires Closed(es, [0] + order) && Distinct([0] + order) && p < |order| && 0 < order[p] < |es|
    ensures 0 <= es[order[p]].prev < |es| && 0 <= es[order[p]].next < |es|
    ensures var w := [0] + Without(order, order[p]);
            Closed(Unlink(es, order[p]), w) && SamePayload(es, Unlink(es, order[p]))
            && Distinct(w) && order[p] !in w
  {
    var r := [0] + order;
    assert r[p + 1] == order[p];
    CutIsWithout(order, p);
    DistinctCut(r, p + 1);
    UnlinkJoins(es, r, p + 1);
  }

  /** The ring without the slot at position `p` of `order`. */
  lemma CutIsWithout(order: seq<int>, p: nat)
    requires Distinct([0] + order) && p < |order|
    ensures ([0] + order)[..p + 1] + ([0] + order)[p + 2..] == [0] + Without(order, order[p])
  {
    var r := [0] + order;
    assert r[1..] == order;
    DistinctTail(r);
    WithoutAt(order, p);
    CutOfRing(order, p);
  }

  /** Cutting position `p + 1` out of the ring is cutting position `p` out of `order`. */
  lemma CutOfRing(order: seq<int>, p: nat)
    requires p < |order|
    ensures ([0] + order)[..p + 1] + ([0] + order)[p + 2..] == [0] + (order[..p] + order[p + 1..])
  {
    var r := [0] + order;
    assert r[..p + 1] == [0] + order[..p];
    assert r[p + 2..] == order[p + 1..];
  }

  /** Walking `next` `n` times from slot `i`, the slots visited. */
  ghost function Walk<K, V>(es: seq<Entry<K, V>>, i: int, n: nat): seq<int>
    decreases n
  {
    if n == 0 || !(0 <= i < |es|) then [] else [i] + Walk(es, es[i].next, n - 1)
  }

  /** Along a cycle, `next` goes from each slot to the following one. */
  lemma ClosedChain<K, V>(es: seq<Entry<K, V>>, r: seq<int>)
    requires Closed(es, r)
    ensures forall i :: 0 <= i < |r| - 1 ==> es[r[i]].next == r[i + 1]
  {
    forall i | 0 <= i < |r| - 1 ensures es[r[i]].next == r[i + 1] {
      assert Succ(i, |r|) == i + 1;
    }
  }

  lemma {:induction false} WalkFrom<K, V>(es: seq<Entry<K, V>>, r: seq<int>, q: nat)
    requires forall i :: 0 <= i < |r| ==> 0 <= r[i] < |es|
    requires forall i :: 0 <= i < |r| - 1 ==> es[r[i]].next == r[i + 1]
    requires q < |r|
    ensures Walk(es, r[q], |r| - q) == r[q..]
    decreases |r| - q
  {
    assert Walk(es, r[q], |r| - q) == [r[q]] + Walk(es, es[r[q]].next, |r| - q - 1);
    if q + 1 < |r| {
      WalkFrom(es, r, q + 1);
      assert r[q..] == [r[q]] + r[q + 1..];
    } else {
      assert r[q..] == [r[q]];
    }
  }

  /** Walking `next` from the sentinel visits every live slot once, in
      least- to most-recently-used order, and then returns to the sentinel;
      `prev` is the inverse of `next` on the way. */
  lemma RingWalk<K, V>(es: seq<Entry<K, V>>, order: seq<int>, m: map<K, int>, maxCacheSize: int)
    requires ArenaInv(es, order, m, maxCacheSize)
    ensures Walk(es, 0, |es|) == [0] + order
    ensures es[if order == [] then 0 else order[|order| - 1]].next == 0
    ensures forall i :: 0 <= i < |es| ==> 0 <= es[i].next < |es| && es[es[i].next].prev == i
  {
    var r := [0] + order;
    assert Walk(es, 0, |es|) == r by {
      ClosedChain(es, r);
      WalkFrom(es, r, 0);
      assert r[0..] == r;
    }
    assert Succ(|r| - 1, |r|) == 0;
    NextPrevInverse(es, order);
  }

  /** On a ring through every slot, `prev` undoes `next`. */
  lemma NextPrevInverse<K, V>(es: seq<Entry<K, V>>, order: seq<int>)
    requires Closed(es, [0] + order) && LiveSlots(order, |es|)
    ensures forall i :: 0 <= i < |es| ==> 0 <= es[i].next < |es| && es[es[i].next].prev == i
  {
    var r := [0] + order;
    forall i | 0 <= i < |es| ensures 0 <= es[i].next < |es| && es[es[i].next].prev == i {
      var q: nat := 0;
      if i != 0 {
        assert i in order;
        var p :| 0 <= p < |order| && order[p] == i;
        q := p + 1;
      }
      assert r[q] == i;
    }
  }

  /** The keys of the live slots are distinct and there are at most `maxCacheSize`. */
  lemma ArenaContents<K, V>(es: seq<Entry<K, V>>, order: seq<int>, m: map<K, int>, maxCacheSize: int)
    requires ArenaInv(es, order, m, maxCacheSize)
    ensures WellFormed(es, order)
    ensures Inv(Abstract(es, order), maxCacheSize)
  {
    var s := Abstract(es, order);
    forall i, j | 0 <= i < j < |s| ensures s[i].key != s[j].key {
      assert order[i] != order[j];
      assert m[s[i].key] == order[i] && m[s[j].key] == order[j];
    }
  }

  /** A key in the map is held by the live slot it maps to, and `IndexOfKey` finds it there. */
  lemma FindSlot<K, V>(es: seq<Entry<K, V>>, order: seq<int>, m: map<K, int>, maxCacheSize: int, key: K)
    returns (p: nat)
    requires ArenaInv(es, order, m, maxCacheSize) && key in m
    ensures WellFormed(es, order)
    ensures p < |order| && order[p] == m[key]
    ensures IndexOfKey(Abstract(es, order), key) == Some(p)
  {
    ArenaContents(es, order, m, maxCacheSize);
    assert m[key] in order;
    p :| 0 <= p < |order| && order[p] == m[key];
    IndexOfKeyAt(Abstract(es, order), key, p);
  }

  /** A key that is not in the map is held by no live slot. */
  lemma MissingKey<K, V>(es: seq<Entry<K, V>>, order: seq<int>, m: map<K, int>, maxCacheSize: int, key: K)
    requires ArenaInv(es, order, m, maxCacheSize) && key !in m
    ensures WellFormed(es, order)
    ensures IndexOfKey(Abstract(es, order), key) == None
  {
    ArenaContents(es, order, m, maxCacheSize);
    var s := Abstract(es, order);
    forall j | 0 <= j < |s| ensures s[j].key != key {
      assert s[j].key in m;
    }
  }

  /** Promoting the slot at position `p` of the ring keeps the invariant and
      moves its pair to the back of the contents. */
  lemma Promoted<K, V>(es: seq<Entry<K, V>>, order: seq<int>, es': seq<Entry<K, V>>, m: map<K, int>,
                       maxCacheSize: int, p: nat)
    requires ArenaInv(es, order, m, maxCacheSize) && p < |order|
    requires SamePayload(es, es') && Closed(es', [0] + MoveToBack(order, p))
    ensures ArenaInv(es', MoveToBack(order, p), m, maxCacheSize)
    ensures WellFormed(es, order) && WellFormed(es', MoveToBack(order, p))
    ensures Abstract(es', MoveToBack(order, p)) == MoveToBack(Abstract(es, order), p)
  {
    var o := MoveToBack(order, p);
    DistinctMoveToBack(order, p);
    forall x | 1 <= x < |es'| ensures x in o {
      MoveToBackMembers(order, p, x);
    }
    forall i | 0 <= i < |o| ensures 1 <= o[i] < |es'| {
      assert o[i] in order;
    }
    ArenaContents(es, order, m, maxCacheSize);
  }

  /** Overwriting the value of the live slot at ring position `p` keeps the
      invariant and overwrites that pair's value in the contents. */
  lemma ValueOverwritten<K, V>(es: seq<Entry<K, V>>, order: seq<int>, m: map<K, int>, maxCacheSize: int,
                               p: nat, v: V)
    requires ArenaInv(es, order, m, maxCacheSize) && p < |order|
    ensures WellFormed(es, order)
    ensures var es' := es[order[p] := es[order[p]].(value := v)];
            && ArenaInv(es', order, m, maxCacheSize)
            && Abstract(es', order) == Abstract(es, order)[p := Pair(Abstract(es, order)[p].key, v)]
  {
    ArenaContents(es, order, m, maxCacheSize);
  }

  /** Appending a self-linked slot for a new key, before it is linked into the
      ring: the ring is still closed and the slot is not on it. */
  lemma SlotAppended<K, V>(es: seq<Entry<K, V>>, order: seq<int>, m: map<K, int>, maxCacheSize: int,
                           key: K, v: V)
    requires ArenaInv(es, order, m, maxCacheSize)
    ensures var n := |es|;
            var es' := es + [Entry(n, n, v, Some(key))];
            && Closed(es', [0] + order) && Distinct([0] + order) && n !in order
  {
    var n := |es|;
    var es' := es + [Entry(n, n, v, Some(key))];
    RingDistinct(order, n);
    var r := [0] + order;
    forall i | 0 <= i < |r| ensures es'[r[i]] == es[r[i]] {
    }
    assert n !in order by {
      forall i | 0 <= i < |order| ensures order[i] != n {
      }
    }
  }

  /** After the appended slot is linked in at the most recent end, the invariant
      holds with the new key mapped to it, and the contents grew by the new pair. */
  lemma AppendedSlotLinked<K, V>(es: seq<Entry<K, V>>, order: seq<int>, M: map<K, int>, maxCacheSize: int,
                                 key: K, v: V, es': seq<Entry<K, V>>)
    requires key in M && M[key] == |es| && ArenaInv(es, order, M - {key}, maxCacheSize)
    requires |M - {key}| < maxCacheSize
    requires SamePayload(es + [Entry(|es|, |es|, v, Some(key))], es')
    requires Closed(es', [0] + order + [|es|])
    ensures ArenaInv(es', order + [|es|], M, maxCacheSize)
    ensures WellFormed(es, order) && WellFormed(es', order + [|es|])
    ensures Abstract(es', order + [|es|]) == Abstract(es, order) + [Pair(key, v)]
  {
    var m := M - {key};
    var n := |es|;
    ArenaContents(es, order, m, maxCacheSize);
    assert M.Keys == m.Keys + {key};
    assert |M| == |m| + 1;
    var o := order + [n];
    assert [0] + o == [0] + order + [n];
    AppendedSlots(order, n);
    AppendedHandles(es, order, M, maxCacheSize, key, v, es');
  }

  /** The ring order with the fresh slot `n` appended lists the slots 1 .. n. */
  lemma AppendedSlots(order: seq<int>, n: int)
    requires LiveSlots(order, n)
    ensures LiveSlots(order + [n], n + 1)
  {
    var o := order + [n];
    forall i, j | 0 <= i < j < |o| ensures o[i] != o[j] {
      if j < |order| {
        assert o[i] == order[i] && o[j] == order[j];
      } else {
        assert o[i] == order[i];
      }
    }
    forall x | 1 <= x < n + 1 ensures x in o {
      if x < n {
        assert x in order;
      } else {
        assert o[|o| - 1] == x;
      }
    }
  }

  /** With the new key mapped to the appended slot, the map and the slots'
      handles are still inverse to each other. */
  lemma AppendedHandles<K, V>(es: seq<Entry<K, V>>, order: seq<int>, M: map<K, int>, maxCacheSize: int,
                              key: K, v: V, es': seq<Entry<K, V>>)
    requires key in M && M[key] == |es| && ArenaInv(es, order, M - {key}, maxCacheSize)
    requires SamePayload(es + [Entry(|es|, |es|, v, Some(key))], es')
    ensures forall k :: k in M ==> 1 <= M[k] < |es'| && es'[M[k]].keyLocation == Some(k)
    ensures forall i :: 1 <= i < |es'| ==>
              es'[i].keyLocation.Some? && es'[i].keyLocation.value in M && M[es'[i].keyLocation.value] == i
  {
    var m := M - {key};
    var n := |es|;
    forall k | k in M ensures 1 <= M[k] < |es'| && es'[M[k]].keyLocation == Some(k) {
      if k != key {
        assert k in m;
      }
    }
    forall i | 1 <= i < |es'|
      ensures es'[i].keyLocation.Some? && es'[i].keyLocation.value in M && M[es'[i].keyLocation.value] == i
    {
      if i < n {
        assert es'[i].keyLocation == es[i].keyLocation;
        assert es[i].keyLocation.value in m;
      }
    }
  }

  /** Reusing the least recently used slot for a new key: the old key is erased
      from the map, the new key is mapped to the slot, and the slot's pair is
      replaced by the new one, still at the front of the contents. */
  lemma SlotReused<K, V>(es: seq<Entry<K, V>>, order: seq<int>, M: map<K, int>, maxCacheSize: int,
                         key: K, v: V)
    requires key in M && M[key] == |es| && ArenaInv(es, order, M - {key}, maxCacheSize)
    requires |M - {key}| == maxCacheSize
    ensures order != [] && es[0].next == order[0]
    ensures es[order[0]].keyLocation.Some? && es[order[0]].keyLocation.value != key
    ensures WellFormed(es, order)
    ensures var x := order[0];
            var es1 := es[x := es[x].(value := v, keyLocation := Some(key))];
            var m1 := M[key := x] - {es[x].keyLocation.value};
            && ArenaInv(es1, order, m1, maxCacheSize)
            && Abstract(es1, order) == Abstract(es, order)[0 := Pair(key, v)]
  {
    var m := M - {key};
    ArenaContents(es, order, m, maxCacheSize);
    assert |order| >= 1;
    assert ([0] + order)[1] == order[0];
    assert Succ(0, |order| + 1) == 1;
    var x := order[0];
    assert es[x].keyLocation.value in m;
    var m1 := M[key := x] - {es[x].keyLocation.value};
    assert m1 == m[key := x] - {es[x].keyLocation.value};
    SlotRekeyed(es, order, m, maxCacheSize, key, v, x);
  }

  /** Giving the live slot `x` a new key that is not in the map, in place of
      its old key, keeps the invariant. */
  lemma SlotRekeyed<K, V>(es: seq<Entry<K, V>>, order: seq<int>, m: map<K, int>, maxCacheSize: int,
                          key: K, v: V, x: int)
    requires ArenaInv(es, order, m, maxCacheSize) && key !in m && 1 <= x < |es|
    ensures es[x].keyLocation.Some? && es[x].keyLocation.value in m
    ensures ArenaInv(es[x := es[x].(value := v, keyLocation := Some(key))], order,
                     m[key := x] - {es[x].keyLocation.value}, maxCacheSize)
  {
    var old_ := es[x].keyLocation.value;
    var es1 := es[x := es[x].(value := v, keyLocation := Some(key))];
    var m1 := m[key := x] - {old_};
    assert |m1| == |m| by {
      assert |m[key := x]| == |m| + 1;
    }
    ReadyToPush(es, order, m, maxCacheSize, x, es1[x]);
    RekeyedMap(es, order, m, maxCacheSize, key, v, x);
    RekeyedSlots(es, order, m, maxCacheSize, key, v, x);
  }

  /** After rekeying slot `x`, every key of the new map names a slot holding it. */
  lemma RekeyedMap<K, V>(es: seq<Entry<K, V>>, order: seq<int>, m: map<K, int>, maxCacheSize: int,
                         key: K, v: V, x: int)
    requires ArenaInv(es, order, m, maxCacheSize) && key !in m && 1 <= x < |es|
    ensures es[x].keyLocation.Some?
    ensures var es1 := es[x := es[x].(value := v, keyLocation := Some(key))];
            var m1 := m[key := x] - {es[x].keyLocation.value};
            forall k :: k in m1 ==> 1 <= m1[k] < |es1| && es1[m1[k]].keyLocation == Some(k)
  {
    var es1 := es[x := es[x].(value := v, keyLocation := Some(key))];
    var m1 := m[key := x] - {es[x].keyLocation.value};
    forall k | k in m1 ensures 1 <= m1[k] < |es1| && es1[m1[k]].keyLocation == Some(k) {
      if k != key {
        assert k in m && m[k] != x;
      }
    }
  }

  /** After rekeying slot `x`, every live slot's key maps back to it in the new map. */
  lemma RekeyedSlots<K, V>(es: seq<Entry<K, V>>, order: seq<int>, m: map<K, int>, maxCacheSize: int,
                           key: K, v: V, x: int)
    requires ArenaInv(es, order, m, maxCacheSize) && key !in m && 1 <= x < |es|
    ensures es[x].keyLocation.Some?
    ensures var es1 := es[x := es[x].(value := v, keyLocation := Some(key))];
            var m1 := m[key := x] - {es[x].keyLocation.value};
            forall i :: 1 <= i < |es1| ==>
              es1[i].keyLocation.Some? && es1[i].keyLocation.value in m1 && m1[es1[i].keyLocation.value] == i
  {
    var old_ := es[x].keyLocation.value;
    var es1 := es[x := es[x].(value := v, keyLocation := Some(key))];
    var m1 := m[key := x] - {old_};
    forall i | 1 <= i < |es1|
      ensures es1[i].keyLocation.Some? && es1[i].keyLocation.value in m1 && m1[es1[i].keyLocation.value] == i
    {
      if i != x {
        var k := es[i].keyLocation.value;
        assert k in m && m[k] == i;
        assert k != old_;
      }
    }
  }

  /** A hit for `key` in `get`: after `pushIntoQueue` of its slot the
      invariant holds and the contents are those `AfterGet` describes. */
  lemma GetPromotes<K, V>(es: seq<Entry<K, V>>, order: seq<int>, m: map<K, int>, maxCacheSize: int, key: K,
                          es': seq<Entry<K, V>>, order': seq<int>)
    requires ArenaInv(es, order, m, maxCacheSize) && key in m
    requires order' == Without(order, m[key]) + [m[key]]
    requires SamePayload(es, es') && Closed(es', [0] + order')
    ensures WellFormed(es, order) && WellFormed(es', order')
    ensures ArenaInv(es', order', m, maxCacheSize)
    ensures Lookup(Abstract(es, order), key) == Some(es[m[key]].value)
    ensures Abstract(es', order') == AfterGet(Abstract(es, order), key)
  {
    var p := FindSlot(es, order, m, maxCacheSize, key);
    SpliceToEnd(order, p);
    Promoted(es, order, es', m, maxCacheSize, p);
  }

  /** `put` of a key that is in the map: its slot gets the value, then
      `pushIntoQueue` moves it; the result is the contents `AfterPut` describes. */
  lemma PutOverwrites<K, V>(es: seq<Entry<K, V>>, order: seq<int>, m: map<K, int>, maxCacheSize: int,
                            key: K, v: V, es': seq<Entry<K, V>>, order': seq<int>)
    requires ArenaInv(es, order, m, maxCacheSize) && key in m
    requires order' == Without(order, m[key]) + [m[key]]
    requires SamePayload(es[m[key] := es[m[key]].(value := v)], es') && Closed(es', [0] + order')
    ensures WellFormed(es, order) && WellFormed(es', order')
    ensures ArenaInv(es', order', m, maxCacheSize)
    ensures Lookup(Abstract(es, order), key).Some?
    ensures Abstract(es', order') == AfterPut(Abstract(es, order), maxCacheSize, key, v)
  {
    var p := FindSlot(es, order, m, maxCacheSize, key);
    ValueOverwritten(es, order, m, maxCacheSize, p, v);
    var es1 := es[m[key] := es[m[key]].(value := v)];
    SpliceToEnd(order, p);
    Promoted(es1, order, es', m, maxCacheSize, p);
  }

  /** `put` of a new key when the map (with the key) holds at most
      `maxCacheSize` keys: a self-linked slot is appended, then
      `pushIntoQueue` links it in; the result is the contents `AfterPut` describes. */
  lemma PutAppends<K, V>(es: seq<Entry<K, V>>, order: seq<int>, M: map<K, int>, maxCacheSize: int,
                         key: K, v: V, es': seq<Entry<K, V>>, order': seq<int>)
    requires key in M && M[key] == |es| && ArenaInv(es, order, M - {key}, maxCacheSize)
    requires |M| <= maxCacheSize
    requires order' == Without(order, |es|) + [|es|]
    requires SamePayload(es + [Entry(|es|, |es|, v, Some(key))], es') && Closed(es', [0] + order')
    ensures WellFormed(es, order) && WellFormed(es', order')
    ensures ArenaInv(es', order', M, maxCacheSize)
    ensures Lookup(Abstract(es, order), key).None? && |Abstract(es, order)| < maxCacheSize
    ensures Abstract(es', order') == AfterPut(Abstract(es, order), maxCacheSize, key, v)
  {
    SlotAppended(es, order, M - {key}, maxCacheSize, key, v);
    WithoutAbsent(order, |es|);
    assert [0] + order' == [0] + order + [|es|];
    assert M.Keys == (M - {key}).Keys + {key};
    AppendedSlotLinked(es, order, M, maxCacheSize, key, v, es');
    MissingKey(es, order, M - {key}, maxCacheSize, key);
  }

  /** `put` of a new key when the map (with the key) would exceed
      `maxCacheSize` keys: the least recently used slot `x` is given the new
      key and value, its old key is erased from the map, and `pushIntoQueue`
      moves it; the result is the contents `AfterPut` describes. */
  lemma PutReuses<K, V>(es: seq<Entry<K, V>>, order: seq<int>, M: map<K, int>, maxCacheSize: int,
                        key: K, v: V, es': seq<Entry<K, V>>, order': seq<int>)
    requires key in M && M[key] == |es| && ArenaInv(es, order, M - {key}, maxCacheSize)
    requires |M| > maxCacheSize
    requires order != [] && order' == Without(order, order[0]) + [order[0]]
    requires 0 < order[0] < |es|
    requires SamePayload(es[order[0] := es[order[0]].(value := v, keyLocation := Some(key))], es')
    requires Closed(es', [0] + order')
    requires es[order[0]].keyLocation.Some?
    ensures WellFormed(es, order) && WellFormed(es', order')
    ensures ArenaInv(es', order', M[key := order[0]] - {es[order[0]].keyLocation.value}, maxCacheSize)
    ensures Lookup(Abstract(es, order), key).None? && |Abstract(es, order)| == maxCacheSize
    ensures Abstract(es, order)[0].key == es[order[0]].keyLocation.value
    ensures Abstract(es', order') == AfterPut(Abstract(es, order), maxCacheSize, key, v)
  {
    assert |M| == |M - {key}| + 1;
    SlotReused(es, order, M, maxCacheSize, key, v);
    var x := order[0];
    var es1 := es[x := es[x].(value := v, keyLocation := Some(key))];
    var m1 := M[key := x] - {es[x].keyLocation.value};
    SpliceToEnd(order, 0);
    Promoted(es1, order, es', m1, maxCacheSize, 0);
    MissingKey(es, order, M - {key}, maxCacheSize, key);
    ReplaceFrontToBack(Abstract(es, order), Pair(key, v));
  }

  /** The two writes to the reused slot in `finishPutOperation`, one field at a time. */
  lemma RekeyWrites<K, V>(es: seq<Entry<K, V>>, x: int, v: V, key: K)
    requires 0 <= x < |es|
    ensures var es1 := es[x := es[x].(value := v)];
            es1[x := es1[x].(keyLocation := Some(key))] == es[x := es[x].(value := v, keyLocation := Some(key))]
  {
  }

  /** The links of a ring through every slot are fixed by the ring: two slot
      vectors with the same payload that both form the cycle `r` are equal. */
  lemma RingDetermines<K, V>(es1: seq<Entry<K, V>>, es2: seq<Entry<K, V>>, r: seq<int>)
    requires Closed(es1, r) && Closed(es2, r) && SamePayload(es1, es2)
    requires forall i :: 0 <= i < |es1| ==> i in r
    ensures es1 == es2
  {
    forall i | 0 <= i < |es1| ensures es1[i] == es2[i] {
      assert i in r;
      var k :| 0 <= k < |r| && r[k] == i;
      assert es1[i].next == es2[i].next;
      var pk := if k == 0 then |r| - 1 else k - 1;
      assert Succ(pk, |r|) == k;
      assert es1[i].prev == es2[i].prev;
    }
  }

  /** `pushIntoQueue` of the most recently used slot rewrites the links it
      already has: the slots, and so the ring and the contents, stay as they were. */
  lemma PushMostRecent<K, V>(es: seq<Entry<K, V>>, order: seq<int>)
    requires Closed(es, [0] + order) && LiveSlots(order, |es|) && order != []
    ensures var x := order[|order| - 1];
            && 0 < x < |es| && 0 <= es[x].prev < |es| && 0 <= es[x].next < |es|
            && 0 <= Unlink(es, x)[0].prev < |es|
            && LinkLast(Unlink(es, x), x) == es
            && Without(order, x) + [x] == order
  {
    var p := |order| - 1;
    var x := order[p];
    var r := [0] + order;
    RingDistinct(order, |es|);
    WithoutLast(order);
    PushedFromRing(es, order, p);
    assert [0] + Without(order, x) + [x] == r;
    RingCovers(order, |es|);
    RingDetermines(es, LinkLast(Unlink(es, x), x), r);
  }

  /** The ring through the sentinel and the live slots visits every slot. */
  lemma RingCovers(order: seq<int>, n: int)
    requires LiveSlots(order, n)
    ensures forall i :: 0 <= i < n ==> i in [0] + order
  {
    forall i | 0 <= i < n ensures i in [0] + order {
      if i != 0 {
        assert i in order;
      }
    }
  }

  /** Rewriting the payload of live slot `x` (its links kept) leaves the
      ring as it was: the precondition of `pushIntoQueue` for that slot. */
  lemma ReadyToPush<K, V>(es: seq<Entry<K, V>>, order: seq<int>, m: map<K, int>, maxCacheSize: int,
                          x: int, e: Entry<K, V>)
    requires ArenaInv(es, order, m, maxCacheSize) && 1 <= x < |es|
    requires e.next == es[x].next && e.prev == es[x].prev
    ensures Closed(es[x := e], [0] + order) && Distinct([0] + order) && x in order
  {
    RingDistinct(order, |es|);
    var r := [0] + order;
    forall i | 0 <= i < |r| ensures es[x := e][r[i]].next == es[r[i]].next && es[x := e][r[i]].prev == es[r[i]].prev {
    }
  }
}
