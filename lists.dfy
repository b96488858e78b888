/** Sequence operations that model the recency lists of every cache variant:
    a list is a sequence ordered from its front (least recently used) to its
    back (most recently used), and moving an element to the back is the
    `splice`/`relocate` the variants perform on a hit. */
module Lists {

  /** No element occurs twice. */
  ghost predicate Distinct<T>(s: seq<T>) {
    forall i, j :: 0 <= i < j < |s| ==> s[i] != s[j]
  }

  /** `s` with every occurrence of `x` taken out, the rest in their order. */
  function Without<T(==)>(s: seq<T>, x: T): (r: seq<T>)
    ensures |r| <= |s|
    ensures x !in r
    ensures forall i :: 0 <= i < |r| ==> r[i] in s
    ensures forall i :: 0 <= i < |s| && s[i] != x ==> s[i] in r
  {
    if s == [] then []
    else if s[0] == x then Without(s[1..], x)
    else [s[0]] + Without(s[1..], x)
  }

  /** The element at `i` moved to the back; the others keep their relative order. */
  function MoveToBack<T>(s: seq<T>, i: nat): (r: seq<T>)
    requires i < |s|
    ensures |r| == |s| && r[|r| - 1] == s[i]
    ensures forall j :: 0 <= j < |s| - 1 ==> r[j] == s[if j < i then j else j + 1]
    ensures multiset(r) == multiset(s)
  {
    assert s == s[..i] + [s[i]] + s[i + 1..];
    s[..i] + s[i + 1..] + [s[i]]
  }

  /** Removing an element that is absent changes nothing. */
  lemma {:induction false} WithoutAbsent<T>(s: seq<T>, x: T)
    requires x !in s
    ensures Without(s, x) == s
  {
    if s != [] {
      WithoutAbsent(s[1..], x);
    }
  }

  /** In a list without duplicates, removing the element at `p` removes exactly that position. */
  lemma {:induction false} WithoutAt<T>(s: seq<T>, p: nat)
    requires Distinct(s) && p < |s|
    ensures Without(s, s[p]) == s[..p] + s[p + 1..]
  {
    var t := s[1..];
    DistinctTail(s);
    if p == 0 {
      HeadNotInTail(s);
      WithoutAbsent(t, s[0]);
    } else {
      assert s[0] != s[p] && t[p - 1] == s[p];
      WithoutAt(t, p - 1);
      ConsCut(s, p);
    }
  }

  /** In a list without duplicates the front element does not recur. */
  lemma HeadNotInTail<T>(s: seq<T>)
    requires Distinct(s) && s != []
    ensures s[0] !in s[1..]
  {
    forall i | 1 <= i < |s| ensures s[i] != s[0] {
    }
  }

  /** Cutting position `p > 0` out of a list is keeping its front and cutting `p - 1` out of its tail. */
  lemma ConsCut<T>(s: seq<T>, p: nat)
    requires 0 < p < |s|
    ensures s[..p] + s[p + 1..] == [s[0]] + (s[1..][..p - 1] + s[1..][p..])
  {
    assert s[..p] == [s[0]] + s[1..][..p - 1];
    assert s[p + 1..] == s[1..][p..];
  }

  /** Splicing the element at `p` of a duplicate-free list to its end is `MoveToBack`. */
  lemma SpliceToEnd<T>(s: seq<T>, p: nat)
    requires Distinct(s) && p < |s|
    ensures Without(s, s[p]) + [s[p]] == MoveToBack(s, p)
  {
    WithoutAt(s, p);
  }

  /** Moving an element to the back keeps a list duplicate-free. */
  lemma DistinctMoveToBack<T>(s: seq<T>, p: nat)
    requires Distinct(s) && p < |s|
    ensures Distinct(MoveToBack(s, p))
  {
    var r := MoveToBack(s, p);
    forall i, j | 0 <= i < j < |r| ensures r[i] != r[j] {
      var i' := if i < p then i else i + 1;
      var j' := if j == |r| - 1 then p else if j < p then j else j + 1;
      assert r[i] == s[i'] && r[j] == s[j'] && i' != j';
    }
  }

  /** Moving an element to the back keeps the set of elements. */
  lemma MoveToBackMembers<T>(s: seq<T>, p: nat, y: T)
    requires p < |s|
    ensures y in MoveToBack(s, p) <==> y in s
  {
    var r := MoveToBack(s, p);
    assert y in r <==> y in multiset(r);
    assert y in s <==> y in multiset(s);
  }

  /** Taking out one position of a duplicate-free list keeps it duplicate-free and drops that element. */
  lemma DistinctCut<T>(s: seq<T>, p: nat)
    requires Distinct(s) && p < |s|
    ensures Distinct(s[..p] + s[p + 1..]) && s[p] !in s[..p] + s[p + 1..]
  {
    var r := s[..p] + s[p + 1..];
    forall i | 0 <= i < |r| ensures r[i] == s[if i < p then i else i + 1] {
      if i < p {
        assert r[i] == s[..p][i];
      } else {
        assert r[i] == s[p + 1..][i - p];
      }
    }
    forall i, j | 0 <= i < j < |r| ensures r[i] != r[j] {
      assert r[i] == s[if i < p then i else i + 1];
      assert r[j] == s[if j < p then j else j + 1];
    }
  }

  /** Dropping the first element keeps a list duplicate-free. */
  lemma DistinctTail<T>(s: seq<T>)
    requires Distinct(s) && s != []
    ensures Distinct(s[1..])
  {
    var t := s[1..];
    forall i, j | 0 <= i < j < |t| ensures t[i] != t[j] {
      assert t[i] == s[i + 1] && t[j] == s[j + 1];
    }
  }

  /** Replacing the front element and moving it to the back is dropping the
      front and appending the replacement. */
  lemma ReplaceFrontToBack<T>(s: seq<T>, x: T)
    requires s != []
    ensures MoveToBack(s[0 := x], 0) == s[1..] + [x]
  {
    assert s[0 := x][1..] == s[1..];
  }

  /** Splicing the last element of a duplicate-free list to its end changes nothing. */
  lemma WithoutLast<T>(s: seq<T>)
    requires Distinct(s) && s != []
    ensures Without(s, s[|s| - 1]) + [s[|s| - 1]] == s
  {
    var n := |s| - 1;
    var front := s[..n];
    SplitLast(s);
    assert s[n] !in front by {
      forall i | 0 <= i < |front| ensures front[i] != s[n] {
        assert front[i] == s[i];
      }
    }
    WithoutAppended(front, s[n]);
  }

  /** A nonempty list is its front followed by its last element. */
  lemma SplitLast<T>(s: seq<T>)
    requires s != []
    ensures s == s[..|s| - 1] + [s[|s| - 1]]
  {
  }

  /** Removing an absent element that was appended gives back the list. */
  lemma {:induction false} WithoutAppended<T>(s: seq<T>, x: T)
    requires x !in s
    ensures Without(s + [x], x) == s
  {
    if s == [] {
      assert [x][1..] == [];
    } else {
      assert (s + [x])[1..] == s[1..] + [x];
      WithoutAppended(s[1..], x);
      assert [s[0]] + s[1..] == s;
    }
  }

  /** Appending an element that is not there keeps the elements distinct. */
  lemma DistinctAppend<T>(s: seq<T>, x: T)
    requires Distinct(s) && x !in s
    ensures Distinct(s + [x])
  {
    var t := s + [x];
    forall i, j | 0 <= i < j < |t| ensures t[i] != t[j] {
      assert t[i] == s[i];
      if j < |s| {
        assert t[j] == s[j];
      }
    }
  }
}
