/** What the sorts share. The sorted classes compare elements with `compareTo`; here each
    element has an integer key and `compareTo` is the comparison of keys, so elements with
    equal keys are "equal" to the sort yet may still be told apart, which is what stability
    is about. */
module Sorting {

  /** The keys of `s[lo..hi)` never decrease. */
  ghost predicate SortedIn<T>(s: seq<T>, key: T -> int, lo: int, hi: int)
  {
    forall i, j | lo <= i < j < hi && 0 <= i && j < |s| :: key(s[i]) <= key(s[j])
  }

  ghost predicate Sorted<T>(s: seq<T>, key: T -> int)
  {
    SortedIn(s, key, 0, |s|)
  }

  /** Every key in `s[lo..mid)` is at most every key in `s[mid..hi)`. */
  ghost predicate Below<T>(s: seq<T>, key: T -> int, lo: int, mid: int, hi: int)
  {
    forall i, j | lo <= i < mid <= j < hi && 0 <= i && j < |s| :: key(s[i]) <= key(s[j])
  }

  /** The classes' `swap(index1, index2, array)`: exactly the two cells trade places. */
  function Swap<T>(s: seq<T>, i: int, j: int): (r: seq<T>)
    requires 0 <= i < |s| && 0 <= j < |s|
    ensures |r| == |s| && r[i] == s[j] && r[j] == s[i]
    ensures forall k | 0 <= k < |s| && k != i && k != j :: r[k] == s[k]
    ensures multiset(r) == multiset(s)
  {
    s[i := s[j]][j := s[i]]
  }

  /** A run sorted on each side of `mid`, with the left side below the right, is sorted. */
  lemma SortedJoin<T>(s: seq<T>, key: T -> int, lo: int, mid: int, hi: int)
    requires SortedIn(s, key, lo, mid) && SortedIn(s, key, mid, hi) && Below(s, key, lo, mid, hi)
    ensures SortedIn(s, key, lo, hi)
  {
  }

  /** Two sequences agreeing outside `[lo, hi)` and holding the same multiset hold the same
      multiset inside it. */
  lemma SliceMultiset<T>(r: seq<T>, s: seq<T>, lo: int, hi: int)
    requires 0 <= lo <= hi <= |s| == |r|
    requires multiset(r) == multiset(s) && r[..lo] == s[..lo] && r[hi..] == s[hi..]
    ensures multiset(r[lo..hi]) == multiset(s[lo..hi])
  {
    ThreeParts(r, lo, hi);
    ThreeParts(s, lo, hi);
    Cancel(multiset(s[..lo]), multiset(s[hi..]), multiset(r[lo..hi]), multiset(s[lo..hi]));
  }

  /** A sequence's multiset is the sum of the multisets of its three slices at `lo` and `hi`. */
  lemma ThreeParts<T>(s: seq<T>, lo: int, hi: int)
    requires 0 <= lo <= hi <= |s|
    ensures multiset(s) == multiset(s[..lo]) + multiset(s[lo..hi]) + multiset(s[hi..])
  {
    assert s == s[..lo] + s[lo..hi] + s[hi..];
  }

  lemma Cancel<T>(a: multiset<T>, c: multiset<T>, x: multiset<T>, y: multiset<T>)
    requires a + x + c == a + y + c
    ensures x == y
  {
    forall e ensures x[e] == y[e] {
      assert (a + x + c)[e] == (a + y + c)[e];
    }
  }

  /** A bound on every key of a run survives any permutation of that run. */
  lemma BoundSurvives<T>(a: seq<T>, b: seq<T>, key: T -> int, lo: int, hi: int, p: int, atMost: bool)
    requires 0 <= lo <= hi <= |a| == |b|
    requires multiset(a[lo..hi]) == multiset(b[lo..hi])
    requires forall k | lo <= k < hi :: if atMost then key(a[k]) <= p else key(a[k]) >= p
    ensures forall k | lo <= k < hi :: if atMost then key(b[k]) <= p else key(b[k]) >= p
  {
    forall k | lo <= k < hi
      ensures if atMost then key(b[k]) <= p else key(b[k]) >= p
    {
      assert b[lo..hi][k - lo] == b[k];
      assert b[k] in multiset(a[lo..hi]);
      var k' :| 0 <= k' < hi - lo && a[lo..hi][k'] == b[k];
      assert a[lo + k'] == b[k];
    }
  }

  /** The elements of `s` whose key is `k`, in their order in `s`. */
  function WithKey<T>(s: seq<T>, key: T -> int, k: int): (r: seq<T>)
    ensures |r| <= |s|
  {
    if s == [] then []
    else (if key(s[0]) == k then [s[0]] else []) + WithKey(s[1..], key, k)
  }

  lemma {:induction false} WithKeyAppend<T>(a: seq<T>, b: seq<T>, key: T -> int, k: int)
    ensures WithKey(a + b, key, k) == WithKey(a, key, k) + WithKey(b, key, k)
  {
    if a == [] {
      assert a + b == b;
    } else {
      var h := if key(a[0]) == k then [a[0]] else [];
      assert (a + b)[0] == a[0];
      assert (a + b)[1..] == a[1..] + b;
      assert WithKey(a + b, key, k) == h + WithKey(a[1..] + b, key, k);
      WithKeyAppend(a[1..], b, key, k);
    }
  }

  /** Stability: for every key, the elements carrying it keep their relative order. */
  ghost predicate Stable<T>(s: seq<T>, t: seq<T>, key: T -> int)
  {
    forall k :: WithKey(t, key, k) == WithKey(s, key, k)
  }

  /** Trading two neighbours whose keys differ keeps the order among equal keys. */
  lemma NeighbourSwapStable<T>(s: seq<T>, j: int, key: T -> int)
    requires 0 <= j < |s| - 1 && key(s[j]) != key(s[j + 1])
    ensures Stable(s, Swap(s, j, j + 1), key)
    ensures Swap(s, j + 1, j) == Swap(s, j, j + 1)
  {
    var r := Swap(s, j, j + 1);
    var p, q := s[..j], s[j + 2..];
    assert s == p + [s[j], s[j + 1]] + q;
    assert r == p + [s[j + 1], s[j]] + q;
    forall k ensures WithKey(r, key, k) == WithKey(s, key, k) {
      WithKeyThree(p, [s[j], s[j + 1]], q, key, k);
      WithKeyThree(p, [s[j + 1], s[j]], q, key, k);
      PairWithKey(s[j], s[j + 1], key, k);
    }
  }

  lemma WithKeyThree<T>(p: seq<T>, m: seq<T>, q: seq<T>, key: T -> int, k: int)
    ensures WithKey(p + m + q, key, k) == WithKey(p, key, k) + WithKey(m, key, k) + WithKey(q, key, k)
  {
    WithKeyAppend(p + m, q, key, k);
    WithKeyAppend(p, m, key, k);
  }

  /** Two elements with different keys can never both carry the key `k`. */
  lemma PairWithKey<T>(x: T, y: T, key: T -> int, k: int)
    requires key(x) != key(y)
    ensures WithKey([x, y], key, k) == WithKey([y, x], key, k)
  {
    assert [x, y][1..] == [y];
    assert [y, x][1..] == [x];
  }
}
