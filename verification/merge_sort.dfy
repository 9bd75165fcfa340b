/** Top-down merge sort over an index range, merging through a temporary array. */
module MergeSort {
  import opened Sorting

  /** What `merge` writes for two runs: the smaller head first, and on equal keys the head
      of the RIGHT run, since the left head is taken only when it compares strictly less. */
  function Merged<T>(x: seq<T>, y: seq<T>, key: T -> int): (r: seq<T>)
    ensures |r| == |x| + |y|
    decreases |x| + |y|
  {
    if x == [] then y
    else if y == [] then x
    else if key(x[0]) < key(y[0]) then [x[0]] + Merged(x[1..], y, key)
    else [y[0]] + Merged(x, y[1..], key)
  }

  /** Merging keeps every element of both runs, and nothing else. */
  lemma {:induction false} MergedPermutation<T>(x: seq<T>, y: seq<T>, key: T -> int)
    ensures multiset(Merged(x, y, key)) == multiset(x) + multiset(y)
    decreases |x| + |y|
  {
    if x != [] && y != [] {
      if key(x[0]) < key(y[0]) {
        MergedPermutation(x[1..], y, key);
        ConsPermutation(x, Merged(x[1..], y, key), multiset(y));
      } else {
        MergedPermutation(x, y[1..], key);
        ConsPermutation(y, Merged(x, y[1..], key), multiset(x));
      }
    }
  }

  lemma ConsPermutation<T>(x: seq<T>, m: seq<T>, other: multiset<T>)
    requires x != [] && multiset(m) == multiset(x[1..]) + other
    ensures multiset([x[0]] + m) == multiset(x) + other
  {
    assert x == [x[0]] + x[1..];
  }

  /** Merging two sorted runs gives a sorted run. */
  lemma {:induction false} MergedSorted<T>(x: seq<T>, y: seq<T>, key: T -> int)
    requires Sorted(x, key) && Sorted(y, key)
    ensures Sorted(Merged(x, y, key), key)
    decreases |x| + |y|
  {
    if x != [] && y != [] {
      if key(x[0]) < key(y[0]) {
        MergedSorted(x[1..], y, key);
        HeadBelow(x[0], x[1..], y, key);
      } else {
        MergedSorted(x, y[1..], key);
        HeadBelow(y[0], x, y[1..], key);
      }
    }
  }

  /** A head no greater than anything in either run stays sorted in front of their merge. */
  lemma HeadBelow<T>(h: T, x: seq<T>, y: seq<T>, key: T -> int)
    requires forall k | 0 <= k < |x| :: key(h) <= key(x[k])
    requires forall k | 0 <= k < |y| :: key(h) <= key(y[k])
    requires Sorted(Merged(x, y, key), key)
    ensures Sorted([h] + Merged(x, y, key), key)
  {
    var m := Merged(x, y, key);
    MergedPermutation(x, y, key);
    forall k | 0 <= k < |m| ensures key(h) <= key(m[k]) {
      assert m[k] in multiset(x) + multiset(y);
      if m[k] in multiset(x) {
        var i :| 0 <= i < |x| && x[i] == m[k];
      } else {
        var i :| 0 <= i < |y| && y[i] == m[k];
      }
    }
    SortedCons(h, m, key);
  }

  lemma SortedCons<T>(h: T, m: seq<T>, key: T -> int)
    requires Sorted(m, key) && forall k | 0 <= k < |m| :: key(h) <= key(m[k])
    ensures Sorted([h] + m, key)
  {
    var r := [h] + m;
    forall i, j | 0 <= i < j < |r| ensures key(r[i]) <= key(r[j]) {
      assert r[j] == m[j - 1];
      if i > 0 {
        assert r[i] == m[i - 1];
      }
    }
  }

  /** Length of the left half `[min..mid]` for a range of `n` cells, `mid = (min + max) / 2`. */
  function LeftLength(n: int): (l: int)
    requires n >= 2
    ensures 1 <= l < n
  {
    (n - 1) / 2 + 1
  }

  /** What `sort(min, max)` leaves in the range: both halves sorted, then merged. */
  function MergeSorted<T>(s: seq<T>, key: T -> int): (r: seq<T>)
    decreases |s|
  {
    if |s| <= 1 then s
    else
      var l := LeftLength(|s|);
      Merged(MergeSorted(s[..l], key), MergeSorted(s[l..], key), key)
  }

  lemma {:induction false} MergeSortedSorted<T>(s: seq<T>, key: T -> int)
    ensures Sorted(MergeSorted(s, key), key)
    decreases |s|
  {
    if |s| > 1 {
      var l := LeftLength(|s|);
      MergeSortedSorted(s[..l], key);
      MergeSortedSorted(s[l..], key);
      MergedSorted(MergeSorted(s[..l], key), MergeSorted(s[l..], key), key);
    }
  }

  lemma {:induction false} MergeSortedPermutation<T>(s: seq<T>, key: T -> int)
    ensures multiset(MergeSorted(s, key)) == multiset(s)
    decreases |s|
  {
    if |s| > 1 {
      var l := LeftLength(|s|);
      var x, y := MergeSorted(s[..l], key), MergeSorted(s[l..], key);
      MergeSortedPermutation(s[..l], key);
      MergeSortedPermutation(s[l..], key);
      HalvesPermutation(s, l, x, y, key);
    }
  }

  lemma HalvesPermutation<T>(s: seq<T>, l: int, x: seq<T>, y: seq<T>, key: T -> int)
    requires 0 <= l <= |s| && multiset(x) == multiset(s[..l]) && multiset(y) == multiset(s[l..])
    ensures multiset(Merged(x, y, key)) == multiset(s)
  {
    MergedPermutation(x, y, key);
    assert s == s[..l] + s[l..];
  }

  /** The sort is not stable: two elements with equal keys come out swapped. */
  lemma EqualKeysSwap<T>(x: T, y: T, key: T -> int)
    requires key(x) == key(y)
    ensures MergeSorted([x, y], key) == [y, x]
  {
    assert [x, y][..1] == [x] && [x, y][1..] == [y];
    assert Merged([x], [y], key) == [y] + Merged([x], [], key);
  }

  /** What is still to be merged while the runs are consumed from `first1` and `first2`. */
  function Rest<T>(s: seq<T>, key: T -> int, first1: int, mid: int, first2: int, last: int): seq<T>
    requires 0 <= first1 <= mid + 1 <= first2 <= last + 1 <= |s|
  {
    Merged(s[first1..mid + 1], s[first2..last + 1], key)
  }

  /** One step of any of the three loops: the cell copied to `temp` is the head of what is
      still to be merged. */
  lemma RestStep<T>(s: seq<T>, key: T -> int, first1: int, mid: int, first2: int, last: int)
    requires 0 <= first1 <= mid + 1 <= first2 <= last + 1 <= |s|
    requires first1 <= mid || first2 <= last
    ensures first1 <= mid && (first2 > last || key(s[first1]) < key(s[first2])) ==>
      Rest(s, key, first1, mid, first2, last) == [s[first1]] + Rest(s, key, first1 + 1, mid, first2, last)
    ensures first2 <= last && (first1 > mid || key(s[first1]) >= key(s[first2])) ==>
      Rest(s, key, first1, mid, first2, last) == [s[first2]] + Rest(s, key, first1, mid, first2 + 1, last)
  {
    var x, y := s[first1..mid + 1], s[first2..last + 1];
    if first1 <= mid {
      assert x[0] == s[first1] && x[1..] == s[first1 + 1..mid + 1];
    }
    if first2 <= last {
      assert y[0] == s[first2] && y[1..] == s[first2 + 1..last + 1];
    }
    if first1 > mid {
      assert x == [];
    }
  }

  /** Copying the left head to `temp` when it is the smaller, or the right run is used up,
      keeps `temp` followed by what is left. */
  lemma TakeLeft<T>(s: seq<T>, key: T -> int, temp: seq<T>, first1: int, mid: int, first2: int, last: int)
    requires 0 <= first1 <= mid < first2 <= last + 1 <= |s|
    requires first2 > last || key(s[first1]) < key(s[first2])
    ensures (temp + [s[first1]]) + Rest(s, key, first1 + 1, mid, first2, last) == temp + Rest(s, key, first1, mid, first2, last)
  {
    RestStep(s, key, first1, mid, first2, last);
    MoveHead(temp, s[first1], Rest(s, key, first1, mid, first2, last), Rest(s, key, first1 + 1, mid, first2, last));
  }

  /** Copying the right head to `temp` when it is not larger, or the left run is used up,
      keeps `temp` followed by what is left. */
  lemma TakeRight<T>(s: seq<T>, key: T -> int, temp: seq<T>, first1: int, mid: int, first2: int, last: int)
    requires 0 <= first1 <= mid + 1 <= first2 <= last < |s|
    requires first1 > mid || key(s[first1]) >= key(s[first2])
    ensures (temp + [s[first2]]) + Rest(s, key, first1, mid, first2 + 1, last) == temp + Rest(s, key, first1, mid, first2, last)
  {
    RestStep(s, key, first1, mid, first2, last);
    MoveHead(temp, s[first2], Rest(s, key, first1, mid, first2, last), Rest(s, key, first1, mid, first2 + 1, last));
  }

  /** Copying the head of what is left to the end of `temp` keeps their concatenation. */
  lemma MoveHead<T>(temp: seq<T>, x: T, rest: seq<T>, rest': seq<T>)
    requires rest == [x] + rest'
    ensures (temp + [x]) + rest' == temp + rest
  {
  }

  /** `merge(first, mid, last)`: the three loops fill `temp[first..last]` from the two runs
      `[first..mid]` and `[mid+1..last]`, then copy it back; nothing outside the range moves. */
  method Merge<T>(s: seq<T>, key: T -> int, first: int, mid: int, last: int) returns (r: seq<T>)
    requires 0 <= first <= mid < last < |s|
    ensures MergedSlice(r, s, key, first, mid, last)
  {
    var temp, first1, first2 := Heads(s, key, first, mid, last);
    temp := Drain(s, key, temp, first1, mid, first2, last);
    r := CopyBack(s, temp, first, last);
  }

  /** The first loop of `merge`: while both runs have cells left, the smaller head is
      copied, the right one on equal keys. */
  method Heads<T>(s: seq<T>, key: T -> int, first: int, mid: int, last: int)
    returns (temp: seq<T>, first1: int, first2: int)
    requires 0 <= first <= mid < last < |s|
    ensures first <= first1 <= mid + 1 <= first2 <= last + 1 && (first1 > mid || first2 > last)
    ensures temp + Rest(s, key, first1, mid, first2, last) == Rest(s, key, first, mid, mid + 1, last)
  {
    var all := Rest(s, key, first, mid, mid + 1, last);
    temp := [];
    first1, first2 := first, mid + 1;
    while first1 <= mid && first2 <= last
      invariant first <= first1 <= mid + 1 <= first2 <= last + 1
      invariant temp + Rest(s, key, first1, mid, first2, last) == all
      decreases last + mid - first1 - first2
    {
      temp, first1, first2 := HeadStep(s, key, temp, first1, mid, first2, last);
    }
  }

  /** One pass of the first loop: the smaller head, or the right one on equal keys, moves from
      its run to the end of `temp`. */
  method HeadStep<T>(s: seq<T>, key: T -> int, temp: seq<T>, first1: int, mid: int, first2: int, last: int)
    returns (temp': seq<T>, first1': int, first2': int)
    requires 0 <= first1 <= mid < first2 <= last < |s|
    ensures first1 <= first1' <= mid + 1 <= first2 <= first2' <= last + 1
    ensures first1' + first2' == first1 + first2 + 1
    ensures temp' + Rest(s, key, first1', mid, first2', last) == temp + Rest(s, key, first1, mid, first2, last)
  {
    if key(s[first1]) < key(s[first2]) {
      TakeLeft(s, key, temp, first1, mid, first2, last);
      temp', first1', first2' := temp + [s[first1]], first1 + 1, first2;
    } else {
      TakeRight(s, key, temp, first1, mid, first2, last);
      temp', first1', first2' := temp + [s[first2]], first1, first2 + 1;
    }
  }

  /** The second and third loops of `merge`: once one run is used up, the rest of the
      other is copied over in order. */
  method Drain<T>(s: seq<T>, key: T -> int, temp0: seq<T>, first1: int, mid: int, first2: int, last: int)
    returns (temp: seq<T>)
    requires 0 <= first1 <= mid + 1 <= first2 <= last + 1 <= |s|
    requires first1 > mid || first2 > last
    ensures temp == temp0 + Rest(s, key, first1, mid, first2, last)
  {
    temp := temp0;
    var i1, i2 := first1, first2;
    while i1 <= mid
      invariant first1 <= i1 <= mid + 1 && i2 == first2
      invariant i1 <= mid ==> i2 == last + 1
      invariant temp + Rest(s, key, i1, mid, i2, last) == temp0 + Rest(s, key, first1, mid, first2, last)
    {
      TakeLeft(s, key, temp, i1, mid, i2, last);
      temp := temp + [s[i1]];
      i1 := i1 + 1;
    }
    while i2 <= last
      invariant i1 == mid + 1 && first2 <= i2 <= last + 1
      invariant temp + Rest(s, key, i1, mid, i2, last) == temp0 + Rest(s, key, first1, mid, first2, last)
    {
      TakeRight(s, key, temp, i1, mid, i2, last);
      temp := temp + [s[i2]];
      i2 := i2 + 1;
    }
    assert Rest(s, key, i1, mid, i2, last) == [];
  }

  /** The final loop of `merge`: `temp[first..last]` copied back over the range. */
  method CopyBack<T>(s: seq<T>, temp: seq<T>, first: int, last: int) returns (r: seq<T>)
    requires 0 <= first <= last < |s| && |temp| == last + 1 - first
    ensures |r| == |s| && r[..first] == s[..first] && r[last + 1..] == s[last + 1..]
    ensures r[first..last + 1] == temp
  {
    r := s;
    var index := first;
    while index <= last
      invariant first <= index <= last + 1 && |r| == |s|
      invariant r[..first] == s[..first] && r[last + 1..] == s[last + 1..]
      invariant forall k | first <= k < index :: r[k] == temp[k - first]
    {
      r := r[index := temp[index - first]];
      index := index + 1;
    }
    assert r[first..last + 1] == temp;
  }

  /** `r` is `s` with `[min..max]` replaced by `MergeSorted` of what it held, and every cell
      outside the range left as it was. */
  ghost predicate SortedSlice<T>(r: seq<T>, s: seq<T>, key: T -> int, min: int, max: int)
    requires 0 <= min <= max + 1 <= |s|
  {
    |r| == |s| && r[..min] == s[..min] && r[max + 1..] == s[max + 1..]
    && r[min..max + 1] == MergeSorted(s[min..max + 1], key)
  }

  /** `r` is `s` with `[first..last]` replaced by the merge of its two runs. */
  ghost predicate MergedSlice<T>(r: seq<T>, s: seq<T>, key: T -> int, first: int, mid: int, last: int)
    requires 0 <= first <= mid < last < |s|
  {
    |r| == |s| && r[..first] == s[..first] && r[last + 1..] == s[last + 1..]
    && r[first..last + 1] == Merged(s[first..mid + 1], s[mid + 1..last + 1], key)
  }

  /** `sort(min, max)`: only `[min..max]` changes, and it ends as `MergeSorted` of what it
      held; an empty or one-cell range is left alone. */
  method SortRange<T>(s: seq<T>, key: T -> int, min: int, max: int) returns (r: seq<T>)
    requires 0 <= min <= max + 1 <= |s|
    ensures SortedSlice(r, s, key, min, max)
    decreases max - min
  {
    r := s;
    if min < max {
      var mid := (min + max) / 2;
      var r1 := SortRange(s, key, min, mid);
      var r2 := SortRange(r1, key, mid + 1, max);
      r := Merge(r2, key, min, mid, max);
      Halves(s, r1, r2, r, key, min, mid, max);
    } else {
      assert r[min..max + 1] == s[min..max + 1];
    }
  }

  /** Sorting the two halves in turn and merging them sorts the range. */
  lemma Halves<T>(s: seq<T>, r1: seq<T>, r2: seq<T>, r: seq<T>, key: T -> int, min: int, mid: int, max: int)
    requires 0 <= min < max < |s| && mid == (min + max) / 2
    requires SortedSlice(r1, s, key, min, mid)
    requires |r1| == |s| && SortedSlice(r2, r1, key, mid + 1, max)
    requires |r2| == |s| && MergedSlice(r, r2, key, min, mid, max)
    ensures SortedSlice(r, s, key, min, max)
  {
    OutsideKept(s, r1, r2, r, min, mid, max);
    SortRangeJoins(s, r1, r2, r, key, min, mid, max);
  }

  /** The cells outside `[min, max]` pass through both halves and the merge unchanged. */
  lemma OutsideKept<T>(s: seq<T>, r1: seq<T>, r2: seq<T>, r: seq<T>, min: int, mid: int, max: int)
    requires 0 <= min <= mid < max < |s|
    requires |r1| == |s| && r1[..min] == s[..min] && r1[mid + 1..] == s[mid + 1..]
    requires |r2| == |r1| && r2[..mid + 1] == r1[..mid + 1] && r2[max + 1..] == r1[max + 1..]
    requires |r| == |r2| && r[..min] == r2[..min] && r[max + 1..] == r2[max + 1..]
    ensures r[..min] == s[..min] && r[max + 1..] == s[max + 1..]
  {
    assert r2[..min] == s[..min] by {
      assert r2[..min] == r2[..mid + 1][..min];
      assert r1[..min] == r1[..mid + 1][..min];
    }
    assert r2[max + 1..] == s[max + 1..] by {
      assert r1[max + 1..] == r1[mid + 1..][max - mid..];
      assert s[max + 1..] == s[mid + 1..][max - mid..];
    }
  }

  /** The halves sorted in place and then merged are `MergeSorted` of the range. */
  lemma SortRangeJoins<T>(s: seq<T>, r1: seq<T>, r2: seq<T>, r: seq<T>, key: T -> int, min: int, mid: int, max: int)
    requires 0 <= min < max < |s| && mid == (min + max) / 2
    requires |r1| == |s| && r1[mid + 1..] == s[mid + 1..]
    requires r1[min..mid + 1] == MergeSorted(s[min..mid + 1], key)
    requires |r2| == |r1| && r2[..mid + 1] == r1[..mid + 1]
    requires r2[mid + 1..max + 1] == MergeSorted(r1[mid + 1..max + 1], key)
    requires |r| == |r2| && r[min..max + 1] == Merged(r2[min..mid + 1], r2[mid + 1..max + 1], key)
    ensures r[min..max + 1] == MergeSorted(s[min..max + 1], key)
  {
    var t := s[min..max + 1];
    MidLength(min, max);
    LeftHalf(s, r1, r2, key, min, mid);
    RightHalf(s, r1, r2, key, mid, max);
    HalvesOfRange(s, t, min, mid, max);
    Glue(t, s[min..mid + 1], s[mid + 1..max + 1], r2[min..mid + 1], r2[mid + 1..max + 1], r[min..max + 1], key);
  }

  /** The left half as sorted by the first recursive call survives the second. */
  lemma LeftHalf<T>(s: seq<T>, r1: seq<T>, r2: seq<T>, key: T -> int, min: int, mid: int)
    requires 0 <= min <= mid < |s| && |r1| == |s| && |r2| == |r1|
    requires r1[min..mid + 1] == MergeSorted(s[min..mid + 1], key)
    requires r2[..mid + 1] == r1[..mid + 1]
    ensures r2[min..mid + 1] == MergeSorted(s[min..mid + 1], key)
  {
    PrefixSlice(r2, r1, min, mid + 1, mid + 1);
  }

  /** The right half is sorted from cells the first recursive call left alone. */
  lemma RightHalf<T>(s: seq<T>, r1: seq<T>, r2: seq<T>, key: T -> int, mid: int, max: int)
    requires 0 <= mid < max < |s| && |r1| == |s| && |r2| == |r1|
    requires r1[mid + 1..] == s[mid + 1..]
    requires r2[mid + 1..max + 1] == MergeSorted(r1[mid + 1..max + 1], key)
    ensures r2[mid + 1..max + 1] == MergeSorted(s[mid + 1..max + 1], key)
  {
    SuffixSlice(r1, s, mid + 1, max + 1, mid + 1);
  }

  /** The two halves of `sort(min, max)` are the two parts `MergeSorted` splits the range into. */
  lemma HalvesOfRange<T>(s: seq<T>, t: seq<T>, min: int, mid: int, max: int)
    requires 0 <= min < max < |s| && mid == (min + max) / 2 && t == s[min..max + 1]
    requires LeftLength(max + 1 - min) == mid + 1 - min
    ensures t[..LeftLength(|t|)] == s[min..mid + 1]
    ensures t[LeftLength(|t|)..] == s[mid + 1..max + 1]
  {
  }

  /** Merging the sorted parts of `t` is sorting `t`. */
  lemma Glue<T>(t: seq<T>, x: seq<T>, y: seq<T>, a: seq<T>, b: seq<T>, m: seq<T>, key: T -> int)
    requires |t| >= 2 && x == t[..LeftLength(|t|)] && y == t[LeftLength(|t|)..]
    requires a == MergeSorted(x, key) && b == MergeSorted(y, key)
    requires m == Merged(a, b, key)
    ensures m == MergeSorted(t, key)
  {
    MergeSortedUnfold(t, key);
  }

  /** The left half of `sort(min, max)`, `[min..(min + max) / 2]`, is as long as the left
      part `MergeSorted` splits off. */
  lemma MidLength(min: int, max: int)
    requires 0 <= min < max
    ensures LeftLength(max + 1 - min) == (min + max) / 2 + 1 - min
  {
  }

  /** Equal prefixes agree on every slice inside them. */
  lemma PrefixSlice<T>(a: seq<T>, b: seq<T>, lo: int, hi: int, cut: int)
    requires 0 <= lo <= hi <= cut <= |a| && cut <= |b| && a[..cut] == b[..cut]
    ensures a[lo..hi] == b[lo..hi]
  {
    forall k | lo <= k < hi ensures a[k] == b[k] {
      assert a[k] == a[..cut][k] && b[k] == b[..cut][k];
    }
  }

  /** Equal suffixes agree on every slice inside them. */
  lemma SuffixSlice<T>(a: seq<T>, b: seq<T>, lo: int, hi: int, cut: int)
    requires 0 <= cut <= lo <= hi <= |a| && |a| == |b| && a[cut..] == b[cut..]
    ensures a[lo..hi] == b[lo..hi]
  {
    forall k | lo <= k < hi ensures a[k] == b[k] {
      assert a[k] == a[cut..][k - cut] && b[k] == b[cut..][k - cut];
    }
  }

  lemma MergeSortedUnfold<T>(t: seq<T>, key: T -> int)
    requires |t| >= 2
    ensures MergeSorted(t, key) == Merged(MergeSorted(t[..LeftLength(|t|)], key), MergeSorted(t[LeftLength(|t|)..], key), key)
  {
  }

  /** The public `sort`: `sort(0, length - 1)`; an empty array is the range `[0..-1]` and
      is left as it is. The result is sorted and a permutation of the input. */
  method Sort<T>(a: seq<T>, key: T -> int) returns (s: seq<T>)
    ensures s == MergeSorted(a, key)
    ensures Sorted(s, key) && multiset(s) == multiset(a)
  {
    s := SortRange(a, key, 0, |a| - 1);
    assert s == s[0..|a|] && a == a[0..|a|];
    MergeSortedSorted(a, key);
    MergeSortedPermutation(a, key);
  }
}
