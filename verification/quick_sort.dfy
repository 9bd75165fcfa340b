/** Quicksort with the Lomuto partition: the last cell is the pivot, and a "wall" sweeps up
    the cells whose key is at most the pivot's. */
module QuickSort {
  import opened Sorting

  /** The partition loop and the swap that follows it: keys before the wall are at most the
      pivot's, the pivot lands on the wall, and keys after it are greater. When no cell went
      before the wall, the range was untouched by the loop, so its first key exceeded the
      pivot's. */
  method Partition<T>(s: seq<T>, key: T -> int, min: int, max: int) returns (r: seq<T>, wall: int)
    requires 0 <= min < max < |s|
    ensures min <= wall <= max && |r| == |s|
    ensures r[..min] == s[..min] && r[max + 1..] == s[max + 1..]
    ensures multiset(r) == multiset(s)
    ensures r[wall] == s[max]
    ensures forall k | min <= k < wall :: key(r[k]) <= key(s[max])
    ensures forall k | wall < k <= max :: key(r[k]) > key(s[max])
    ensures wall == min ==> key(s[min]) > key(s[max])
  {
    r, wall := Sweep(s, key, min, max);
    assert r[max] == s[max] by {
      assert r[max] == r[max..][0];
    }
    var swept := r;
    r := Swap(r, max, wall);
    assert r[..min] == swept[..min] && r[max + 1..] == swept[max + 1..];
  }

  /** The partition loop: every cell of `[min, max)` with a key at most the pivot's is
      swapped to the wall, which then moves up one. */
  method Sweep<T>(s: seq<T>, key: T -> int, min: int, max: int) returns (r: seq<T>, wall: int)
    requires 0 <= min < max < |s|
    ensures min <= wall <= max && |r| == |s|
    ensures r[..min] == s[..min] && r[max..] == s[max..]
    ensures multiset(r) == multiset(s)
    ensures forall k | min <= k < wall :: key(r[k]) <= key(s[max])
    ensures forall k | wall <= k < max :: key(r[k]) > key(s[max])
    ensures wall == min ==> r == s
  {
    var pivot := s[max];
    wall := min;
    r := s;
    var i := min;
    while i < max
      invariant min <= wall <= i <= max && |r| == |s|
      invariant r[..min] == s[..min] && r[max..] == s[max..]
      invariant multiset(r) == multiset(s)
      invariant forall k | min <= k < wall :: key(r[k]) <= key(pivot)
      invariant forall k | wall <= k < i :: key(r[k]) > key(pivot)
      invariant wall == min ==> r == s
    {
      if key(r[i]) <= key(pivot) {
        r := Swap(r, i, wall);
        wall := wall + 1;
      }
      i := i + 1;
    }
  }

  /** The termination measure of `sort(min, max)`: the range length, then whether the first
      key exceeds the last. The call `sort(wall, max)` repeats the whole range only when the
      wall stayed at `min`, and then the first key went from above the last to below it. */
  function Flag<T>(s: seq<T>, key: T -> int, min: int, max: int): (f: int)
    ensures f == 0 || f == 1
  {
    if 0 <= min < max < |s| && key(s[min]) > key(s[max]) then 1 else 0
  }

  /** `sort(min, max)`: only `[min..max]` changes; it ends sorted and a permutation of what
      it held. A range of fewer than two cells is left alone. */
  method SortRange<T>(s: seq<T>, key: T -> int, min: int, max: int) returns (r: seq<T>)
    requires 0 <= min <= max + 1 <= |s|
    ensures |r| == |s| && r[..min] == s[..min] && r[max + 1..] == s[max + 1..]
    ensures multiset(r) == multiset(s)
    ensures SortedIn(r, key, min, max + 1)
    decreases max - min, Flag(s, key, min, max)
  {
    r := s;
    if max > min {
      var p, wall := Partition(s, key, min, max);
      var r1 := SortRange(p, key, min, wall - 1);
      if wall == min {
        assert r1 == p;
        assert Flag(r1, key, wall, max) == 0;
      }
      r := SortRange(r1, key, wall, max);
      SortRangeJoins(s, p, r1, r, key, min, wall, max);
    }
  }

  lemma SortRangeJoins<T>(s: seq<T>, p: seq<T>, r1: seq<T>, r: seq<T>, key: T -> int, min: int, wall: int, max: int)
    requires 0 <= min <= wall <= max < |s|
    requires |p| == |s| && p[..min] == s[..min] && p[max + 1..] == s[max + 1..]
    requires multiset(p) == multiset(s) && p[wall] == s[max]
    requires forall k | min <= k < wall :: key(p[k]) <= key(s[max])
    requires forall k | wall < k <= max :: key(p[k]) > key(s[max])
    requires |r1| == |p| && r1[..min] == p[..min] && r1[wall..] == p[wall..]
    requires multiset(r1) == multiset(p) && SortedIn(r1, key, min, wall)
    requires |r| == |r1| && r[..wall] == r1[..wall] && r[max + 1..] == r1[max + 1..]
    requires multiset(r) == multiset(r1) && SortedIn(r, key, wall, max + 1)
    ensures r[..min] == s[..min] && r[max + 1..] == s[max + 1..]
    ensures multiset(r) == multiset(s)
    ensures SortedIn(r, key, min, max + 1)
  {
    var pivot := key(s[max]);
    SliceMultiset(r1, p, min, wall);
    BoundSurvives(p, r1, key, min, wall, pivot, true);
    assert forall k | wall <= k <= max :: key(r1[k]) >= pivot by {
      forall k | wall <= k <= max ensures key(r1[k]) >= pivot {
        assert r1[k] == r1[wall..][k - wall] == p[wall..][k - wall] == p[k];
      }
    }
    SliceMultiset(r, r1, wall, max + 1);
    BoundSurvives(r1, r, key, wall, max + 1, pivot, false);
    assert forall k | min <= k < wall :: r[k] == r1[k] by {
      forall k | min <= k < wall ensures r[k] == r1[k] {
        assert r[k] == r[..wall][k] == r1[..wall][k];
      }
    }
    SortedJoin(r, key, min, wall, max + 1);
    assert r[..min] == s[..min] by {
      assert r[..min] == r[..wall][..min] && r1[..min] == r1[..wall][..min];
    }
    assert r[max + 1..] == s[max + 1..] by {
      assert r1[max + 1..] == r1[wall..][max + 1 - wall..] && p[max + 1..] == p[wall..][max + 1 - wall..];
    }
  }

  /** The public `sort`: `sort(0, length - 1)`. The result is sorted and a permutation. */
  method Sort<T>(a: seq<T>, key: T -> int) returns (s: seq<T>)
    ensures Sorted(s, key) && multiset(s) == multiset(a)
  {
    s := SortRange(a, key, 0, |a| - 1);
  }
}
