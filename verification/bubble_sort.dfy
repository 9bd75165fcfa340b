/** Bubble sort: pass `i` carries the largest key of `[0, n-i)` to position `n-i-1`. */
module BubbleSort {
  import opened Sorting

  /** The inner loop's invariant at `j` during pass `i`: `s[j]` has the largest key of
      `[0, j]`, and the last `i` cells are no smaller than anything before them. */
  ghost predicate Bubbling<T>(s: seq<T>, key: T -> int, i: int, j: int)
    requires 0 <= j < |s|
  {
    && (forall k | 0 <= k < j :: key(s[k]) <= key(s[j]))
    && Below(s, key, 0, |s| - i, |s|)
  }

  /** The body of the inner loop: neighbours swapped when the left key is strictly greater. */
  function Step<T>(s: seq<T>, key: T -> int, j: int): (r: seq<T>)
    requires 0 <= j < |s| - 1
    ensures multiset(r) == multiset(s) && Stable(s, r, key)
    ensures |r| == |s| && forall k | 0 <= k < |s| && k != j && k != j + 1 :: r[k] == s[k]
  {
    if key(s[j]) > key(s[j + 1]) then
      NeighbourSwapStable(s, j, key);
      Swap(s, j, j + 1)
    else s
  }

  lemma StepBubbles<T>(s: seq<T>, key: T -> int, i: int, j: int)
    requires 0 <= i && 0 <= j < |s| - i - 1 && Bubbling(s, key, i, j)
    ensures Bubbling(Step(s, key, j), key, i, j + 1)
  {
  }

  /** One pass, the inner loop for `j` from 0 while `j < n - i - 1`. Before the pass the
      last `i` cells are sorted and no smaller than anything before them; after it the last
      `i + 1` are. */
  method Pass<T>(a: seq<T>, key: T -> int, i: int) returns (s: seq<T>)
    requires 0 <= i < |a| - 1
    requires SortedIn(a, key, |a| - i, |a|) && Below(a, key, 0, |a| - i, |a|)
    ensures |s| == |a| && SortedIn(s, key, |s| - i - 1, |s|) && Below(s, key, 0, |s| - i - 1, |s|)
    ensures s[|a| - i..] == a[|a| - i..]
    ensures multiset(s) == multiset(a) && Stable(a, s, key)
  {
    s := a;
    var n := |a|;
    var j := 0;
    while j < n - i - 1
      invariant 0 <= j <= n - i - 1 && |s| == n
      invariant Bubbling(s, key, i, j)
      invariant s[n - i..] == a[n - i..]
      invariant multiset(s) == multiset(a) && Stable(a, s, key)
    {
      StepBubbles(s, key, i, j);
      s := Step(s, key, j);
      j := j + 1;
    }
    PassEnds(s, a, key, i);
  }

  lemma PassEnds<T>(s: seq<T>, a: seq<T>, key: T -> int, i: int)
    requires 0 <= i < |a| - 1 && |s| == |a| && Bubbling(s, key, i, |a| - i - 1)
    requires SortedIn(a, key, |a| - i, |a|) && s[|a| - i..] == a[|a| - i..]
    ensures SortedIn(s, key, |s| - i - 1, |s|) && Below(s, key, 0, |s| - i - 1, |s|)
  {
    var n := |a|;
    assert forall k | n - i <= k < n :: s[k] == a[k] by {
      forall k | n - i <= k < n ensures s[k] == a[k] {
        assert s[k] == s[n - i..][k - (n - i)];
      }
    }
  }

  /** `sort`: always `n - 1` passes, with no early exit when a pass swaps nothing. The
      result is sorted, a permutation, and stable, since only strictly out-of-order
      neighbours are swapped. */
  method Sort<T>(a: seq<T>, key: T -> int) returns (s: seq<T>)
    ensures Sorted(s, key) && multiset(s) == multiset(a) && Stable(a, s, key)
  {
    s := a;
    var n := |a|;
    var i := 0;
    while i < n - 1
      invariant 0 <= i && (n == 0 || i <= n - 1) && |s| == n
      invariant SortedIn(s, key, n - i, n) && Below(s, key, 0, n - i, n)
      invariant multiset(s) == multiset(a) && Stable(a, s, key)
    {
      s := Pass(s, key, i);
      i := i + 1;
    }
  }
}
