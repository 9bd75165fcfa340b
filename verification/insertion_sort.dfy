/** Insertion sort: each element in turn is carried left by neighbour swaps past every
    larger element before it. */
module InsertionSort {
  import opened Sorting

  /** The inner loop's invariant while element `i` is being carried left and now sits at
      `j`: `[0, j)` and `[j, i]` are sorted, and everything left of `j` is at most
      everything right of it. */
  ghost predicate Carrying<T>(s: seq<T>, key: T -> int, i: int, j: int)
  {
    && SortedIn(s, key, 0, j) && SortedIn(s, key, j, i + 1)
    && forall p, q | 0 <= p < j < q <= i && q < |s| :: key(s[p]) <= key(s[q])
  }

  /** The body of the inner loop: a swap when the right key is strictly smaller. */
  function Step<T>(s: seq<T>, key: T -> int, j: int): (r: seq<T>)
    requires 0 < j < |s|
    ensures multiset(r) == multiset(s) && Stable(s, r, key)
    ensures |r| == |s| && forall k | 0 <= k < |s| && k != j && k != j - 1 :: r[k] == s[k]
  {
    if key(s[j]) < key(s[j - 1]) then
      NeighbourSwapStable(s, j - 1, key);
      Swap(s, j, j - 1)
    else s
  }

  lemma StepCarries<T>(s: seq<T>, key: T -> int, i: int, j: int)
    requires 0 < j <= i < |s| && Carrying(s, key, i, j)
    ensures Carrying(Step(s, key, j), key, i, j - 1)
  {
  }

  /** One turn of the outer loop: the inner loop walks `j` from `i` down to 1. There is
      no early exit, and nothing after `i` is touched. */
  method Insert<T>(a: seq<T>, key: T -> int, i: int) returns (s: seq<T>)
    requires 1 <= i < |a| && SortedIn(a, key, 0, i)
    ensures |s| == |a| && SortedIn(s, key, 0, i + 1)
    ensures s[i + 1..] == a[i + 1..]
    ensures multiset(s) == multiset(a) && Stable(a, s, key)
  {
    s := a;
    var j := i;
    while j > 0
      invariant 0 <= j <= i && |s| == |a|
      invariant Carrying(s, key, i, j)
      invariant s[i + 1..] == a[i + 1..]
      invariant multiset(s) == multiset(a) && Stable(a, s, key)
    {
      StepCarries(s, key, i, j);
      s := Step(s, key, j);
      j := j - 1;
    }
  }

  /** `sort`: after the turn for `i` the prefix `[0..i]` is sorted, so the whole array is
      sorted at the end, a permutation of the input, and equal keys keep their order,
      because only strictly smaller elements are swapped left. */
  method Sort<T>(a: seq<T>, key: T -> int) returns (s: seq<T>)
    ensures Sorted(s, key) && multiset(s) == multiset(a) && Stable(a, s, key)
  {
    s := a;
    var i := 1;
    while i < |s|
      invariant 1 <= i && |s| == |a|
      invariant SortedIn(s, key, 0, i)
      invariant multiset(s) == multiset(a) && Stable(a, s, key)
    {
      s := Insert(s, key, i);
      i := i + 1;
    }
  }
}
