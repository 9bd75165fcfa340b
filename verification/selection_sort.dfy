/** Selection sort: position `i` receives the smallest element of `[i, n)`, by one swap. */
module SelectionSort {
  import opened Sorting

  /** The inner loop: the first index of a smallest key in `[i, n)`, since the candidate
      moves only on a strictly smaller key. */
  method MinIndex<T>(s: seq<T>, key: T -> int, i: int) returns (m: int)
    requires 0 <= i < |s|
    ensures i <= m < |s|
    ensures forall k | i <= k < |s| :: key(s[m]) <= key(s[k])
    ensures forall k | i <= k < m :: key(s[m]) < key(s[k])
  {
    m := i;
    var j := i + 1;
    while j < |s|
      invariant i < j <= |s| && i <= m < j
      invariant forall k | i <= k < j :: key(s[m]) <= key(s[k])
      invariant forall k | i <= k < m :: key(s[m]) < key(s[k])
    {
      if key(s[j]) < key(s[m]) {
        m := j;
      }
      j := j + 1;
    }
  }

  /** `sort`: after the turn for `i`, `[0..i]` is sorted and no key in it exceeds a key
      after it; each turn makes exactly one swap, so the result is a permutation. */
  method Sort<T>(a: seq<T>, key: T -> int) returns (s: seq<T>)
    ensures Sorted(s, key) && multiset(s) == multiset(a)
  {
    s := a;
    var i := 0;
    while i < |s|
      invariant 0 <= i <= |s| == |a|
      invariant SortedIn(s, key, 0, i) && Below(s, key, 0, i, |s|)
      invariant multiset(s) == multiset(a)
    {
      var m := MinIndex(s, key, i);
      s := Swap(s, i, m);
      i := i + 1;
    }
  }
}
