/** Recursive binary search over `list[min..max]`. The elements compare through integer keys,
    as in the sorts: `compareTo(target) == 0` is equality of keys and `< 0` a smaller key. */
module BinarySearch {
  import opened Sorting

  /** Some element of `list[min..max]` compares equal to `target`. */
  ghost predicate Present<T>(target: T, list: seq<T>, key: T -> int, min: int, max: int)
  {
    exists i | min <= i <= max && 0 <= i < |list| :: key(list[i]) == key(target)
  }

  /** `(min + max) / 2`: Java's division truncates, which for the non-negative sum here is
      the floor, so the middle lies inside the range. */
  function Middle(min: int, max: int): (middle: int)
    requires 0 <= min <= max
    ensures min <= middle <= max
  {
    (min + max) / 2
  }

  /** `search(target, min, max, list)`: an empty range answers false; otherwise the middle
      element decides between a hit, the upper half and the lower half. Each call reads only
      indices inside `[min, max]` and narrows the range. A true answer is always a real hit,
      sorted or not. */
  function SearchRange<T>(target: T, min: int, max: int, list: seq<T>, key: T -> int): (r: bool)
    requires 0 <= min && max < |list|
    ensures r ==> Present(target, list, key, min, max)
    ensures min > max ==> !r
    decreases max - min
  {
    if min > max then false
    else
      var middle := Middle(min, max);
      if key(list[middle]) == key(target) then true
      else if key(list[middle]) < key(target) then SearchRange(target, middle + 1, max, list, key)
      else SearchRange(target, min, middle - 1, list, key)
  }

  /** `search(target, list)`: the whole array, `[0, length - 1]`. */
  function Search<T>(target: T, list: seq<T>, key: T -> int): (r: bool)
    ensures r ==> Present(target, list, key, 0, |list| - 1)
    ensures |list| == 0 ==> !r
  {
    SearchRange(target, 0, |list| - 1, list, key)
  }

  /** On a range sorted by key, a target at position `i` of the range is found. */
  lemma {:induction false} SearchRangeComplete<T>(target: T, min: int, max: int, list: seq<T>, key: T -> int, i: int)
    requires 0 <= min <= i <= max < |list| && key(list[i]) == key(target)
    requires SortedIn(list, key, min, max + 1)
    ensures SearchRange(target, min, max, list, key)
    decreases max - min
  {
    var middle := Middle(min, max);
    if key(list[middle]) < key(target) {
      assert i > middle by {
        if i <= middle {
          SortedOrder(list, key, min, max + 1, i, middle);
        }
      }
      SortedNarrow(list, key, min, max + 1, middle + 1, max + 1);
      SearchRangeComplete(target, middle + 1, max, list, key, i);
    } else if key(list[middle]) > key(target) {
      assert i < middle by {
        if i >= middle {
          SortedOrder(list, key, min, max + 1, middle, i);
        }
      }
      SortedNarrow(list, key, min, max + 1, min, middle);
      SearchRangeComplete(target, min, middle - 1, list, key, i);
    }
  }

  lemma SortedNarrow<T>(list: seq<T>, key: T -> int, lo: int, hi: int, lo2: int, hi2: int)
    requires SortedIn(list, key, lo, hi) && lo <= lo2 && hi2 <= hi
    ensures SortedIn(list, key, lo2, hi2)
  {
  }

  /** Within a sorted range a later position never has a smaller key. */
  lemma SortedOrder<T>(list: seq<T>, key: T -> int, lo: int, hi: int, i: int, j: int)
    requires SortedIn(list, key, lo, hi) && lo <= i <= j < hi && 0 <= i && j < |list|
    ensures key(list[i]) <= key(list[j])
  {
  }

  /** On a sorted array the search answers exactly whether some element equals the target. */
  lemma SearchCorrect<T>(target: T, list: seq<T>, key: T -> int)
    requires Sorted(list, key)
    ensures Search(target, list, key) <==> Present(target, list, key, 0, |list| - 1)
  {
    if Present(target, list, key, 0, |list| - 1) {
      var i :| 0 <= i < |list| && key(list[i]) == key(target);
      SearchRangeComplete(target, 0, |list| - 1, list, key, i);
    }
  }

  /** The answer depends only on the cells inside `[min, max]`. */
  lemma {:induction false} SearchRangeLocal<T>(target: T, min: int, max: int, list: seq<T>, other: seq<T>, key: T -> int)
    requires 0 <= min && max < |list| && max < |other|
    requires forall i | min <= i <= max :: list[i] == other[i]
    ensures SearchRange(target, min, max, list, key) == SearchRange(target, min, max, other, key)
    decreases max - min
  {
    if min <= max {
      var middle := Middle(min, max);
      SearchRangeLocal(target, middle + 1, max, list, other, key);
      SearchRangeLocal(target, min, middle - 1, list, other, key);
    }
  }

  function Identity(x: int): int { x }

  /** Unsorted input defeats the search: in `{4, 3, 2, 5, 8, 1}` the probes are 2, 8 and 5,
      so 4 is not found although it is the first element. */
  lemma UnsortedMisses(list: seq<int>)
    requires list == [4, 3, 2, 5, 8, 1]
    ensures Present(4, list, Identity, 0, |list| - 1)
    ensures !Search(4, list, Identity)
  {
    assert Identity(list[0]) == 4;
    assert !SearchRange(4, 3, 2, list, Identity);
    assert !SearchRange(4, 3, 3, list, Identity);
    assert !SearchRange(4, 3, 5, list, Identity);
  }
}
