/** The resizable array list: a backing array of nullable slots, a size and a modification
    count. The list it stands for is the filled prefix `list[..size]`. */
module ArrayLists {
  import opened Wrappers

  const DefaultCapacity: int := 10

  datatype ArrayList<T> = ArrayList(list: seq<Option<T>>, size: int, modCount: int)

  /** Class invariant: `size` counts the filled prefix of the backing array. */
  predicate Valid<T>(l: ArrayList<T>)
  {
    0 <= l.size <= |l.list| && forall i | 0 <= i < l.size :: l.list[i].Some?
  }

  function Unwrap<T>(s: seq<Option<T>>): (r: seq<T>)
    requires forall i | 0 <= i < |s| :: s[i].Some?
    ensures |r| == |s| && forall i | 0 <= i < |s| :: r[i] == s[i].value
  {
    if s == [] then [] else [s[0].value] + Unwrap(s[1..])
  }

  /** The list an array list stands for. */
  function Contents<T>(l: ArrayList<T>): seq<T>
    requires Valid(l)
  {
    Unwrap(l.list[..l.size])
  }

  /** The capacity constructor; a negative capacity is refused. */
  function New<T>(initialCapacity: int): Result<ArrayList<T>>
  {
    if initialCapacity < 0 then Err(IllegalArgument)
    else Ok(ArrayList(seq(initialCapacity, _ => None), 0, 0))
  }

  /** A negative capacity is refused; any other gives an empty list of exactly that capacity. */
  lemma NewChecksCapacity<T>(initialCapacity: int, r: Result<ArrayList<T>>)
    requires r == New(initialCapacity)
    ensures r.Err? <==> initialCapacity < 0
    ensures r.Err? ==> r.error == IllegalArgument
    ensures r.Ok? ==> Valid(r.value) && Contents(r.value) == [] && |r.value.list| == initialCapacity
  {
  }

  /** The default constructor: an empty list of capacity ten. */
  function Empty<T>(): ArrayList<T>
  {
    New(DefaultCapacity).value
  }

  /** The default constructor gives an empty list of capacity ten. */
  lemma EmptyHoldsNothing<T>(l: ArrayList<T>)
    requires l == Empty()
    ensures Valid(l) && Contents(l) == [] && |l.list| == DefaultCapacity
  {
  }

  /** Doubles the backing array; every slot keeps its index. */
  function ExpandCapacity<T>(l: ArrayList<T>): (r: ArrayList<T>)
    ensures |r.list| == 2 * |l.list| && r.list[..|l.list|] == l.list
    ensures forall i | |l.list| <= i < |r.list| :: r.list[i].None?
    ensures Valid(l) ==> Valid(r) && Contents(r) == Contents(l)
  {
    var r := l.(list := l.list + seq(|l.list|, _ => None));
    assert Valid(l) ==> r.list[..r.size] == l.list[..l.size] by {
      if Valid(l) {
        assert r.list[..|l.list|] == l.list;
      }
    }
    r
  }

  /** `System.arraycopy` inside one array: it throws on a negative offset or length and on a
      range past either end; otherwise it copies as if the source range were set aside first. */
  function ArrayCopy<T>(a: seq<T>, src: int, dst: int, len: int): (r: Result<seq<T>>)
    ensures r.Err? <==> src < 0 || dst < 0 || len < 0 || src + len > |a| || dst + len > |a|
    ensures r.Ok? ==> |r.value| == |a|
    ensures r.Ok? ==> forall i | 0 <= i < |a| && !(dst <= i < dst + len) :: r.value[i] == a[i]
    ensures r.Ok? ==> forall i | dst <= i < dst + len :: r.value[i] == a[src + i - dst]
  {
    if src < 0 || dst < 0 || len < 0 || src + len > |a| || dst + len > |a| then Err(IndexOutOfBounds)
    else Ok(seq(|a|, i requires 0 <= i < |a| => if dst <= i < dst + len then a[src + i - dst] else a[i]))
  }

  /** `add(element, index)`: inserts at `index`, shifting the tail one place right. An index
      outside `[0, size]` throws, and so does a list of capacity zero, which doubling cannot
      grow. */
  function Insert<T>(l: ArrayList<T>, element: T, index: int): (r: Result<ArrayList<T>>)
    requires Valid(l)
    ensures r.Err? <==> index < 0 || index > l.size || |l.list| == 0
    ensures r.Err? ==> r.error == IndexOutOfBounds
    ensures r.Ok? ==> Valid(r.value)
    ensures r.Ok? ==> Contents(r.value) == Contents(l)[..index] + [element] + Contents(l)[index..]
    ensures r.Ok? ==> r.value.size == l.size + 1 && r.value.modCount == l.modCount + 1
    ensures r.Ok? ==> |r.value.list| == if l.size < |l.list| then |l.list| else 2 * |l.list|
  {
    if index > l.size || index < 0 then Err(IndexOutOfBounds)
    else
      var l1 := if l.size >= |l.list| then ExpandCapacity(l) else l;
      if index == l.size then
        if l.size < |l1.list| then
          var r := ArrayList(l1.list[l.size := Some(element)], l.size + 1, l.modCount + 1);
          AppendContents(l, l1, r, element);
          Ok(r)
        else Err(IndexOutOfBounds)
      else Ok(ShiftInsert(l, l1.list, element, index))
  }

  /** The shifting branch of `add(element, index)`: in an array with room past the filled
      prefix, `arraycopy` moves the tail one place right and the element fills the gap. */
  function ShiftInsert<T>(l: ArrayList<T>, a: seq<Option<T>>, element: T, index: int): (r: ArrayList<T>)
    requires Valid(l) && 0 <= index < l.size < |a| && a[..l.size] == l.list[..l.size]
    ensures Valid(r) && |r.list| == |a| && r.size == l.size + 1 && r.modCount == l.modCount + 1
    ensures Contents(r) == Contents(l)[..index] + [element] + Contents(l)[index..]
  {
    var moved := ArrayCopy(a, index, index + 1, l.size - index).value;
    var r := ArrayList(moved[index := Some(element)], l.size + 1, l.modCount + 1);
    InsertContents(l, a, moved, r, element, index);
    r
  }

  lemma AppendContents<T>(l: ArrayList<T>, l1: ArrayList<T>, r: ArrayList<T>, element: T)
    requires Valid(l) && l1.size == l.size && l.size < |l1.list| && l1.list[..l.size] == l.list[..l.size]
    requires r == ArrayList(l1.list[l.size := Some(element)], l.size + 1, l.modCount + 1)
    ensures Valid(r) && Contents(r) == Contents(l) + [element]
  {
    assert forall i | 0 <= i < l.size :: r.list[i] == l.list[i] by {
      forall i | 0 <= i < l.size ensures r.list[i] == l.list[i] {
        assert l1.list[i] == l1.list[..l.size][i];
      }
    }
    assert Contents(r) == Contents(l) + [element];
  }

  lemma InsertContents<T>(l: ArrayList<T>, a: seq<Option<T>>, moved: seq<Option<T>>, r: ArrayList<T>,
                          element: T, index: int)
    requires Valid(l) && 0 <= index < l.size < |a| && a[..l.size] == l.list[..l.size]
    requires |moved| == |a|
    requires forall i | 0 <= i < |a| && !(index + 1 <= i < l.size + 1) :: moved[i] == a[i]
    requires forall i | index + 1 <= i < l.size + 1 :: moved[i] == a[i - 1]
    requires r == ArrayList(moved[index := Some(element)], l.size + 1, l.modCount + 1)
    ensures Valid(r)
    ensures Contents(r) == Contents(l)[..index] + [element] + Contents(l)[index..]
  {
    forall i | 0 <= i < l.size ensures a[i] == l.list[i] {
      assert a[i] == a[..l.size][i];
    }
    var c := Contents(l);
    var e := c[..index] + [element] + c[index..];
    assert Valid(r);
    forall i | 0 <= i < |e| ensures Contents(r)[i] == e[i] {
      if i < index {
      } else if i == index {
      } else {
        assert e[i] == c[i - 1];
      }
    }
  }

  /** `add(element)`: appends. */
  function Add<T>(l: ArrayList<T>, element: T): (r: Result<ArrayList<T>>)
    requires Valid(l)
    ensures r.Err? <==> |l.list| == 0
    ensures r.Ok? ==> Valid(r.value) && Contents(r.value) == Contents(l) + [element]
    ensures r.Ok? ==> |r.value.list| == if l.size < |l.list| then |l.list| else 2 * |l.list|
  {
    var r := Insert(l, element, l.size);
    assert r.Ok? ==> Contents(l)[..l.size] == Contents(l);
    r
  }

  /** `removeAt(index)` as written: after shifting the tail left it clears slot `size` rather
      than slot `size - 1`, so a full list throws after it has already shifted. An index equal
      to `size` passes the guard and fails inside `System.arraycopy`. */
  function RemoveAtAsWritten<T>(l: ArrayList<T>, index: int): (r: Result<(T, ArrayList<T>)>)
    requires Valid(l)
    ensures r.Err? <==> l.size == 0 || index < 0 || index >= l.size || l.size == |l.list|
    ensures l.size == 0 ==> r == Err(EmptyCollection)
    ensures r.Ok? ==> r.value.0 == Contents(l)[index] && Valid(r.value.1)
    ensures r.Ok? ==> Contents(r.value.1) == Contents(l)[..index] + Contents(l)[index + 1..]
    ensures r.Ok? ==> |r.value.1.list| == |l.list|
  {
    if l.size == 0 then Err(EmptyCollection)
    else if index > l.size || index < 0 then Err(IndexOutOfBounds)
    else if index >= |l.list| then Err(IndexOutOfBounds)
    else
      match ArrayCopy(l.list, index + 1, index, l.size - index - 1)
      case Err(e) => Err(e)
      case Ok(moved) =>
        if l.size >= |moved| then Err(IndexOutOfBounds)
        else
          var r := ArrayList(moved[l.size := None], l.size - 1, l.modCount + 1);
          assert Contents(r) == Contents(l)[..index] + Contents(l)[index + 1..];
          Ok((l.list[index].value, r))
  }

  /** `removeAt(index)` as evidently intended: the vacated last slot `size - 1` is cleared. */
  function RemoveAt<T>(l: ArrayList<T>, index: int): (r: Result<(T, ArrayList<T>)>)
    requires Valid(l)
    ensures r.Err? <==> l.size == 0 || index < 0 || index >= l.size
    ensures l.size == 0 ==> r == Err(EmptyCollection)
    ensures r.Ok? ==> r.value.0 == Contents(l)[index] && Valid(r.value.1)
    ensures r.Ok? ==> Contents(r.value.1) == Contents(l)[..index] + Contents(l)[index + 1..]
    ensures r.Ok? ==> r.value.1.size == l.size - 1 && |r.value.1.list| == |l.list|
    ensures r.Ok? ==> r.value.1.list[r.value.1.size].None?
  {
    if l.size == 0 then Err(EmptyCollection)
    else if index > l.size || index < 0 then Err(IndexOutOfBounds)
    else if index >= |l.list| then Err(IndexOutOfBounds)
    else
      match ArrayCopy(l.list, index + 1, index, l.size - index - 1)
      case Err(e) => Err(e)
      case Ok(moved) =>
        var r := ArrayList(moved[l.size - 1 := None], l.size - 1, l.modCount + 1);
        assert Contents(r) == Contents(l)[..index] + Contents(l)[index + 1..];
        Ok((l.list[index].value, r))
  }

  /** `indexOf`: the first position holding an equal element, or -1. */
  function IndexOf<T(==)>(l: ArrayList<T>, target: T): (pos: int)
    requires Valid(l)
    ensures -1 <= pos < l.size
    ensures pos == -1 <==> target !in Contents(l)
    ensures 0 <= pos < l.size ==> Contents(l)[pos] == target && forall k | 0 <= k < pos :: Contents(l)[k] != target
  {
    IndexFrom(Contents(l), target, 0)
  }

  function IndexFrom<T(==)>(s: seq<T>, target: T, i: nat): (r: int)
    requires i <= |s| && forall k | 0 <= k < i :: s[k] != target
    ensures -1 <= r < |s|
    ensures r == -1 <==> target !in s
    ensures 0 <= r < |s| ==> s[r] == target && forall k | 0 <= k < r :: s[k] != target
    decreases |s| - i
  {
    if i == |s| then -1
    else if s[i] == target then i
    else IndexFrom(s, target, i + 1)
  }

  function Contains<T(==)>(l: ArrayList<T>, target: T): (b: bool)
    requires Valid(l)
    ensures b <==> target in Contents(l)
  {
    IndexOf(l, target) >= 0
  }

  /** `remove(element)`: removes the first equal element. An absent element makes the index
      -1, which `removeAt` rejects as out of bounds. */
  function Remove<T(==)>(l: ArrayList<T>, element: T): (r: Result<(T, ArrayList<T>)>)
    requires Valid(l)
    ensures l.size == 0 ==> r == Err(EmptyCollection)
    ensures l.size > 0 && element !in Contents(l) ==> r == Err(IndexOutOfBounds)
    ensures r.Ok? <==> element in Contents(l)
    ensures r.Ok? ==> r.value.0 == element && Valid(r.value.1)
    ensures r.Ok? ==> Contents(r.value.1) == Contents(l)[..IndexOf(l, element)] + Contents(l)[IndexOf(l, element) + 1..]
  {
    RemoveAt(l, IndexOf(l, element))
  }

  /** `remove(element)` as written: it calls the as-written `removeAt`, so on a full list it
      throws even when the element is there. */
  function RemoveAsWritten<T(==)>(l: ArrayList<T>, element: T): (r: Result<(T, ArrayList<T>)>)
    requires Valid(l)
    ensures l.size == 0 ==> r == Err(EmptyCollection)
    ensures r.Ok? <==> element in Contents(l) && l.size < |l.list|
    ensures r.Ok? ==> Remove(l, element).Ok? && r.value.0 == Remove(l, element).value.0
    ensures r.Ok? ==> Valid(r.value.1) && Contents(r.value.1) == Contents(Remove(l, element).value.1)
  {
    RemoveAtAsWritten(l, IndexOf(l, element))
  }

  /** On a full list holding the element, `remove` as written throws where the corrected one
      removes it. */
  lemma RemoveOnFullList<T>(l: ArrayList<T>, element: T)
    requires Valid(l) && l.size == |l.list| && element in Contents(l)
    ensures RemoveAsWritten(l, element) == Err(IndexOutOfBounds)
    ensures Remove(l, element).Ok? && Remove(l, element).value.0 == element
  {
  }

  /** `get(index)`: the guard lets `index == size` through, which reads the slot just past the
      list, or throws when that slot is past the array. */
  function Get<T>(l: ArrayList<T>, index: int): (r: Result<Option<T>>)
    requires Valid(l)
    ensures r.Err? <==> index < 0 || index > l.size || index >= |l.list|
    ensures 0 <= index < l.size ==> r == Ok(Some(Contents(l)[index]))
    ensures index == l.size < |l.list| ==> r == Ok(l.list[l.size])
  {
    if index > l.size || index < 0 then Err(IndexOutOfBounds)
    else if index >= |l.list| then Err(IndexOutOfBounds)
    else Ok(l.list[index])
  }

  /** `set(element, index)`: the same guard; writing at `index == size` changes no element of
      the list. The modification count is not touched. */
  function Set<T>(l: ArrayList<T>, element: T, index: int): (r: Result<ArrayList<T>>)
    requires Valid(l)
    ensures r.Err? <==> index < 0 || index > l.size || index >= |l.list|
    ensures r.Ok? ==> Valid(r.value) && r.value.size == l.size && r.value.modCount == l.modCount
    ensures r.Ok? && index < l.size ==> Contents(r.value) == Contents(l)[index := element]
    ensures r.Ok? && index == l.size ==> Contents(r.value) == Contents(l)
  {
    if index > l.size || index < 0 then Err(IndexOutOfBounds)
    else if index >= |l.list| then Err(IndexOutOfBounds)
    else
      var r := l.(list := l.list[index := Some(element)]);
      assert index == l.size ==> r.list[..r.size] == l.list[..l.size];
      assert index < l.size ==> Contents(r) == Contents(l)[index := element];
      Ok(r)
  }

  function IsEmpty<T>(l: ArrayList<T>): (b: bool)
    requires Valid(l)
    ensures b <==> Contents(l) == []
  {
    l.size == 0
  }

  // ---------------------------------------------------------------------------
  // The fail-fast iterator

  datatype ListIterator = ListIterator(expectedModCount: int, next: nat)

  function Iterator<T>(l: ArrayList<T>): ListIterator
  {
    ListIterator(l.modCount, 0)
  }

  /** `hasNext`: throws once the list has been modified since the iterator was made. */
  function HasNext<T>(l: ArrayList<T>, it: ListIterator): (r: Result<bool>)
    ensures r.Err? <==> it.expectedModCount != l.modCount
    ensures r.Err? ==> r.error == ConcurrentModification
  {
    if it.expectedModCount != l.modCount then Err(ConcurrentModification)
    else Ok(it.next < l.size)
  }

  function Next<T>(l: ArrayList<T>, it: ListIterator): (r: Result<(T, ListIterator)>)
    requires Valid(l)
    ensures r.Ok? ==> it.next < l.size && r.value.0 == Contents(l)[it.next]
    ensures r.Ok? ==> r.value.1 == it.(next := it.next + 1)
    ensures it.expectedModCount == l.modCount && it.next >= l.size ==> r == Err(NoSuchElement)
  {
    match HasNext(l, it)
    case Err(e) => Err(e)
    case Ok(more) =>
      if !more then Err(NoSuchElement)
      else Ok((l.list[it.next].value, it.(next := it.next + 1)))
  }

  /** Everything an iterator still delivers, calling `next` until `hasNext` says no. */
  function Drain<T>(l: ArrayList<T>, it: ListIterator): Result<seq<T>>
    requires Valid(l)
    decreases l.size - it.next
  {
    match HasNext(l, it)
    case Err(e) => Err(e)
    case Ok(more) =>
      if !more then Ok([])
      else
        match Next(l, it)
        case Err(e) => Err(e)
        case Ok((x, itNext)) =>
          match Drain(l, itNext)
          case Err(e) => Err(e)
          case Ok(rest) => Ok([x] + rest)
  }

  /** An iterator over an unmodified list yields the list in order. */
  lemma {:induction false} DrainYieldsContents<T>(l: ArrayList<T>, it: ListIterator)
    requires Valid(l) && it.expectedModCount == l.modCount && it.next <= l.size
    ensures Drain(l, it) == Ok(Contents(l)[it.next..])
    decreases l.size - it.next
  {
    if it.next < l.size {
      DrainYieldsContents(l, it.(next := it.next + 1));
      assert Contents(l)[it.next..] == [Contents(l)[it.next]] + Contents(l)[it.next + 1..];
    }
  }

  /** Every successful insertion or removal bumps the count, so an older iterator throws. */
  lemma ModifiedListFailsFast<T>(l: ArrayList<T>, it: ListIterator, x: T, i: int)
    requires Valid(l) && it == Iterator(l)
    ensures Insert(l, x, i).Ok? ==> HasNext(Insert(l, x, i).value, it) == Err(ConcurrentModification)
    ensures RemoveAt(l, i).Ok? ==> HasNext(RemoveAt(l, i).value.1, it) == Err(ConcurrentModification)
  {
  }

  // ---------------------------------------------------------------------------
  // The slot `removeAt` clears

  /** Appends every element in order. */
  function AddAll<T>(l: ArrayList<T>, xs: seq<T>): (r: Result<ArrayList<T>>)
    requires Valid(l)
    ensures r.Ok? ==> Valid(r.value) && Contents(r.value) == Contents(l) + xs
    decreases |xs|
  {
    if xs == [] then Ok(l)
    else
      match Add(l, xs[0])
      case Err(e) => Err(e)
      case Ok(l1) =>
        var r := AddAll(l1, xs[1..]);
        assert r.Ok? ==> Contents(l) + xs == Contents(l) + [xs[0]] + xs[1..];
        r
  }

  /** Filling a default list to its capacity leaves it full without growing it. */
  lemma {:induction false} AddAllKeepsCapacity<T>(l: ArrayList<T>, xs: seq<T>)
    requires Valid(l) && |l.list| > 0 && l.size + |xs| <= |l.list|
    ensures AddAll(l, xs).Ok?
    ensures AddAll(l, xs).value.size == l.size + |xs| && |AddAll(l, xs).value.list| == |l.list|
    decreases |xs|
  {
    if xs != [] {
      var l1 := Add(l, xs[0]).value;
      AddAllKeepsCapacity(l1, xs[1..]);
    }
  }

  /** The as-written `removeAt` throws on any full list, where the corrected one succeeds:
      ten appends to a default list, then `removeAt(0)`. */
  lemma RemoveAtOnFullList<T>(xs: seq<T>)
    requires |xs| == DefaultCapacity
    ensures AddAll(Empty(), xs).Ok?
    ensures AddAll(Empty(), xs).Ok? && RemoveAtAsWritten(AddAll(Empty(), xs).value, 0) == Err(IndexOutOfBounds)
    ensures AddAll(Empty(), xs).Ok? && RemoveAt(AddAll(Empty(), xs).value, 0).Ok?
  {
    EmptyHoldsNothing(Empty<T>());
    AddAllKeepsCapacity(Empty(), xs);
  }
}
