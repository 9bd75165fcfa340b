/** The singly linked list. The chain of nodes from `front` is a sequence; `rear` is the
    position of the node the rear link points at, and `size` is the counter the class keeps
    beside the chain. Both index-taking mutators leave negative indices unchecked, which is
    modelled as written next to the corrected versions. */
module LinkedLists {
  import opened Wrappers
  import ArrayLists

  datatype LinkedList<T> = LinkedList(chain: seq<T>, size: int, rear: int, modCount: int)

  /** Class invariant: the counter is the chain length and the rear link is on the last node
      whenever there is one. */
  predicate Valid<T>(l: LinkedList<T>)
  {
    l.size == |l.chain| && (|l.chain| > 0 ==> l.rear == |l.chain| - 1)
  }

  /** The constructor. */
  function Empty<T>(): LinkedList<T>
  {
    LinkedList([], 0, -1, 0)
  }

  /** The constructor gives a valid list with no nodes. */
  lemma EmptyHoldsNothing<T>(l: LinkedList<T>)
    requires l == Empty()
    ensures Valid(l) && l.chain == [] && IsEmpty(l)
  {
  }

  /** `isEmpty`: whether `front` is null. */
  function IsEmpty<T>(l: LinkedList<T>): bool
  {
    l.chain == []
  }

  /** `add(element)`: a new node becomes the front of an empty list, or is linked after the
      rear node; the rear link moves to it. */
  function Add<T>(l: LinkedList<T>, element: T): (r: LinkedList<T>)
    requires Valid(l)
    ensures Valid(r) && r.chain == l.chain + [element]
    ensures r.modCount == l.modCount + 1
  {
    var chain := if IsEmpty(l) then [element] else l.chain[..l.rear + 1] + [element];
    assert !IsEmpty(l) ==> l.chain[..l.rear + 1] == l.chain;
    LinkedList(chain, l.size + 1, |chain| - 1, l.modCount + 1)
  }

  /** `add(element, index)` as written: an index past the size throws, the size itself
      appends, zero links in front, and a positive index walks to the node before it. A
      negative index walks nowhere and links the node after a scratch node, so the chain is
      unchanged while the counter still grows. */
  function AddAtAsWritten<T>(l: LinkedList<T>, element: T, index: int): (r: Result<LinkedList<T>>)
    requires Valid(l)
    ensures r.Err? <==> index > l.size
    ensures r.Err? ==> r.error == IndexOutOfBounds
    ensures 0 <= index <= l.size ==> r == AddAt(l, element, index)
    ensures index < 0 ==> r.Ok? && r.value.chain == l.chain && r.value.size == l.size + 1
  {
    if index > l.size then Err(IndexOutOfBounds)
    else if index == l.size then Ok(Add(l, element))
    else if index == 0 then Ok(LinkedList([element] + l.chain, l.size + 1, l.rear + 1, l.modCount + 1))
    else if index > 0 then
      Ok(LinkedList(l.chain[..index] + [element] + l.chain[index..], l.size + 1, l.rear + 1, l.modCount + 1))
    else Ok(l.(size := l.size + 1, modCount := l.modCount + 1))
  }

  /** `add(element, index)` with negative indices rejected as out of bounds, as `get` and
      `set` already do. */
  function AddAt<T>(l: LinkedList<T>, element: T, index: int): (r: Result<LinkedList<T>>)
    requires Valid(l)
    ensures r.Err? <==> index < 0 || index > l.size
    ensures r.Err? ==> r.error == IndexOutOfBounds
    ensures r.Ok? ==> Valid(r.value) && r.value.chain == l.chain[..index] + [element] + l.chain[index..]
    ensures r.Ok? ==> r.value.modCount == l.modCount + 1
  {
    if index < 0 || index > l.size then Err(IndexOutOfBounds)
    else if index == l.size then
      assert l.chain[..index] == l.chain && l.chain[index..] == [];
      Ok(Add(l, element))
    else if index == 0 then Ok(LinkedList([element] + l.chain, l.size + 1, l.rear + 1, l.modCount + 1))
    else Ok(LinkedList(l.chain[..index] + [element] + l.chain[index..], l.size + 1, l.rear + 1, l.modCount + 1))
  }

  /** `indexOf`: the position of the first equal element, or -1. */
  function IndexOf<T(==)>(l: LinkedList<T>, target: T): (pos: int)
    ensures -1 <= pos < |l.chain|
    ensures pos == -1 <==> target !in l.chain
    ensures 0 <= pos < |l.chain| ==> l.chain[pos] == target && forall k | 0 <= k < pos :: l.chain[k] != target
  {
    ArrayLists.IndexFrom(l.chain, target, 0)
  }

  /** `contains`: whether `indexOf` finds the target. */
  function Contains<T(==)>(l: LinkedList<T>, target: T): (b: bool)
    ensures b <==> target in l.chain
  {
    IndexOf(l, target) >= 0
  }

  /** `remove(element)`: unlinks the first equal node. A one-element list loses both links,
      the front node moves the front link, the rear node moves the rear link back to the
      node before it, and any other node is bypassed. */
  function Remove<T(==)>(l: LinkedList<T>, element: T): (r: Result<(T, LinkedList<T>)>)
    requires Valid(l)
    ensures r.Err? <==> l.chain == [] || element !in l.chain
    ensures l.chain == [] ==> r == Err(EmptyCollection)
    ensures l.chain != [] && element !in l.chain ==> r == Err(ElementNotFound)
    ensures r.Ok? ==> r.value.0 == element && Valid(r.value.1)
    ensures r.Ok? ==> r.value.1.chain == l.chain[..IndexOf(l, element)] + l.chain[IndexOf(l, element) + 1..]
    ensures r.Ok? ==> r.value.1.modCount == l.modCount + 1
  {
    if IsEmpty(l) then Err(EmptyCollection)
    else
      var p := IndexOf(l, element);
      if p < 0 then Err(ElementNotFound)
      else if l.size == 1 then Ok((l.chain[p], LinkedList([], 0, -1, l.modCount + 1)))
      else if p == 0 then Ok((l.chain[p], LinkedList(l.chain[1..], l.size - 1, l.rear - 1, l.modCount + 1)))
      else if p == l.rear then Ok((l.chain[p], LinkedList(l.chain[..p], l.size - 1, p - 1, l.modCount + 1)))
      else Ok((l.chain[p], LinkedList(l.chain[..p] + l.chain[p + 1..], l.size - 1, l.rear - 1, l.modCount + 1)))
  }

  /** `removeAt(index)` as written: an empty list and an index at or past the size throw.
      The counter drops before the walk; a negative index walks nowhere, returns the front
      element and unlinks nothing. */
  function RemoveAtAsWritten<T>(l: LinkedList<T>, index: int): (r: Result<(T, LinkedList<T>)>)
    requires Valid(l)
    ensures r.Err? <==> l.chain == [] || index >= l.size
    ensures 0 <= index ==> r == RemoveAt(l, index)
    ensures index < 0 && l.chain != [] ==>
      r.Ok? && r.value.0 == l.chain[0] && r.value.1.chain == l.chain && r.value.1.size == l.size - 1
  {
    if IsEmpty(l) then Err(EmptyCollection)
    else if index >= l.size then Err(IndexOutOfBounds)
    else if index == 0 then Ok((l.chain[0], LinkedList(l.chain[1..], l.size - 1, l.rear - 1, l.modCount + 1)))
    else if index > 0 then
      if index == l.size - 1 then Ok((l.chain[index], LinkedList(l.chain[..index], l.size - 1, index - 1, l.modCount + 1)))
      else Ok((l.chain[index], LinkedList(l.chain[..index] + l.chain[index + 1..], l.size - 1, l.rear - 1, l.modCount + 1)))
    else Ok((l.chain[0], l.(size := l.size - 1, modCount := l.modCount + 1)))
  }

  /** `removeAt(index)` with negative indices rejected as out of bounds. */
  function RemoveAt<T>(l: LinkedList<T>, index: int): (r: Result<(T, LinkedList<T>)>)
    requires Valid(l)
    ensures r.Err? <==> l.chain == [] || index < 0 || index >= l.size
    ensures l.chain == [] ==> r == Err(EmptyCollection)
    ensures r.Ok? ==> r.value.0 == l.chain[index] && Valid(r.value.1)
    ensures r.Ok? ==> r.value.1.chain == l.chain[..index] + l.chain[index + 1..]
    ensures r.Ok? ==> r.value.1.modCount == l.modCount + 1
  {
    if IsEmpty(l) then Err(EmptyCollection)
    else if index >= l.size || index < 0 then Err(IndexOutOfBounds)
    else if index == 0 then Ok((l.chain[0], LinkedList(l.chain[1..], l.size - 1, l.rear - 1, l.modCount + 1)))
    else if index == l.size - 1 then Ok((l.chain[index], LinkedList(l.chain[..index], l.size - 1, index - 1, l.modCount + 1)))
    else Ok((l.chain[index], LinkedList(l.chain[..index] + l.chain[index + 1..], l.size - 1, l.rear - 1, l.modCount + 1)))
  }

  /** The nodes a walk from `front` still has ahead of it after `steps` calls of `getNext`, as
      the loops of `get` and `set` step. */
  function Walk<T>(chain: seq<T>, steps: nat): (rest: seq<T>)
    requires steps <= |chain|
    ensures rest == chain[steps..]
  {
    if steps == 0 then chain else Walk(chain[1..], steps - 1)
  }

  /** `get(index)`: walks `index` nodes from the front and returns the element of the node it
      reaches. */
  function Get<T>(l: LinkedList<T>, index: int): (r: Result<T>)
    requires Valid(l)
    ensures r.Err? <==> index < 0 || index >= |l.chain|
    ensures r.Err? ==> r.error == IndexOutOfBounds
    ensures r.Ok? ==> r.value == l.chain[index]
  {
    if index < 0 || index >= l.size then Err(IndexOutOfBounds) else Ok(Walk(l.chain, index)[0])
  }

  /** `set(element, index)`: walks to the node at the index and overwrites its element; the
      links, the counter and the modification count are not touched. */
  function Set<T>(l: LinkedList<T>, element: T, index: int): (r: Result<LinkedList<T>>)
    requires Valid(l)
    ensures r.Err? <==> index < 0 || index >= |l.chain|
    ensures r.Err? ==> r.error == IndexOutOfBounds
    ensures r.Ok? ==> r.value.chain == l.chain[index := element]
    ensures r.Ok? ==> Valid(r.value) && r.value.modCount == l.modCount && |r.value.chain| == |l.chain|
  {
    if index < 0 || index >= l.size then Err(IndexOutOfBounds)
    else
      var chain := l.chain[..index] + [element] + Walk(l.chain, index)[1..];
      assert chain == l.chain[index := element];
      Ok(l.(chain := chain))
  }

  // ---------------------------------------------------------------------------
  // How the operations fit together

  /** What `set` writes, `get` reads back, and no other position changes. */
  lemma SetThenGet<T>(l: LinkedList<T>, element: T, index: int, j: int)
    requires Valid(l) && Set(l, element, index).Ok?
    ensures j == index ==> Get(Set(l, element, index).value, j) == Ok(element)
    ensures j != index ==> Get(Set(l, element, index).value, j) == Get(l, j)
  {
  }

  /** An element inserted at a position is read back there, and removing it again restores
      the chain it was inserted into. */
  lemma AddAtThenRemoveAt<T>(l: LinkedList<T>, element: T, index: int)
    requires Valid(l) && 0 <= index <= l.size
    ensures Get(AddAt(l, element, index).value, index) == Ok(element)
    ensures RemoveAt(AddAt(l, element, index).value, index).Ok?
    ensures RemoveAt(AddAt(l, element, index).value, index).value.0 == element
    ensures RemoveAt(AddAt(l, element, index).value, index).value.1.chain == l.chain
  {
    var c := AddAt(l, element, index).value.chain;
    assert c[..index] == l.chain[..index] && c[index + 1..] == l.chain[index..];
    assert l.chain[..index] + l.chain[index..] == l.chain;
  }

  /** `remove(element)` is `removeAt` at the position `indexOf` reports. */
  lemma RemoveIsRemoveAtIndexOf<T>(l: LinkedList<T>, element: T)
    requires Valid(l) && element in l.chain
    ensures Remove(l, element) == RemoveAt(l, IndexOf(l, element))
  {
  }

  /** Appending and then reading the last position gives the element back. */
  lemma AddThenGetLast<T>(l: LinkedList<T>, element: T)
    requires Valid(l)
    ensures Get(Add(l, element), l.size) == Ok(element)
  {
  }

  /** With a negative index, `add` as written grows the counter but not the chain, which
      breaks the class invariant; the corrected `add` refuses the index. */
  lemma AddAtNegativeBreaksSize<T>(l: LinkedList<T>, element: T)
    requires Valid(l)
    ensures AddAtAsWritten(l, element, -1).Ok? && !Valid(AddAtAsWritten(l, element, -1).value)
    ensures AddAt(l, element, -1) == Err(IndexOutOfBounds)
  {
  }

  /** With a negative index, `removeAt` as written reports the front element as removed and
      shrinks the counter, but the chain keeps it; the corrected `removeAt` refuses the
      index. */
  lemma RemoveAtNegativeKeepsElement<T>(l: LinkedList<T>)
    requires Valid(l) && l.chain != []
    ensures RemoveAtAsWritten(l, -1).Ok? && !Valid(RemoveAtAsWritten(l, -1).value.1)
    ensures l.chain[0] in RemoveAtAsWritten(l, -1).value.1.chain
    ensures RemoveAt(l, -1) == Err(IndexOutOfBounds)
  {
  }
}
