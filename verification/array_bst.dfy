/** `ArrayBinarySearchTree`: the array tree of `ArrayTrees` kept in search-tree order, with the
    two extra fields `height` and `maxIndex`. `maxIndex` bounds the occupied slots from above
    (`remove` recomputes it exactly, `removeMin` and `removeMax` leave it alone) and `height` is
    the level count the removals use to bound their level-order walks. Elements are integers
    compared with `<`; the source's `compareTo` and `equals` are this order and equality. */
module ArrayBsts {
  import opened Wrappers
  import opened HeapIndex
  import opened Trees
  import opened ArrayTrees
  import opened BstReplace

  datatype ArrayBst = ArrayBst(base: ArrayBinaryTree<int>, height: int, maxIndex: int)

  /** The search tree the array stands for. */
  function AsTree(b: ArrayBst): Tree<int>
  {
    Abs(b.base.tree, 0)
  }

  /** `(int) (Math.log(maxIndex + 1) / Math.log(2)) + 1` of `insert` and `remove`, read as an exact
      floor of the base-two logarithm. For an empty tree (maxIndex -1) the logarithm is minus
      infinity, which the cast turns into the least int, so the height is -2147483647. */
  function HeightOf(maxIndex: int): (h: int)
    ensures maxIndex >= 0 ==> h >= 1 && maxIndex <= LevelBound(h)
  {
    if maxIndex < 0 then -2147483647
    else
      FloorLog2Bounds(maxIndex + 1);
      FloorLog2(maxIndex + 1) + 1
  }

  /** What every constructor establishes and every operation keeps: an even, non-empty array
      (fifty slots, doubled on demand); every element reachable from the root; nothing above
      `maxIndex`, which stays two below the length; the level bound of `height` covering
      `maxIndex`; search-tree order; and `count` the number of elements. */
  predicate Valid(b: ArrayBst)
  {
    var a := b.base.tree;
    |a| > 0 && |a| % 2 == 0 && -1 <= b.maxIndex
    && ReplaceReady(a, b.maxIndex, LevelBound(b.height))
    && IsBst(Abs(a, 0)) && b.base.count == Trees.Size(Abs(a, 0))
  }

  lemma ValidIsConsistent(b: ArrayBst)
    requires Valid(b)
    ensures Consistent(b.base)
  {
  }

  // ---------------------------------------------------------------------------
  // Constructors

  /** `ArrayBinarySearchTree()`: an empty tree of fifty slots, height 0, maxIndex -1. */
  function EmptyBst(): (b: ArrayBst)
    ensures Valid(b) && AsTree(b) == Nil && b.base.count == 0
  {
    ArrayBst(ArrayTrees.Empty(), 0, -1)
  }

  /** `ArrayBinarySearchTree(element)`: the element at the root, height 0, maxIndex 0. */
  function SingletonBst(element: int): (b: ArrayBst)
    ensures Valid(b) && AsTree(b) == Node(Nil, element, Nil) && b.base.count == 1
  {
    var t := ArrayTrees.Singleton(element);
    assert NoneAbove(t.tree, 0) by {
      forall p: nat | 0 < p < |t.tree| ensures t.tree[p].None? {
        assert Get(t.tree, p) == t.tree[p];
      }
    }
    ArrayBst(t, 0, 0)
  }

  // ---------------------------------------------------------------------------
  // insert

  /** The tree `insert` works on: doubled when the array is shorter than 2 * maxIndex + 3
      at the start of `insert`. */
  function Prepared(b: ArrayBst): (t: ArrayBinaryTree<int>)
  {
    if |b.base.tree| < b.maxIndex * 2 + 3 then ExpandCapacity(b.base) else b.base
  }

  /** After the doubling there is room for both children of every slot up to maxIndex. */
  lemma PreparedReady(b: ArrayBst)
    requires Valid(b)
    ensures var t := Prepared(b);
      && Occupied(t.tree) && NoneAbove(t.tree, b.maxIndex)
      && |t.tree| >= 2 * b.maxIndex + 4 && |t.tree| % 2 == 0
      && Abs(t.tree, 0) == AsTree(b)
      && t.count == b.base.count && t.modCount == b.base.modCount
  {
    if |b.base.tree| < b.maxIndex * 2 + 3 {
      ExpandKeepsReady(b.base.tree, b.maxIndex);
    }
  }

  /** The state `insert` produces, described without its loop: store the key at the slot the
      insertion walk ends on (the root of an empty tree), raise maxIndex to that slot if it is
      higher (set it to 0 for an empty tree), and recompute the height. */
  function InsertInto(b: ArrayBst, x: int): (r: ArrayBst)
  {
    var t := Prepared(b);
    if t.count == 0 then
      ArrayBst(t.(tree := Put(t.tree, 0, Some(x)), count := t.count + 1), HeightOf(0), 0)
    else
      var s := InsertSlot(t.tree, 0, x);
      var m := if s > b.maxIndex then s else b.maxIndex;
      ArrayBst(t.(tree := Put(t.tree, s, Some(x)), count := t.count + 1), HeightOf(m), m)
  }

  /** Doubling the array keeps the invariants of the array. */
  lemma ExpandKeepsReady(a: seq<Option<int>>, m: int)
    requires Occupied(a) && NoneAbove(a, m)
    ensures Occupied(Expand(a)) && NoneAbove(Expand(a), m)
  {
    ExpandKeepsTree(a, 0);
    var r := Expand(a);
    forall p: nat | m < p < |r| ensures r[p].None? {
      assert Get(r, p) == r[p];
    }
  }

  /** Storing a key at a null slot under an occupied one keeps every element reachable and
      nothing above the new maxIndex. */
  lemma FillKeepsReady(a: seq<Option<int>>, m: int, s: nat, x: int, top: int)
    requires Occupied(a) && NoneAbove(a, m) && s < |a| && (s == 0 || Get(a, Parent(s)).Some?)
    requires s <= top && m <= top
    ensures Occupied(Put(a, s, Some(x))) && NoneAbove(Put(a, s, Some(x)), top)
  {
    var r := Put(a, s, Some(x));
    forall p | 0 < p < |r| && r[p].Some? ensures r[Parent(p)].Some? {
      assert Get(r, p) == r[p] && Get(r, Parent(p)) == r[Parent(p)];
    }
    forall p: nat | top < p < |r| ensures r[p].None? {
      assert Get(r, p) == r[p];
    }
  }

  /** An array with a null root holds nothing. */
  lemma EmptyArray(a: seq<Option<int>>)
    requires Occupied(a) && Get(a, 0).None?
    ensures NoneAbove(a, -1)
  {
    SubtreeEmpty(a, 0);
    forall p: nat | p < |a| ensures a[p].None? {
      InSubRoot(p);
      assert Get(a, p) == a[p];
    }
  }

  /** The insertion slot of a prepared array lies within it, at most two slots past the
      children of maxIndex. */
  lemma InsertSlotInRange(a: seq<Option<int>>, m: int, x: int)
    requires Occupied(a) && NoneAbove(a, m) && -1 <= m && |a| >= 2 * m + 4
    ensures InsertSlot(a, 0, x) <= 2 * m + 2
  {
    var s := InsertSlot(a, 0, x);
    InsertSlotParent(a, 0, x);
    if s > 0 {
      ChildOfParent(s);
    }
  }

  /** Insertion is the reference insertion on the tree, keeps the invariants, counts one more
      element, and leaves the height matching maxIndex. */
  lemma InsertIntoInserts(b: ArrayBst, x: int)
    requires Valid(b)
    ensures Valid(InsertInto(b, x))
    ensures AsTree(InsertInto(b, x)) == Trees.Insert(AsTree(b), x)
    ensures InsertInto(b, x).base.count == b.base.count + 1
    ensures InsertInto(b, x).base.modCount == b.base.modCount
    ensures InsertInto(b, x).height == HeightOf(InsertInto(b, x).maxIndex)
  {
    PreparedReady(b);
    var t := Prepared(b);
    var a := t.tree;
    var s := InsertSlot(a, 0, x);
    InsertSlotInRange(a, b.maxIndex, x);
    InsertSlotPlaces(a, 0, x);
    var r := InsertInto(b, x);
    assert r.base.tree == Put(a, s, Some(x));
    if t.count == 0 {
      assert Get(a, 0).None?;
      EmptyArray(a);
      FillKeepsReady(a, -1, s, x, r.maxIndex);
    } else {
      FillKeepsReady(a, b.maxIndex, s, x, r.maxIndex);
    }
    InsertElems(AsTree(b), x);
    InsertKeepsOrder(AsTree(b), x);
  }

  /** `insert`, as the source writes it: a walk down from the root that stops at the first
      null child on the side the key belongs to. */
  method Insert(b: ArrayBst, x: int) returns (r: ArrayBst)
    requires Valid(b)
    ensures r == InsertInto(b, x)
    ensures Valid(r) && AsTree(r) == Trees.Insert(AsTree(b), x)
    ensures r.base.count == b.base.count + 1 && r.base.modCount == b.base.modCount
    ensures r.height == HeightOf(r.maxIndex)
  {
    var t := b.base;
    if |t.tree| < b.maxIndex * 2 + 3 {
      t := ExpandCapacity(t);
    }
    PreparedReady(b);
    var a := t.tree;
    var maxIndex := b.maxIndex;
    ghost var a0 := a;
    if t.count == 0 {
      a := a[0 := Some(x)];
      maxIndex := 0;
    } else {
      assert Get(a, 0).Some?;
      var added := false;
      var cur: nat := 0;
      while !added
        invariant !added ==> a == a0 && maxIndex == b.maxIndex
        invariant !added ==> Get(a0, cur).Some? && InsertSlot(a0, cur, x) == InsertSlot(a0, 0, x)
        invariant !added ==> cur <= b.maxIndex
        invariant added ==> a == Put(a0, InsertSlot(a0, 0, x), Some(x))
        invariant added ==> maxIndex == if InsertSlot(a0, 0, x) > b.maxIndex then InsertSlot(a0, 0, x) else b.maxIndex
        decreases if added then 0 else 1, |a0| - cur
      {
        if x < a[cur].value {
          if a[Left(cur)].None? {
            a := a[Left(cur) := Some(x)];
            added := true;
            if Left(cur) > maxIndex {
              maxIndex := Left(cur);
            }
          } else {
            cur := Left(cur);
          }
        } else {
          if a[Right(cur)].None? {
            a := a[Right(cur) := Some(x)];
            added := true;
            if Right(cur) > maxIndex {
              maxIndex := Right(cur);
            }
          } else {
            cur := Right(cur);
          }
        }
      }
    }
    r := ArrayBst(t.(tree := a, count := t.count + 1), HeightOf(maxIndex), maxIndex);
    InsertIntoInserts(b, x);
  }

  // ---------------------------------------------------------------------------
  // remove

  /** The slot `remove` deletes: the lowest slot up to maxIndex holding the target. */
  function FirstSlot(a: seq<Option<int>>, x: int, i: nat, maxIndex: int): (p: int)
    requires maxIndex < |a|
    ensures p == -1 <==> forall q | i <= q <= maxIndex :: a[q] != Some(x)
    ensures p != -1 ==> i <= p <= maxIndex && a[p] == Some(x)
    decreases maxIndex + 1 - i
  {
    if i > maxIndex then -1
    else if a[i] == Some(x) then i
    else FirstSlot(a, x, i + 1, maxIndex)
  }

  /** The highest occupied slot up to `hi`, or -1. */
  function LastOccupied(a: seq<Option<int>>, hi: int): (p: int)
    requires -1 <= hi < |a|
    ensures -1 <= p <= hi
    ensures p >= 0 ==> a[p].Some?
    ensures forall q: nat | p < q <= hi :: a[q].None?
    decreases hi + 1
  {
    if hi < 0 then -1 else if a[hi].Some? then hi else LastOccupied(a, hi - 1)
  }

  /** The state `remove` produces on success, described without its loops. */
  function RemoveAt(b: ArrayBst, slot: nat): (r: ArrayBst)
    requires -1 <= b.maxIndex < |b.base.tree|
  {
    var a := Replace(b.base.tree, slot, LevelBound(b.height));
    var m := LastOccupied(a, b.maxIndex);
    ArrayBst(b.base.(tree := a, count := b.base.count - 1), HeightOf(m), m)
  }

  /** Replacing the element at an occupied slot deletes one copy of it from the whole tree
      and keeps the array ready for the next removal. */
  lemma ReplaceInTree(b: ArrayBst, slot: nat)
    requires Valid(b) && Get(b.base.tree, slot).Some?
    ensures var a := Replace(b.base.tree, slot, LevelBound(b.height));
      && ReplaceReady(a, b.maxIndex, LevelBound(b.height)) && |a| == |b.base.tree|
      && b.base.tree[slot].value in Elems(AsTree(b))
      && Elems(Abs(a, 0)) == Elems(AsTree(b)) - multiset{b.base.tree[slot].value}
      && IsBst(Abs(a, 0))
  {
    ElemsOfArray(b.base.tree, b.base.tree[slot].value);
    var a0 := b.base.tree;
    var bound := LevelBound(b.height);
    var x := a0[slot].value;
    ReplaceRemovesRoot(a0, slot, bound, b.maxIndex);
    var a := Replace(a0, slot, bound);
    RemoveRootElems(Abs(a0, slot));
    InSubRoot(slot);
    SubtreeIsBst(a0, 0, slot);
    RemoveRootKeepsOrder(Abs(a0, slot));
    LiftRemoval(a0, a, slot, 0, x);
  }

  /** Deleting the element at an occupied slot deletes one copy of it from the tree, keeps the
      invariants, recomputes maxIndex exactly and the height from it. */
  lemma RemoveAtRemoves(b: ArrayBst, slot: nat)
    requires Valid(b) && Get(b.base.tree, slot).Some?
    ensures var r := RemoveAt(b, slot);
      && Valid(r)
      && Elems(AsTree(r)) == Elems(AsTree(b)) - multiset{b.base.tree[slot].value}
      && r.base.count == b.base.count - 1 && r.base.modCount == b.base.modCount
      && |r.base.tree| == |b.base.tree|
      && (r.maxIndex == -1 || r.base.tree[r.maxIndex].Some?)
      && r.height == HeightOf(r.maxIndex)
  {
    ReplaceInTree(b, slot);
    var a := Replace(b.base.tree, slot, LevelBound(b.height));
    var m := LastOccupied(a, b.maxIndex);
    assert NoneAbove(a, m);
    SizeIsElemCount(AsTree(b));
    SizeIsElemCount(Abs(a, 0));
  }

  /** The search at the start of `remove` finds the target exactly when it is in the tree. */
  lemma FirstSlotIsMembership(b: ArrayBst, x: int)
    requires Valid(b)
    ensures FirstSlot(b.base.tree, x, 0, b.maxIndex) != -1 <==> x in Elems(AsTree(b))
  {
    var a := b.base.tree;
    ElemsOfArray(a, x);
    if x in Elems(AsTree(b)) {
      var p :| 0 <= p < |a| && a[p] == Some(x);
      assert p <= b.maxIndex;
    }
  }

  /** `remove`: scan the slots up to maxIndex for the target, delete the first
      one found, then rescan for the highest occupied slot and recompute the height. */
  method Remove(b: ArrayBst, x: int) returns (r: Result<ArrayBst>)
    requires Valid(b)
    ensures r.Err? <==> x !in Elems(AsTree(b))
    ensures r.Err? ==> r.error == ElementNotFound
    ensures r.Ok? ==> var s := FirstSlot(b.base.tree, x, 0, b.maxIndex); s >= 0 && r.value == RemoveAt(b, s)
    ensures r.Ok? ==> Valid(r.value) && Elems(AsTree(r.value)) == Elems(AsTree(b)) - multiset{x}
    ensures r.Ok? ==> r.value.base.count == b.base.count - 1 && r.value.base.modCount == b.base.modCount
    ensures r.Ok? ==> r.value.height == HeightOf(r.value.maxIndex)
    ensures r.Ok? ==> r.value.maxIndex == -1 || r.value.base.tree[r.value.maxIndex].Some?
  {
    var a := b.base.tree;
    var found := false;
    var slot: nat := 0;
    var i: nat := 0;
    while i as int <= b.maxIndex && !found
      invariant i <= b.maxIndex + 1
      invariant !found ==> a == b.base.tree && FirstSlot(a, x, 0, b.maxIndex) == FirstSlot(a, x, i, b.maxIndex)
      invariant found ==> slot == FirstSlot(b.base.tree, x, 0, b.maxIndex)
      invariant found ==> a == Replace(b.base.tree, slot, LevelBound(b.height))
      decreases b.maxIndex + 1 - i, if found then 0 else 1
    {
      if a[i].Some? && a[i].value == x {
        found := true;
        slot := i;
        a := Replace(a, i, LevelBound(b.height));
      }
      i := i + 1;
    }
    FirstSlotIsMembership(b, x);
    if !found {
      return Err(ElementNotFound);
    }
    assert |a| == |b.base.tree|;
    var maxIndex := ScanMaxIndex(a, b.maxIndex);
    r := Ok(ArrayBst(b.base.(tree := a, count := b.base.count - 1), HeightOf(maxIndex), maxIndex));
    assert r.value == RemoveAt(b, slot);
    RemoveAtRemoves(b, slot);
  }

  /** The rescan at the end of `remove`: the new `maxIndex` is the last occupied slot up to the
      old one. */
  method ScanMaxIndex(a: seq<Option<int>>, hi: int) returns (m: int)
    requires -1 <= hi < |a|
    ensures m == LastOccupied(a, hi)
  {
    m := -1;
    var j := 0;
    while j <= hi
      invariant 0 <= j <= hi + 1
      invariant m == LastOccupied(a, j - 1)
    {
      if a[j].Some? {
        m := j;
      }
      j := j + 1;
    }
  }

  /** Taking one copy of x away does not change the other counts. */
  lemma TakeOneKeepsOthers(m: multiset<int>, x: int)
    ensures (m - multiset{x})[x := 0] == m[x := 0]
  {
  }

  /** `removeAllOccurrences`: one `remove`, whose failure is reported, then
      `remove` again while the tree still contains the target. */
  method RemoveAllOccurrences(b: ArrayBst, x: int) returns (r: Result<ArrayBst>)
    requires Valid(b)
    ensures r.Err? <==> x !in Elems(AsTree(b))
    ensures r.Err? ==> r.error == ElementNotFound
    ensures r.Ok? ==> Valid(r.value) && Elems(AsTree(r.value)) == Elems(AsTree(b))[x := 0]
    ensures r.Ok? ==> r.value.base.modCount == b.base.modCount
  {
    var first := Remove(b, x);
    if first.Err? {
      return first;
    }
    var cur := first.value;
    TakeOneKeepsOthers(Elems(AsTree(b)), x);
    while Contains(cur.base, x)
      invariant Valid(cur) && cur.base.modCount == b.base.modCount
      invariant Elems(AsTree(cur))[x := 0] == Elems(AsTree(b))[x := 0]
      decreases cur.base.count
    {
      ValidIsConsistent(cur);
      ContainsIsMembership(cur.base, x);
      var next := Remove(cur, x);
      TakeOneKeepsOthers(Elems(AsTree(cur)), x);
      cur := next.value;
    }
    ValidIsConsistent(cur);
    ContainsIsMembership(cur.base, x);
    assert Elems(AsTree(cur)) == Elems(AsTree(cur))[x := 0];
    r := Ok(cur);
  }

  // ---------------------------------------------------------------------------
  // removeMin, removeMax

  /** `removeMin`, with the loop test in the order that keeps the read inside
      the array: follow left children from the root and delete the last occupied one. maxIndex
      and the height are left as they were. */
  method RemoveMin(b: ArrayBst) returns (r: Result<(int, ArrayBst)>)
    requires Valid(b)
    ensures r.Err? <==> AsTree(b) == Nil
    ensures r.Err? ==> r.error == EmptyCollection
    ensures r.Ok? ==> r.value.0 == Min(AsTree(b)) && AsTree(r.value.1) == Trees.RemoveMin(AsTree(b))
    ensures r.Ok? ==> Valid(r.value.1) && r.value.1.base.count == b.base.count - 1
    ensures r.Ok? ==> r.value.1.maxIndex == b.maxIndex && r.value.1.height == b.height
    ensures r.Ok? ==> r.value.1.base.modCount == b.base.modCount
  {
    if IsEmpty(b.base) {
      return Err(EmptyCollection);
    }
    var a := b.base.tree;
    assert Get(a, 0).Some?;
    var cur: nat := 1;
    var prev: nat := 0;
    while cur < |a| && a[cur].Some?
      invariant cur == Left(prev) && Get(a, prev).Some?
      invariant Leftmost(a, prev) == Leftmost(a, 0)
      decreases |a| - cur
    {
      prev := cur;
      cur := Left(cur);
    }
    var result := a[prev].value;
    var a1 := Replace(a, prev, LevelBound(b.height));
    var b1 := ArrayBst(b.base.(tree := a1, count := b.base.count - 1), b.height, b.maxIndex);
    MinRemoved(b, prev);
    r := Ok((result, b1));
  }

  lemma MinRemoved(b: ArrayBst, s: nat)
    requires Valid(b) && AsTree(b) != Nil && s == Leftmost(b.base.tree, 0)
    ensures var a := Replace(b.base.tree, s, LevelBound(b.height));
      && Get(b.base.tree, s) == Some(Min(AsTree(b)))
      && Abs(a, 0) == Trees.RemoveMin(AsTree(b))
      && Valid(ArrayBst(b.base.(tree := a, count := b.base.count - 1), b.height, b.maxIndex))
  {
    var a0 := b.base.tree;
    var bound := LevelBound(b.height);
    LeftmostIsMin(a0, 0);
    ReplaceRemovesRoot(a0, s, bound, b.maxIndex);
    var a := Replace(a0, s, bound);
    RemoveLeftmost(a0, a, 0);
    RemoveMinKeepsOrder(AsTree(b));
  }

  /** `removeMax`, with the bound test before the read: follow right children
      from the root and delete the last occupied one. */
  method RemoveMax(b: ArrayBst) returns (r: Result<(int, ArrayBst)>)
    requires Valid(b)
    ensures r.Err? <==> AsTree(b) == Nil
    ensures r.Err? ==> r.error == EmptyCollection
    ensures r.Ok? ==> r.value.0 == Max(AsTree(b)) && AsTree(r.value.1) == Trees.RemoveMax(AsTree(b))
    ensures r.Ok? ==> Valid(r.value.1) && r.value.1.base.count == b.base.count - 1
    ensures r.Ok? ==> r.value.1.maxIndex == b.maxIndex && r.value.1.height == b.height
    ensures r.Ok? ==> r.value.1.base.modCount == b.base.modCount
  {
    if IsEmpty(b.base) {
      return Err(EmptyCollection);
    }
    var a := b.base.tree;
    assert Get(a, 0).Some?;
    var cur: nat := 2;
    var prev: nat := 0;
    while cur as int <= b.maxIndex && a[cur].Some?
      invariant cur == Right(prev) && Get(a, prev).Some?
      invariant Rightmost(a, prev) == Rightmost(a, 0)
      decreases |a| - cur
    {
      prev := cur;
      cur := Right(cur);
    }
    assert Get(a, cur).None?;
    var result := a[prev].value;
    var a1 := Replace(a, prev, LevelBound(b.height));
    var b1 := ArrayBst(b.base.(tree := a1, count := b.base.count - 1), b.height, b.maxIndex);
    MaxRemoved(b, prev);
    r := Ok((result, b1));
  }

  lemma MaxRemoved(b: ArrayBst, s: nat)
    requires Valid(b) && AsTree(b) != Nil && s == Rightmost(b.base.tree, 0)
    ensures var a := Replace(b.base.tree, s, LevelBound(b.height));
      && Get(b.base.tree, s) == Some(Max(AsTree(b)))
      && Abs(a, 0) == Trees.RemoveMax(AsTree(b))
      && Valid(ArrayBst(b.base.(tree := a, count := b.base.count - 1), b.height, b.maxIndex))
  {
    var a0 := b.base.tree;
    var bound := LevelBound(b.height);
    RightmostIsMax(a0, 0);
    ReplaceRemovesRoot(a0, s, bound, b.maxIndex);
    var a := Replace(a0, s, bound);
    RemoveRightmost(a0, a, 0);
    RemoveMaxKeepsOrder(AsTree(b));
  }

  // ---------------------------------------------------------------------------
  // findMin, findMax

  /** `findMin`: follow left children while they lie within maxIndex. */
  method FindMin(b: ArrayBst) returns (r: Result<int>)
    requires Valid(b)
    ensures r.Err? <==> AsTree(b) == Nil
    ensures r.Err? ==> r.error == EmptyCollection
    ensures r.Ok? ==> r.value == Min(AsTree(b))
  {
    if IsEmpty(b.base) {
      return Err(EmptyCollection);
    }
    var a := b.base.tree;
    assert Get(a, 0).Some?;
    var cur: nat := 0;
    while Left(cur) as int <= b.maxIndex && a[Left(cur)].Some?
      invariant Get(a, cur).Some? && Leftmost(a, cur) == Leftmost(a, 0)
      decreases |a| - cur
    {
      cur := Left(cur);
    }
    assert Get(a, Left(cur)).None?;
    LeftmostIsMin(a, 0);
    r := Ok(a[cur].value);
  }

  /** `findMax`: follow right children while they lie within maxIndex. */
  method FindMax(b: ArrayBst) returns (r: Result<int>)
    requires Valid(b)
    ensures r.Err? <==> AsTree(b) == Nil
    ensures r.Err? ==> r.error == EmptyCollection
    ensures r.Ok? ==> r.value == Max(AsTree(b))
  {
    if IsEmpty(b.base) {
      return Err(EmptyCollection);
    }
    var a := b.base.tree;
    assert Get(a, 0).Some?;
    var cur: nat := 0;
    while Right(cur) as int <= b.maxIndex && a[Right(cur)].Some?
      invariant Get(a, cur).Some? && Rightmost(a, cur) == Rightmost(a, 0)
      decreases |a| - cur
    {
      cur := Right(cur);
    }
    assert Get(a, Right(cur)).None?;
    RightmostIsMax(a, 0);
    r := Ok(a[cur].value);
  }

  // ---------------------------------------------------------------------------
  // Accessors

  /** `getArray`: an empty array for an empty tree, otherwise a slot-by-slot
      copy; either way it stands for the same tree. */
  function GetArray(b: ArrayBst): (r: seq<Option<int>>)
    ensures Valid(b) ==> Abs(r, 0) == AsTree(b)
    ensures Valid(b) ==> (|r| == 0 <==> AsTree(b) == Nil)
  {
    if ArrayTrees.Size(b.base) == 0 then [] else b.base.tree
  }

  /** `getMaxIndex`: no slot above it is occupied. */
  function GetMaxIndex(b: ArrayBst): (m: int)
    ensures Valid(b) ==> -1 <= m && forall p | m < p < |b.base.tree| :: b.base.tree[p].None?
  {
    b.maxIndex
  }

  /** `getHeight`: once anything is stored below the root, every occupied slot lies within
      the first `height` levels, that is below slot 2^height - 1. */
  function GetHeight(b: ArrayBst): (h: int)
    ensures Valid(b) && b.maxIndex >= 1 ==>
      h >= 1 && forall p | 0 <= p < |b.base.tree| && b.base.tree[p].Some? :: p <= LevelBound(h)
  {
    b.height
  }

  // ---------------------------------------------------------------------------
  // Iteration

  /** The tree never bumps `modCount`, so an in-order iterator taken from a valid search tree
      runs to the end, after any number of updates, and yields the snapshot it was created
      with, in non-decreasing order. */
  lemma IteratorYieldsSorted(b: ArrayBst, later: ArrayBst)
    requires Valid(b) && later.base.modCount == b.base.modCount
    ensures Drain(later.base, IteratorInOrder(b.base)) == Ok(InOrder(AsTree(b)))
    ensures Sorted(InOrder(AsTree(b)))
  {
    IterationYieldsInOrder(b.base, later.base);
    InOrderSorted(AsTree(b));
  }
}
