/** The array-backed binary tree: slot i holds an element or null, and its children live at
    slots 2i+1 and 2i+2. `Abs(a, i)` reads the subtree rooted at slot i as a `Tree`; a null
    slot and a slot past the end of the array both read as the empty subtree, which are the two
    checks the recursive traversals make before they touch a slot. */
module ArrayTrees {
  import opened Wrappers
  import opened HeapIndex
  import opened Trees

  const DefaultCapacity: nat := 50

  /** Slot i, with every slot past the end reading as null. */
  function Get<T>(a: seq<Option<T>>, i: nat): Option<T>
  {
    if i < |a| then a[i] else None
  }

  /** Writes slot i; a write past the end is dropped. */
  function Put<T>(a: seq<Option<T>>, i: nat, v: Option<T>): (r: seq<Option<T>>)
    ensures |r| == |a|
    ensures i < |a| ==> Get(r, i) == v
    ensures forall p | p != i :: Get(r, p) == Get(a, p)
  {
    if i < |a| then a[i := v] else a
  }

  /** The subtree rooted at slot i. */
  function Abs<T>(a: seq<Option<T>>, i: nat): Tree<T>
    decreases if i < |a| then |a| - i else 0
  {
    match Get(a, i)
    case None => Nil
    case Some(v) => Node(Abs(a, Left(i)), v, Abs(a, Right(i)))
  }

  /** Every occupied slot other than the root hangs below an occupied parent, so that every
      element is reachable from the root. */
  predicate Occupied<T>(a: seq<Option<T>>)
  {
    forall p | 0 < p < |a| && a[p].Some? :: a[Parent(p)].Some?
  }

  /** Every slot above index m is null. */
  predicate NoneAbove<T>(a: seq<Option<T>>, m: int)
  {
    forall p: nat | m < p < |a| :: a[p].None?
  }

  // ---------------------------------------------------------------------------
  // Reading subtrees

  /** Two arrays that agree on every slot of the subtree at q stand for the same subtree. */
  lemma {:induction false} AbsFrame<T>(a: seq<Option<T>>, b: seq<Option<T>>, q: nat)
    requires forall p | InSub(q, p) :: Get(a, p) == Get(b, p)
    ensures Abs(a, q) == Abs(b, q)
    decreases if q < |a| then |a| - q else 0
  {
    ChildrenInSub(q);
    if Get(a, q).Some? {
      forall p | InSub(Left(q), p) ensures Get(a, p) == Get(b, p) {
        InSubOfChild(q, p);
      }
      forall p | InSub(Right(q), p) ensures Get(a, p) == Get(b, p) {
        InSubOfChild(q, p);
      }
      AbsFrame(a, b, Left(q));
      AbsFrame(a, b, Right(q));
    }
  }

  /** When the subtree at i of one array holds, position by position, what the subtree at j of
      another holds, the two stand for the same tree. */
  lemma {:induction false} AbsMirror<T>(a: seq<Option<T>>, i: nat, b: seq<Option<T>>, j: nat)
    requires forall m :: Get(a, Rel(i, m)) == Get(b, Rel(j, m))
    ensures Abs(a, i) == Abs(b, j)
    decreases if i < |a| then |a| - i else 0
  {
    assert Get(a, Rel(i, 0)) == Get(b, Rel(j, 0));
    if Get(a, i).Some? {
      assert Rel(i, 1) == Left(i) && Rel(j, 1) == Left(j);
      assert Rel(i, 2) == Right(i) && Rel(j, 2) == Right(j);
      forall m ensures Get(a, Rel(Left(i), m)) == Get(b, Rel(Left(j), m)) {
        RelCompose(i, 1, m);
        RelCompose(j, 1, m);
        assert Get(a, Rel(i, Rel(1, m))) == Get(b, Rel(j, Rel(1, m)));
      }
      forall m ensures Get(a, Rel(Right(i), m)) == Get(b, Rel(Right(j), m)) {
        RelCompose(i, 2, m);
        RelCompose(j, 2, m);
        assert Get(a, Rel(i, Rel(2, m))) == Get(b, Rel(j, Rel(2, m)));
      }
      AbsMirror(a, Left(i), b, Left(j));
      AbsMirror(a, Right(i), b, Right(j));
    }
  }

  /** An occupied slot has every ancestor occupied. */
  lemma {:induction false} AncestorOccupied<T>(a: seq<Option<T>>, q: nat, p: nat)
    requires Occupied(a) && InSub(q, p) && Get(a, p).Some?
    ensures Get(a, q).Some?
    decreases p
  {
    if p != q {
      InSubParent(q, p);
      AncestorOccupied(a, q, Parent(p));
    }
  }

  /** Below a null slot every slot is null. */
  lemma SubtreeEmpty<T>(a: seq<Option<T>>, q: nat)
    requires Occupied(a) && Get(a, q).None?
    ensures forall p | InSub(q, p) :: Get(a, p).None?
  {
    forall p | InSub(q, p) ensures Get(a, p).None? {
      if Get(a, p).Some? {
        AncestorOccupied(a, q, p);
      }
    }
  }

  lemma {:induction false} InSubRoot(p: nat)
    ensures InSub(0, p)
    decreases p
  {
    if p > 0 {
      InSubRoot(Parent(p));
    }
  }

  /** With every occupied slot reachable, the subtree at q holds exactly the elements stored in
      the slots below q. */
  lemma {:induction false} ElemsSlots<T>(a: seq<Option<T>>, q: nat, x: T)
    requires Occupied(a)
    ensures x in Elems(Abs(a, q)) <==> exists p | InSub(q, p) :: Get(a, p) == Some(x)
    decreases if q < |a| then |a| - q else 0
  {
    ChildrenInSub(q);
    match Get(a, q)
    case None =>
      SubtreeEmpty(a, q);
    case Some(v) =>
      ElemsSlots(a, Left(q), x);
      ElemsSlots(a, Right(q), x);
      if x in Elems(Abs(a, q)) {
        if x == v {
          assert InSub(q, q) && Get(a, q) == Some(x);
        } else if x in Elems(Abs(a, Left(q))) {
          var p :| InSub(Left(q), p) && Get(a, p) == Some(x);
          InSubOfChild(q, p);
        } else {
          var p :| InSub(Right(q), p) && Get(a, p) == Some(x);
          InSubOfChild(q, p);
        }
      }
      if exists p | InSub(q, p) :: Get(a, p) == Some(x) {
        var p :| InSub(q, p) && Get(a, p) == Some(x);
        if p != q {
          InSubSplit(q, p);
        }
      }
  }

  /** The whole tree holds exactly the elements stored anywhere in the array. */
  lemma ElemsOfArray<T>(a: seq<Option<T>>, x: T)
    requires Occupied(a)
    ensures x in Elems(Abs(a, 0)) <==> exists p | 0 <= p < |a| :: a[p] == Some(x)
  {
    ElemsSlots(a, 0, x);
    if exists p | 0 <= p < |a| :: a[p] == Some(x) {
      var p :| 0 <= p < |a| && a[p] == Some(x);
      InSubRoot(p);
      assert Get(a, p) == Some(x);
    }
  }

  // ---------------------------------------------------------------------------
  // The tree object

  /** `tree`, `count` and `modCount` of ArrayBinaryTree. */
  datatype ArrayBinaryTree<T> = ArrayBinaryTree(tree: seq<Option<T>>, count: int, modCount: int)

  /** The array stands for a tree and `count` is its number of nodes. */
  predicate Consistent<T>(t: ArrayBinaryTree<T>)
  {
    |t.tree| > 0 && Occupied(t.tree) && t.count == Trees.Size(Abs(t.tree, 0))
  }

  /** The no-argument constructor: fifty null slots. */
  function Empty<T>(): ArrayBinaryTree<T>
  {
    ArrayBinaryTree(seq(DefaultCapacity, _ => None), 0, 0)
  }

  /** The no-argument constructor leaves every slot empty. */
  lemma EmptyHoldsNothing<T>(t: ArrayBinaryTree<T>)
    requires t == Empty()
    ensures Consistent(t) && |t.tree| == DefaultCapacity
    ensures Abs(t.tree, 0) == Nil && t.count == 0
  {
  }

  /** The one-element constructor: the element at slot 0. */
  function Singleton<T>(element: T): (t: ArrayBinaryTree<T>)
    ensures Consistent(t) && |t.tree| == DefaultCapacity
    ensures Abs(t.tree, 0) == Node(Nil, element, Nil) && t.count == 1
  {
    var a := seq(DefaultCapacity, i => if i == 0 then Some(element) else None);
    assert Abs(a, 1) == Nil && Abs(a, 2) == Nil;
    ArrayBinaryTree(a, 1, 0)
  }

  /** `Arrays.copyOf(tree, 2 * length)`: the array doubles, new slots are null. */
  function Expand<T>(a: seq<Option<T>>): (r: seq<Option<T>>)
    ensures |r| == 2 * |a|
    ensures forall p :: Get(r, p) == Get(a, p)
  {
    a + seq(|a|, _ => None)
  }

  /** Doubling keeps every slot in place, so the tree and its reachability are unchanged. */
  lemma ExpandKeepsTree<T>(a: seq<Option<T>>, q: nat)
    ensures Abs(Expand(a), q) == Abs(a, q)
    ensures Occupied(a) ==> Occupied(Expand(a))
  {
    AbsFrame(Expand(a), a, q);
    if Occupied(a) {
      var r := Expand(a);
      forall p | 0 < p < |r| && r[p].Some? ensures r[Parent(p)].Some? {
        assert Get(r, p) == Get(a, p) && Get(r, Parent(p)) == Get(a, Parent(p));
      }
    }
  }

  function ExpandCapacity<T>(t: ArrayBinaryTree<T>): (r: ArrayBinaryTree<T>)
    ensures |r.tree| == 2 * |t.tree| && r.count == t.count && r.modCount == t.modCount
    ensures Abs(r.tree, 0) == Abs(t.tree, 0)
    ensures Consistent(t) ==> Consistent(r)
  {
    ExpandKeepsTree(t.tree, 0);
    t.(tree := Expand(t.tree))
  }

  /** `find` from slot i on: the lowest slot holding the target, or -1. */
  function FindFrom<T(==)>(a: seq<Option<T>>, target: T, i: nat): (r: int)
    ensures r == -1 || i <= r < |a|
    ensures r == -1 <==> forall p | i <= p < |a| :: a[p] != Some(target)
    ensures r >= 0 ==> a[r] == Some(target) && forall p | i <= p < r :: a[p] != Some(target)
    decreases if i < |a| then |a| - i else 0
  {
    if i >= |a| then -1
    else if a[i] == Some(target) then i
    else FindFrom(a, target, i + 1)
  }

  function Find<T(==)>(a: seq<Option<T>>, target: T): int
  {
    FindFrom(a, target, 0)
  }

  function Contains<T(==)>(t: ArrayBinaryTree<T>, element: T): (b: bool)
    ensures b <==> exists p | 0 <= p < |t.tree| :: t.tree[p] == Some(element)
  {
    Find(t.tree, element) != -1
  }

  /** On a consistent tree, `contains` is membership in the tree it stands for. */
  lemma ContainsIsMembership<T>(t: ArrayBinaryTree<T>, x: T)
    requires Consistent(t)
    ensures Contains(t, x) <==> x in Elems(Abs(t.tree, 0))
  {
    ElemsOfArray(t.tree, x);
  }

  /** `getLeftChild`: the parent is looked up with `find`; an absent parent, a child index past
      the end of the array and a null child each throw. */
  function GetLeftChild<T(==)>(t: ArrayBinaryTree<T>, parent: T): (r: Result<T>)
    ensures r == Err(ElementNotFound) <==> !Contains(t, parent)
    ensures Contains(t, parent) ==>
              var i := Find(t.tree, parent);
              var n := Abs(t.tree, i);
              n.Node? && n.value == parent
              && (r == Err(IndexOutOfBounds) <==> Left(i) >= |t.tree|)
              && (r == Err(ChildNotFound(LeftSide)) <==> Left(i) < |t.tree| && n.left == Nil)
              && (r.Ok? <==> n.left.Node?)
              && (r.Ok? ==> r.value == n.left.value)
  {
    if !Contains(t, parent) then Err(ElementNotFound)
    else
      var i := Left(Find(t.tree, parent));
      if i >= |t.tree| then Err(IndexOutOfBounds)
      else if t.tree[i].None? then Err(ChildNotFound(LeftSide))
      else Ok(t.tree[i].value)
  }

  /** `getRightChild`, the mirror image of `getLeftChild`. */
  function GetRightChild<T(==)>(t: ArrayBinaryTree<T>, parent: T): (r: Result<T>)
    ensures r == Err(ElementNotFound) <==> !Contains(t, parent)
    ensures Contains(t, parent) ==>
              var i := Find(t.tree, parent);
              var n := Abs(t.tree, i);
              n.Node? && n.value == parent
              && (r == Err(IndexOutOfBounds) <==> Right(i) >= |t.tree|)
              && (r == Err(ChildNotFound(RightSide)) <==> Right(i) < |t.tree| && n.right == Nil)
              && (r.Ok? <==> n.right.Node?)
              && (r.Ok? ==> r.value == n.right.value)
  {
    if !Contains(t, parent) then Err(ElementNotFound)
    else
      var i := Right(Find(t.tree, parent));
      if i >= |t.tree| then Err(IndexOutOfBounds)
      else if t.tree[i].None? then Err(ChildNotFound(RightSide))
      else Ok(t.tree[i].value)
  }

  function Size<T>(t: ArrayBinaryTree<T>): int
  {
    t.count
  }

  function IsEmpty<T>(t: ArrayBinaryTree<T>): bool
  {
    t.count == 0
  }

  /** On a consistent tree, `isEmpty` holds exactly when no slot is occupied. */
  lemma IsEmptyIffNoSlots<T>(t: ArrayBinaryTree<T>)
    requires Consistent(t)
    ensures IsEmpty(t) <==> Abs(t.tree, 0) == Nil
    ensures IsEmpty(t) <==> forall p | 0 <= p < |t.tree| :: t.tree[p].None?
  {
    if IsEmpty(t) {
      assert Get(t.tree, 0).None?;
      SubtreeEmpty(t.tree, 0);
      forall p | 0 <= p < |t.tree| ensures t.tree[p].None? {
        InSubRoot(p);
        assert Get(t.tree, p).None?;
      }
    }
  }

  /** `getRoot`: throws on an empty tree, and otherwise returns slot 0 (which may be null when
      the count disagrees with the array). */
  function GetRoot<T>(t: ArrayBinaryTree<T>): (r: Result<Option<T>>)
    requires |t.tree| > 0
    ensures r.Err? <==> IsEmpty(t)
    ensures r.Err? ==> r.error == EmptyCollection
    ensures Consistent(t) && r.Ok? ==> Abs(t.tree, 0).Node? && r.value == Some(Abs(t.tree, 0).value)
  {
    if IsEmpty(t) then Err(EmptyCollection) else Ok(t.tree[0])
  }

  // ---------------------------------------------------------------------------
  // Traversals

  /** `inOrder(node, list)`: the slot is visited only when it is inside the array and non-null. */
  function InOrderFrom<T>(a: seq<Option<T>>, node: nat): (s: seq<T>)
    ensures s == InOrder(Abs(a, node))
    decreases if node < |a| then |a| - node else 0
  {
    if node < |a| then
      if a[node].Some? then InOrderFrom(a, Left(node)) + [a[node].value] + InOrderFrom(a, Right(node))
      else []
    else []
  }

  function PreOrderFrom<T>(a: seq<Option<T>>, node: nat): (s: seq<T>)
    ensures s == PreOrder(Abs(a, node))
    decreases if node < |a| then |a| - node else 0
  {
    if node < |a| then
      if a[node].Some? then [a[node].value] + PreOrderFrom(a, Left(node)) + PreOrderFrom(a, Right(node))
      else []
    else []
  }

  function PostOrderFrom<T>(a: seq<Option<T>>, node: nat): (s: seq<T>)
    ensures s == PostOrder(Abs(a, node))
    decreases if node < |a| then |a| - node else 0
  {
    if node < |a| then
      if a[node].Some? then PostOrderFrom(a, Left(node)) + PostOrderFrom(a, Right(node)) + [a[node].value]
      else []
    else []
  }

  /** Each traversal lists the element of every occupied slot once, and nothing else. */
  lemma TraversalsListSlots<T>(a: seq<Option<T>>, x: T)
    requires Occupied(a)
    ensures multiset(InOrderFrom(a, 0)) == multiset(PreOrderFrom(a, 0)) == multiset(PostOrderFrom(a, 0))
            == Elems(Abs(a, 0))
    ensures x in InOrderFrom(a, 0) <==> exists p | 0 <= p < |a| :: a[p] == Some(x)
  {
    InOrderListsElems(Abs(a, 0));
    PreOrderListsElems(Abs(a, 0));
    PostOrderListsElems(Abs(a, 0));
    ElemsOfArray(a, x);
    assert x in InOrderFrom(a, 0) <==> x in multiset(InOrderFrom(a, 0));
  }

  // ---------------------------------------------------------------------------
  // The iterator

  /** `TreeIterator`: the list a traversal filled, a position in it, and the tree's `modCount`
      when the iterator was made. */
  datatype TreeIterator<T> = TreeIterator(expectedModCount: int, items: seq<T>, next: nat)

  function IteratorInOrder<T>(t: ArrayBinaryTree<T>): TreeIterator<T>
  {
    TreeIterator(t.modCount, InOrderFrom(t.tree, 0), 0)
  }

  function IteratorPreOrder<T>(t: ArrayBinaryTree<T>): TreeIterator<T>
  {
    TreeIterator(t.modCount, PreOrderFrom(t.tree, 0), 0)
  }

  function IteratorPostOrder<T>(t: ArrayBinaryTree<T>): TreeIterator<T>
  {
    TreeIterator(t.modCount, PostOrderFrom(t.tree, 0), 0)
  }

  function HasNext<T>(t: ArrayBinaryTree<T>, it: TreeIterator<T>): (r: Result<bool>)
    ensures r.Err? <==> t.modCount != it.expectedModCount
    ensures r.Err? ==> r.error == ConcurrentModification
    ensures r.Ok? ==> (r.value <==> it.next < |it.items|)
  {
    if t.modCount != it.expectedModCount then Err(ConcurrentModification)
    else Ok(it.next < |it.items|)
  }

  function Next<T>(t: ArrayBinaryTree<T>, it: TreeIterator<T>): (r: Result<(T, TreeIterator<T>)>)
    ensures r.Ok? ==> it.next < |it.items| && r.value == (it.items[it.next], it.(next := it.next + 1))
    ensures t.modCount == it.expectedModCount && it.next >= |it.items| ==> r == Err(NoSuchElement)
    ensures t.modCount != it.expectedModCount ==> r == Err(ConcurrentModification)
  {
    match HasNext(t, it)
    case Err(e) => Err(e)
    case Ok(more) =>
      if more then Ok((it.items[it.next], it.(next := it.next + 1))) else Err(NoSuchElement)
  }

  /** Everything an iterator still delivers, calling `next` while `hasNext` says yes. */
  function Drain<T>(t: ArrayBinaryTree<T>, it: TreeIterator<T>): Result<seq<T>>
    decreases |it.items| - it.next
  {
    match HasNext(t, it)
    case Err(e) => Err(e)
    case Ok(more) =>
      if !more then Ok([])
      else
        match Drain(t, it.(next := it.next + 1))
        case Err(e) => Err(e)
        case Ok(rest) => Ok([it.items[it.next]] + rest)
  }

  /** While `modCount` is unchanged, an iterator delivers the rest of its traversal in order. */
  lemma {:induction false} DrainYieldsItems<T>(t: ArrayBinaryTree<T>, it: TreeIterator<T>)
    requires t.modCount == it.expectedModCount && it.next <= |it.items|
    ensures Drain(t, it) == Ok(it.items[it.next..])
    decreases |it.items| - it.next
  {
    if it.next < |it.items| {
      DrainYieldsItems(t, it.(next := it.next + 1));
      assert HasNext(t, it) == Ok(true);
      assert it.items[it.next..] == [it.items[it.next]] + it.items[it.next + 1..];
    } else {
      assert HasNext(t, it) == Ok(false);
      assert Drain(t, it) == Ok([]);
      assert it.items[it.next..] == [];
    }
  }

  /** Iterating a tree yields its in-order traversal, and on any later state with the same
      `modCount` the iterator never throws `ConcurrentModificationException`. */
  lemma IterationYieldsInOrder<T>(t: ArrayBinaryTree<T>, later: ArrayBinaryTree<T>)
    requires later.modCount == t.modCount
    ensures Drain(later, IteratorInOrder(t)) == Ok(InOrder(Abs(t.tree, 0)))
  {
    DrainYieldsItems(later, IteratorInOrder(t));
  }
}
