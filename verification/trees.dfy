/** Binary trees as an algebraic datatype. This is the abstract value that both the
    array-backed tree and the linked tree stand for, and the place where the search-tree
    order and the reference insert and delete are defined once. */
module Trees {

  datatype Tree<T> = Nil | Node(left: Tree<T>, value: T, right: Tree<T>)

  function Size<T>(t: Tree<T>): nat
  {
    match t
    case Nil => 0
    case Node(l, _, r) => Size(l) + 1 + Size(r)
  }

  /** The elements stored in a tree, with multiplicity. */
  function Elems<T>(t: Tree<T>): multiset<T>
  {
    match t
    case Nil => multiset{}
    case Node(l, v, r) => Elems(l) + multiset{v} + Elems(r)
  }

  function InOrder<T>(t: Tree<T>): seq<T>
  {
    match t
    case Nil => []
    case Node(l, v, r) => InOrder(l) + [v] + InOrder(r)
  }

  function PreOrder<T>(t: Tree<T>): seq<T>
  {
    match t
    case Nil => []
    case Node(l, v, r) => [v] + PreOrder(l) + PreOrder(r)
  }

  function PostOrder<T>(t: Tree<T>): seq<T>
  {
    match t
    case Nil => []
    case Node(l, v, r) => PostOrder(l) + PostOrder(r) + [v]
  }

  /** Every traversal lists each element exactly once. */
  lemma {:induction false} InOrderListsElems<T>(t: Tree<T>)
    ensures multiset(InOrder(t)) == Elems(t)
  {
    match t
    case Nil =>
    case Node(l, v, r) =>
      InOrderListsElems(l);
      InOrderListsElems(r);
      calc {
        multiset(InOrder(t));
        multiset(InOrder(l) + [v]) + multiset(InOrder(r));
        multiset(InOrder(l)) + multiset{v} + multiset(InOrder(r));
      }
  }

  lemma {:induction false} PreOrderListsElems<T>(t: Tree<T>)
    ensures multiset(PreOrder(t)) == Elems(t)
  {
    match t
    case Nil =>
    case Node(l, v, r) =>
      PreOrderListsElems(l);
      PreOrderListsElems(r);
      calc {
        multiset(PreOrder(t));
        multiset([v] + PreOrder(l)) + multiset(PreOrder(r));
        multiset{v} + multiset(PreOrder(l)) + multiset(PreOrder(r));
      }
  }

  lemma {:induction false} PostOrderListsElems<T>(t: Tree<T>)
    ensures multiset(PostOrder(t)) == Elems(t)
  {
    match t
    case Nil =>
    case Node(l, v, r) =>
      PostOrderListsElems(l);
      PostOrderListsElems(r);
      calc {
        multiset(PostOrder(t));
        multiset(PostOrder(l) + PostOrder(r)) + multiset{v};
        multiset(PostOrder(l)) + multiset(PostOrder(r)) + multiset{v};
      }
  }

  lemma {:induction false} SizeIsElemCount<T>(t: Tree<T>)
    ensures |Elems(t)| == Size(t)
  {
    match t
    case Nil =>
    case Node(l, v, r) =>
      SizeIsElemCount(l);
      SizeIsElemCount(r);
  }

  // ---------------------------------------------------------------------------
  // Search trees

  /** The search-tree order: everything on the left is smaller than the node, everything on
      the right is at least the node, so equal keys sit to the right. */
  predicate IsBst(t: Tree<int>)
  {
    match t
    case Nil => true
    case Node(l, v, r) =>
      IsBst(l) && IsBst(r)
      && (forall x | x in Elems(l) :: x < v)
      && (forall x | x in Elems(r) :: v <= x)
  }

  predicate Sorted(s: seq<int>)
  {
    forall i, j | 0 <= i < j < |s| :: s[i] <= s[j]
  }

  /** Two sorted runs joined around a pivot that separates them form a sorted run. */
  lemma SortedAround(a: seq<int>, v: int, b: seq<int>)
    requires Sorted(a) && Sorted(b)
    requires forall x | x in a :: x <= v
    requires forall x | x in b :: v <= x
    ensures Sorted(a + [v] + b)
  {
    var s := a + [v] + b;
    forall i, j | 0 <= i < j < |s|
      ensures s[i] <= s[j]
    {
      if j < |a| {
        assert s[i] == a[i] && s[j] == a[j];
      } else if i > |a| {
        assert s[i] == b[i - |a| - 1] && s[j] == b[j - |a| - 1];
      } else {
        assert s[i] <= v by {
          if i < |a| {
            assert s[i] == a[i] && a[i] in a;
          }
        }
        assert v <= s[j] by {
          if j > |a| {
            assert s[j] == b[j - |a| - 1] && b[j - |a| - 1] in b;
          }
        }
      }
    }
  }

  /** On a search tree the in-order walk is non-decreasing. */
  lemma {:induction false} InOrderSorted(t: Tree<int>)
    requires IsBst(t)
    ensures Sorted(InOrder(t))
  {
    match t
    case Nil =>
    case Node(l, v, r) =>
      InOrderSorted(l);
      InOrderSorted(r);
      InOrderListsElems(l);
      InOrderListsElems(r);
      assert forall x | x in InOrder(l) :: x in multiset(InOrder(l));
      assert forall x | x in InOrder(r) :: x in multiset(InOrder(r));
      SortedAround(InOrder(l), v, InOrder(r));
  }

  /** Reference insertion: smaller keys go left, the rest go right, and the new key becomes a
      leaf where the walk falls off the tree. */
  function Insert(t: Tree<int>, x: int): (r: Tree<int>)
    ensures r.Node? && Size(r) == Size(t) + 1
  {
    match t
    case Nil => Node(Nil, x, Nil)
    case Node(l, v, rt) =>
      if x < v then Node(Insert(l, x), v, rt) else Node(l, v, Insert(rt, x))
  }

  /** Insertion adds exactly one copy of the key... */
  lemma {:induction false} InsertElems(t: Tree<int>, x: int)
    ensures Elems(Insert(t, x)) == Elems(t) + multiset{x}
  {
    match t
    case Nil =>
    case Node(l, v, rt) =>
      if x < v {
        InsertElems(l, x);
        assert Insert(t, x) == Node(Insert(l, x), v, rt);
      } else {
        InsertElems(rt, x);
        assert Insert(t, x) == Node(l, v, Insert(rt, x));
      }
  }

  /** ... and keeps the search-tree order. */
  lemma {:induction false} InsertKeepsOrder(t: Tree<int>, x: int)
    requires IsBst(t)
    ensures IsBst(Insert(t, x))
  {
    match t
    case Nil =>
    case Node(l, v, rt) =>
      if x < v {
        var n := Insert(l, x);
        InsertKeepsOrder(l, x);
        InsertElems(l, x);
        assert forall y | y in Elems(n) :: y < v by {
          forall y | y in Elems(n) ensures y < v {
            assert y in Elems(l) || y == x;
          }
        }
        assert Insert(t, x) == Node(n, v, rt);
      } else {
        var n := Insert(rt, x);
        InsertKeepsOrder(rt, x);
        InsertElems(rt, x);
        assert forall y | y in Elems(n) :: v <= y by {
          forall y | y in Elems(n) ensures v <= y {
            assert y in Elems(rt) || y == x;
          }
        }
        assert Insert(t, x) == Node(l, v, n);
      }
  }

  /** The leftmost element. */
  function Min(t: Tree<int>): (m: int)
    requires t.Node?
    ensures m in Elems(t)
    ensures IsBst(t) ==> forall x | x in Elems(t) :: m <= x
  {
    if t.left.Nil? then t.value else Min(t.left)
  }

  /** The rightmost element. */
  function Max(t: Tree<int>): (m: int)
    requires t.Node?
    ensures m in Elems(t)
    ensures IsBst(t) ==> forall x | x in Elems(t) :: x <= m
  {
    if t.right.Nil? then t.value else Max(t.right)
  }

  /** Removes the leftmost node; its right subtree takes its place. */
  function RemoveMin(t: Tree<int>): (r: Tree<int>)
    requires t.Node?
    ensures Size(r) == Size(t) - 1
  {
    if t.left.Nil? then t.right else Node(RemoveMin(t.left), t.value, t.right)
  }

  /** Removes the rightmost node; its left subtree takes its place. */
  function RemoveMax(t: Tree<int>): (r: Tree<int>)
    requires t.Node?
    ensures Size(r) == Size(t) - 1
  {
    if t.right.Nil? then t.left else Node(t.left, t.value, RemoveMax(t.right))
  }

  /** Removing the leftmost node removes exactly one copy of the minimum. */
  lemma {:induction false} RemoveMinElems(t: Tree<int>)
    requires t.Node?
    ensures Elems(RemoveMin(t)) == Elems(t) - multiset{Min(t)}
  {
    if t.left.Node? {
      RemoveMinElems(t.left);
      RemoveInside(Elems(t.left), Min(t.left), Elems(RemoveMin(t.left)), t.value, Elems(t.right));
    }
  }

  lemma {:induction false} RemoveMaxElems(t: Tree<int>)
    requires t.Node?
    ensures Elems(RemoveMax(t)) == Elems(t) - multiset{Max(t)}
  {
    if t.right.Node? {
      RemoveMaxElems(t.right);
      RemoveInside(Elems(t.right), Max(t.right), Elems(RemoveMax(t.right)), t.value, Elems(t.left));
    }
  }

  /** Both removals keep the search-tree order. */
  lemma {:induction false} RemoveMinKeepsOrder(t: Tree<int>)
    requires t.Node? && IsBst(t)
    ensures IsBst(RemoveMin(t))
  {
    if t.left.Node? {
      RemoveMinKeepsOrder(t.left);
      RemoveMinElems(t.left);
      assert forall x | x in Elems(RemoveMin(t.left)) :: x in Elems(t.left);
    }
  }

  lemma {:induction false} RemoveMaxKeepsOrder(t: Tree<int>)
    requires t.Node? && IsBst(t)
    ensures IsBst(RemoveMax(t))
  {
    if t.right.Node? {
      RemoveMaxKeepsOrder(t.right);
      RemoveMaxElems(t.right);
      assert forall x | x in Elems(RemoveMax(t.right)) :: x in Elems(t.right);
    }
  }

  /** Reference deletion of the root: a missing child lets the other subtree move up, and with
      two children the leftmost element of the right subtree takes the root's place. */
  function RemoveRoot(t: Tree<int>): (r: Tree<int>)
    requires t.Node?
    ensures Size(r) == Size(t) - 1
  {
    if t.left.Nil? then t.right
    else if t.right.Nil? then t.left
    else Node(t.left, Min(t.right), RemoveMin(t.right))
  }

  /** Deleting the root removes exactly one copy of the root's key... */
  lemma RemoveRootElems(t: Tree<int>)
    requires t.Node?
    ensures Elems(RemoveRoot(t)) == Elems(t) - multiset{t.value}
  {
    if t.left.Node? && t.right.Node? {
      RemoveMinElems(t.right);
      ReplaceRoot(Elems(t.left), t.value, Min(t.right), Elems(t.right), Elems(RemoveMin(t.right)));
    }
  }

  /** ... and keeps the search-tree order. */
  lemma RemoveRootKeepsOrder(t: Tree<int>)
    requires t.Node? && IsBst(t)
    ensures IsBst(RemoveRoot(t))
  {
    if t.left.Node? && t.right.Node? {
      var rest := RemoveMin(t.right);
      RemoveMinElems(t.right);
      RemoveMinKeepsOrder(t.right);
      assert forall x | x in Elems(rest) :: x in Elems(t.right);
    }
  }

  /** Removing an element from one side of a node removes it from the whole. */
  lemma RemoveInside<T>(side: multiset<T>, m: T, rest: multiset<T>, v: T, other: multiset<T>)
    requires m in side && rest == side - multiset{m}
    ensures rest + multiset{v} + other == side + multiset{v} + other - multiset{m}
    ensures other + multiset{v} + rest == other + multiset{v} + side - multiset{m}
  {
    assert side == rest + multiset{m};
  }

  /** Moving an element m of the right side into the root, in place of v, removes v. */
  lemma ReplaceRoot<T>(l: multiset<T>, v: T, m: T, r: multiset<T>, rest: multiset<T>)
    requires m in r && rest == r - multiset{m}
    ensures l + multiset{m} + rest == l + multiset{v} + r - multiset{v}
  {
    assert r == rest + multiset{m};
  }
}
