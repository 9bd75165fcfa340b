/** The linked binary tree: a root link into a chain of nodes, here the algebraic tree of
    `Trees` itself. Its in-order walk is the ordinary one; its pre-order and post-order walks
    hand each child to the in-order helper, which is modelled as written next to the
    traversals those methods are named after. */
module LinkedTrees {
  import opened Wrappers
  import opened Trees

  datatype LinkedBinaryTree<T> = LinkedBinaryTree(root: Tree<T>)

  /** The empty tree. */
  function Empty<T>(): LinkedBinaryTree<T>
  {
    LinkedBinaryTree(Nil)
  }

  /** The empty tree has no nodes. */
  lemma EmptyHoldsNothing<T>(t: LinkedBinaryTree<T>)
    requires t == Empty()
    ensures Size(t.root) == 0 && IsEmpty(t)
  {
  }

  /** The one-element constructor. */
  function Singleton<T>(element: T): (t: LinkedBinaryTree<T>)
    ensures Size(t.root) == 1 && Elems(t.root) == multiset{element}
    ensures InOrder(t.root) == PreOrderAsWritten(t.root) == PostOrderAsWritten(t.root) == [element]
  {
    LinkedBinaryTree(Node(Nil, element, Nil))
  }

  /** The three-argument constructor: a new root whose subtrees are the roots of the two given
      trees, which are shared, not copied. */
  function Join<T>(element: T, left: LinkedBinaryTree<T>, right: LinkedBinaryTree<T>): (t: LinkedBinaryTree<T>)
    ensures Size(t.root) == Size(left.root) + 1 + Size(right.root)
    ensures Elems(t.root) == Elems(left.root) + multiset{element} + Elems(right.root)
    ensures InOrder(t.root) == InOrder(left.root) + [element] + InOrder(right.root)
    ensures GetRoot(t) == Ok(element)
  {
    LinkedBinaryTree(Node(left.root, element, right.root))
  }

  // ---------------------------------------------------------------------------
  // Search

  /** `findNode`: the node itself if it holds the target, else the first hit in the left
      subtree, else the one in the right subtree. */
  function FindNode<T(==)>(target: T, current: Tree<T>): (r: Option<Tree<T>>)
    ensures r.Some? ==> r.value.Node? && r.value.value == target
    ensures r.None? <==> target !in Elems(current)
  {
    match current
    case Nil => None
    case Node(l, v, r) =>
      if v == target then Some(current)
      else
        var temp := FindNode(target, l);
        if temp.None? then FindNode(target, r) else temp
  }

  /** The subtrees of a tree, one per node, in the order a pre-order walk meets their roots. */
  function Subtrees<T>(t: Tree<T>): (s: seq<Tree<T>>)
    ensures |s| == Size(t)
    ensures forall i | 0 <= i < |s| :: s[i].Node?
  {
    match t
    case Nil => []
    case Node(l, _, r) => [t] + Subtrees(l) + Subtrees(r)
  }

  /** The first subtree in a list whose root holds x. */
  function FirstHolding<T(==)>(s: seq<Tree<T>>, x: T): Option<Tree<T>>
  {
    if s == [] then None
    else if s[0].Node? && s[0].value == x then Some(s[0])
    else FirstHolding(s[1..], x)
  }

  lemma {:induction false} FirstHoldingAppend<T>(a: seq<Tree<T>>, b: seq<Tree<T>>, x: T)
    ensures FirstHolding(a + b, x) == if FirstHolding(a, x).Some? then FirstHolding(a, x) else FirstHolding(b, x)
    decreases |a|
  {
    if a != [] {
      assert (a + b)[0] == a[0];
      assert (a + b)[1..] == a[1..] + b;
      FirstHoldingAppend(a[1..], b, x);
    } else {
      assert a + b == b;
    }
  }

  /** `findNode` returns the node of the first pre-order position holding the target. */
  lemma {:induction false} FindNodeIsFirstInPreOrder<T>(target: T, t: Tree<T>)
    ensures FindNode(target, t) == FirstHolding(Subtrees(t), target)
  {
    match t
    case Nil =>
    case Node(l, v, r) =>
      var s := Subtrees(t);
      assert s[0] == t;
      if v != target {
        assert s[1..] == Subtrees(l) + Subtrees(r);
        assert FirstHolding(s, target) == FirstHolding(Subtrees(l) + Subtrees(r), target);
        FindNodeIsFirstInPreOrder(target, l);
        FindNodeIsFirstInPreOrder(target, r);
        FirstHoldingAppend(Subtrees(l), Subtrees(r), target);
      }
  }

  /** The node a pre-order walk meets first among those holding `x`, if any. */
  function PreOrderFirst<T(==)>(t: Tree<T>, x: T): (r: Option<Tree<T>>)
    ensures r.None? <==> x !in Elems(t)
    ensures r.Some? ==> r.value.Node? && r.value.value == x
  {
    FindNodeIsFirstInPreOrder(x, t);
    FirstHolding(Subtrees(t), x)
  }

  /** `contains`: whether `findNode` finds anything. */
  function Contains<T(==)>(t: LinkedBinaryTree<T>, target: T): (b: bool)
    ensures b <==> target in Elems(t.root)
  {
    FindNode(target, t.root).Some?
  }

  // ---------------------------------------------------------------------------
  // Children and root

  /** `getLeftChild(parent)`: the left child of the node `findNode` picks for the parent. */
  function GetLeftChild<T(==)>(t: LinkedBinaryTree<T>, parent: T): (r: Result<T>)
    ensures r == Err(ElementNotFound) <==> parent !in Elems(t.root)
    ensures r.Ok? || r.error == ElementNotFound || r.error == ChildNotFound(LeftSide)
    ensures r.Ok? ==> r.value in Elems(t.root)
    ensures PreOrderFirst(t.root, parent).Some? ==>
      (r == Err(ChildNotFound(LeftSide)) <==> PreOrderFirst(t.root, parent).value.left.Nil?)
    ensures r.Ok? ==>
      && PreOrderFirst(t.root, parent).Some? && PreOrderFirst(t.root, parent).value.left.Node?
      && r.value == PreOrderFirst(t.root, parent).value.left.value
  {
    FindNodeIsFirstInPreOrder(parent, t.root);
    match FindNode(parent, t.root)
    case None => Err(ElementNotFound)
    case Some(n) =>
      if n.left.Nil? then Err(ChildNotFound(LeftSide))
      else
        FoundNodeInside(parent, t.root);
        Ok(n.left.value)
  }

  /** `getRightChild(parent)`: the right child of the node `findNode` picks for the parent. */
  function GetRightChild<T(==)>(t: LinkedBinaryTree<T>, parent: T): (r: Result<T>)
    ensures r == Err(ElementNotFound) <==> parent !in Elems(t.root)
    ensures r.Ok? || r.error == ElementNotFound || r.error == ChildNotFound(RightSide)
    ensures r.Ok? ==> r.value in Elems(t.root)
    ensures PreOrderFirst(t.root, parent).Some? ==>
      (r == Err(ChildNotFound(RightSide)) <==> PreOrderFirst(t.root, parent).value.right.Nil?)
    ensures r.Ok? ==>
      && PreOrderFirst(t.root, parent).Some? && PreOrderFirst(t.root, parent).value.right.Node?
      && r.value == PreOrderFirst(t.root, parent).value.right.value
  {
    FindNodeIsFirstInPreOrder(parent, t.root);
    match FindNode(parent, t.root)
    case None => Err(ElementNotFound)
    case Some(n) =>
      if n.right.Nil? then Err(ChildNotFound(RightSide))
      else
        FoundNodeInside(parent, t.root);
        Ok(n.right.value)
  }

  /** The node `findNode` returns lies inside the tree searched, children and all. */
  lemma {:induction false} FoundNodeInside<T>(target: T, t: Tree<T>)
    requires FindNode(target, t).Some?
    ensures Elems(FindNode(target, t).value) <= Elems(t)
  {
    match t
    case Nil =>
    case Node(l, v, r) =>
      if v != target {
        if FindNode(target, l).Some? {
          FoundNodeInside(target, l);
        } else {
          FoundNodeInside(target, r);
        }
      }
  }

  /** `getRoot`: the root element, or an empty-collection error. */
  function GetRoot<T>(t: LinkedBinaryTree<T>): (r: Result<T>)
    ensures r.Err? <==> IsEmpty(t)
    ensures r.Err? ==> r.error == EmptyCollection
    ensures r.Ok? ==> r.value in Elems(t.root) && PreOrder(t.root)[0] == r.value
  {
    if IsEmpty(t) then Err(EmptyCollection) else Ok(t.root.value)
  }

  /** `isEmpty`: whether the root link is null. */
  function IsEmpty<T>(t: LinkedBinaryTree<T>): (b: bool)
  {
    t.root.Nil?
  }

  /** `size()` counts the nodes recursively; it is zero exactly for the empty tree and is the
      number of stored elements. */
  lemma SizeCountsNodes<T>(t: LinkedBinaryTree<T>)
    ensures Size(t.root) == 0 <==> IsEmpty(t)
    ensures Size(t.root) == |Elems(t.root)|
  {
    SizeIsElemCount(t.root);
  }

  // ---------------------------------------------------------------------------
  // Traversals

  /** `preOrder`: the node, then each child through the in-order helper. */
  function PreOrderAsWritten<T>(t: Tree<T>): (s: seq<T>)
    ensures multiset(s) == Elems(t)
    ensures t.Node? ==> s[0] == t.value
  {
    match t
    case Nil => []
    case Node(l, v, r) =>
      InOrderListsElems(l);
      InOrderListsElems(r);
      [v] + InOrder(l) + InOrder(r)
  }

  /** `postOrder`: each child through the in-order helper, then the node. */
  function PostOrderAsWritten<T>(t: Tree<T>): (s: seq<T>)
    ensures multiset(s) == Elems(t)
    ensures t.Node? ==> s[|s| - 1] == t.value
  {
    match t
    case Nil => []
    case Node(l, v, r) =>
      InOrderListsElems(l);
      InOrderListsElems(r);
      InOrder(l) + InOrder(r) + [v]
  }

  /** The three iterators: each lists exactly the stored elements. */
  function IteratorInOrder<T>(t: LinkedBinaryTree<T>): (s: seq<T>)
    ensures multiset(s) == Elems(t.root) && |s| == Size(t.root)
  {
    InOrderListsElems(t.root);
    SizeIsElemCount(t.root);
    InOrder(t.root)
  }

  function IteratorPreOrderAsWritten<T>(t: LinkedBinaryTree<T>): (s: seq<T>)
    ensures multiset(s) == Elems(t.root) && |s| == Size(t.root)
  {
    SizeIsElemCount(t.root);
    PreOrderAsWritten(t.root)
  }

  function IteratorPostOrderAsWritten<T>(t: LinkedBinaryTree<T>): (s: seq<T>)
    ensures multiset(s) == Elems(t.root) && |s| == Size(t.root)
  {
    SizeIsElemCount(t.root);
    PostOrderAsWritten(t.root)
  }

  /** On a search tree the in-order iterator is non-decreasing. */
  lemma InOrderIteratorSorted(t: LinkedBinaryTree<int>)
    requires IsBst(t.root)
    ensures Sorted(IteratorInOrder(t))
  {
    InOrderSorted(t.root);
  }

  /** The as-written pre-order walk lists a left spine below the root in in-order: the tree
      3 <- 2 <- 1 (each node the left child of the one before) comes out as 3, 1, 2, where a
      pre-order walk lists 3, 2, 1. */
  lemma PreOrderAsWrittenMisorders(t: Tree<int>)
    requires t == Node(Node(Node(Nil, 1, Nil), 2, Nil), 3, Nil)
    ensures PreOrderAsWritten(t) == [3, 1, 2] && PreOrder(t) == [3, 2, 1]
  {
    assert PreOrderAsWritten(t) == [3, 1, 2] by {
      PreOrderAsWrittenOfSpine(t);
    }
    PreOrderOfSpine(t);
  }

  lemma PreOrderAsWrittenOfSpine(t: Tree<int>)
    requires t == Node(Node(Node(Nil, 1, Nil), 2, Nil), 3, Nil)
    ensures PreOrderAsWritten(t) == [3, 1, 2]
  {
  }

  lemma PreOrderOfSpine(t: Tree<int>)
    requires t == Node(Node(Node(Nil, 1, Nil), 2, Nil), 3, Nil)
    ensures PreOrder(t) == [3, 2, 1]
  {
  }

  /** The as-written post-order walk on the mirror image, 1 -> 2 -> 3 down right links,
      lists 2, 3, 1, where a post-order walk lists 3, 2, 1. */
  lemma PostOrderAsWrittenMisorders(t: Tree<int>)
    requires t == Node(Nil, 1, Node(Nil, 2, Node(Nil, 3, Nil)))
    ensures PostOrderAsWritten(t) == [2, 3, 1] && PostOrder(t) == [3, 2, 1]
  {
    assert PostOrderAsWritten(t) == [2, 3, 1] by {
      PostOrderAsWrittenOfSpine(t);
    }
    PostOrderOfSpine(t);
  }

  lemma PostOrderAsWrittenOfSpine(t: Tree<int>)
    requires t == Node(Nil, 1, Node(Nil, 2, Node(Nil, 3, Nil)))
    ensures PostOrderAsWritten(t) == [2, 3, 1]
  {
  }

  lemma PostOrderOfSpine(t: Tree<int>)
    requires t == Node(Nil, 1, Node(Nil, 2, Node(Nil, 3, Nil)))
    ensures PostOrder(t) == [3, 2, 1]
  {
  }

  /** The as-written walks agree with the pre-order and post-order walks when neither child
      has children of its own, since the in-order walk of such a child is the child alone. */
  lemma PreOrderAsWrittenAgreesOnShallowTrees<T>(t: Tree<T>)
    requires t.Node? ==> (t.left.Nil? || (t.left.left.Nil? && t.left.right.Nil?))
    requires t.Node? ==> (t.right.Nil? || (t.right.left.Nil? && t.right.right.Nil?))
    ensures PreOrderAsWritten(t) == PreOrder(t)
  {
    match t
    case Nil =>
    case Node(l, v, r) =>
      ShallowWalks(l);
      ShallowWalks(r);
  }

  lemma PostOrderAsWrittenAgreesOnShallowTrees<T>(t: Tree<T>)
    requires t.Node? ==> (t.left.Nil? || (t.left.left.Nil? && t.left.right.Nil?))
    requires t.Node? ==> (t.right.Nil? || (t.right.left.Nil? && t.right.right.Nil?))
    ensures PostOrderAsWritten(t) == PostOrder(t)
  {
    match t
    case Nil =>
    case Node(l, v, r) =>
      ShallowWalks(l);
      ShallowWalks(r);
  }

  /** A missing child or a leaf is walked the same way by all three walks. */
  lemma ShallowWalks<T>(n: Tree<T>)
    requires n.Nil? || (n.left.Nil? && n.right.Nil?)
    ensures InOrder(n) == PreOrder(n) == PostOrder(n)
  {
    if n.Node? {
      assert InOrder(n) == [n.value];
      assert PreOrder(n) == [n.value];
      assert PostOrder(n) == [n.value];
    }
  }

  lemma {:induction false} PreOrderLength<T>(t: Tree<T>)
    ensures |PreOrder(t)| == Size(t)
  {
    match t
    case Nil =>
    case Node(l, _, r) =>
      PreOrderLength(l);
      PreOrderLength(r);
  }

  lemma {:induction false} PostOrderLength<T>(t: Tree<T>)
    ensures |PostOrder(t)| == Size(t)
  {
    match t
    case Nil =>
    case Node(l, _, r) =>
      PostOrderLength(l);
      PostOrderLength(r);
  }

  /** A slice inside the middle part of a concatenation is a slice of that part. */
  lemma SliceOfMiddle<T>(x: seq<T>, a: seq<T>, y: seq<T>, k: nat, m: nat)
    requires |x| <= k && k - |x| + m <= |a|
    ensures k + m <= |x + a + y|
    ensures (x + a + y)[k..k + m] == a[k - |x|..k - |x| + m]
  {
    var u := (x + a + y)[k..k + m];
    var w := a[k - |x|..k - |x| + m];
    forall j | 0 <= j < |u| ensures u[j] == w[j] {
    }
  }

  /** The pre-order block property of one subtree `n` at position i of a walk `s`. */
  ghost predicate PreBlock<T>(s: seq<T>, i: nat, n: Tree<T>)
  {
    n.Node? && i + Size(n) <= |s| && s[i..i + Size(n)] == PreOrder(n) && s[i] == n.value
  }

  /** The corrected pre-order walk lists every subtree as one block that starts at its root:
      the block of the i-th subtree begins at position i and is that subtree's own walk. */
  lemma {:induction false} PreOrderListsSubtreesAsBlocks<T>(t: Tree<T>, i: nat)
    requires i < Size(t)
    ensures PreBlock(PreOrder(t), i, Subtrees(t)[i])
  {
    var Node(l, v, r) := t;
    if i == 0 {
      PreBlockAtRoot(l, v, r);
    } else if i <= Size(l) {
      PreOrderListsSubtreesAsBlocks(l, i - 1);
      PreBlockInLeft(l, v, r, i);
    } else {
      PreOrderListsSubtreesAsBlocks(r, i - 1 - Size(l));
      PreBlockInRight(l, v, r, i);
    }
  }

  lemma PreBlockAtRoot<T>(l: Tree<T>, v: T, r: Tree<T>)
    ensures PreBlock(PreOrder(Node(l, v, r)), 0, Subtrees(Node(l, v, r))[0])
  {
    var t := Node(l, v, r);
    PreOrderLength(t);
    assert Subtrees(t)[0] == t;
    assert PreOrder(t)[0..Size(t)] == PreOrder(t);
  }

  lemma PreBlockInLeft<T>(l: Tree<T>, v: T, r: Tree<T>, i: nat)
    requires 1 <= i <= Size(l)
    requires PreBlock(PreOrder(l), i - 1, Subtrees(l)[i - 1])
    ensures PreBlock(PreOrder(Node(l, v, r)), i, Subtrees(Node(l, v, r))[i])
  {
    var t := Node(l, v, r);
    MiddleIndex([t], Subtrees(l), Subtrees(r), i - 1);
    PreBlockShifts([v], PreOrder(l), PreOrder(r), i - 1, i, Subtrees(l)[i - 1]);
  }

  lemma PreBlockInRight<T>(l: Tree<T>, v: T, r: Tree<T>, i: nat)
    requires Size(l) < i < 1 + Size(l) + Size(r)
    requires PreBlock(PreOrder(r), i - 1 - Size(l), Subtrees(r)[i - 1 - Size(l)])
    ensures PreBlock(PreOrder(Node(l, v, r)), i, Subtrees(Node(l, v, r))[i])
  {
    var t, j := Node(l, v, r), i - 1 - Size(l);
    PreOrderLength(l);
    TailIndex([t] + Subtrees(l), Subtrees(r), j);
    PreBlockShifts([v] + PreOrder(l), PreOrder(r), [], j, i, Subtrees(r)[j]);
    assert ([v] + PreOrder(l)) + PreOrder(r) + [] == PreOrder(t);
  }

  /** A block of a part is a block of the whole, moved by the length of what precedes it. */
  lemma PreBlockShifts<T>(x: seq<T>, a: seq<T>, y: seq<T>, j: nat, k: nat, n: Tree<T>)
    requires PreBlock(a, j, n) && k == |x| + j
    ensures PreBlock(x + a + y, k, n)
  {
    SliceOfMiddle(x, a, y, k, Size(n));
  }

  /** The subtrees of a tree in the order a post-order walk finishes them. */
  function SubtreesPost<T>(t: Tree<T>): (s: seq<Tree<T>>)
    ensures |s| == Size(t)
    ensures forall i | 0 <= i < |s| :: s[i].Node?
  {
    match t
    case Nil => []
    case Node(l, _, r) => SubtreesPost(l) + SubtreesPost(r) + [t]
  }

  /** The post-order block property of one subtree `n` ending at position i of a walk `s`. */
  ghost predicate PostBlock<T>(s: seq<T>, i: nat, n: Tree<T>)
  {
    n.Node? && Size(n) <= i + 1 <= |s| && s[i + 1 - Size(n)..i + 1] == PostOrder(n) && s[i] == n.value
  }

  /** The corrected post-order walk lists every subtree as one block that ends at its root:
      the block of the i-th subtree ends at position i and is that subtree's own walk. */
  lemma {:induction false} PostOrderListsSubtreesAsBlocks<T>(t: Tree<T>, i: nat)
    requires i < Size(t)
    ensures PostBlock(PostOrder(t), i, SubtreesPost(t)[i])
  {
    match t
    case Node(l, v, r) =>
      if i == Size(t) - 1 {
        PostBlockAtRoot(l, v, r);
      } else if i < Size(l) {
        PostOrderListsSubtreesAsBlocks(l, i);
        PostBlockInLeft(l, v, r, i);
      } else {
        PostOrderListsSubtreesAsBlocks(r, i - Size(l));
        PostBlockInRight(l, v, r, i);
      }
  }

  lemma PostBlockAtRoot<T>(l: Tree<T>, v: T, r: Tree<T>)
    ensures PostBlock(PostOrder(Node(l, v, r)), Size(l) + Size(r), SubtreesPost(Node(l, v, r))[Size(l) + Size(r)])
  {
    var t, i := Node(l, v, r), Size(l) + Size(r);
    PostOrderLength(l);
    PostOrderLength(r);
    var before, walk := SubtreesPost(l) + SubtreesPost(r), PostOrder(l) + PostOrder(r);
    assert SubtreesPost(t) == before + [t] && |before| == i;
    assert PostOrder(t) == walk + [v] && |walk| == i;
    assert Size(t) == i + 1;
    assert PostOrder(t)[0..i + 1] == PostOrder(t);
  }

  lemma PostBlockInLeft<T>(l: Tree<T>, v: T, r: Tree<T>, i: nat)
    requires i < Size(l)
    requires PostBlock(PostOrder(l), i, SubtreesPost(l)[i])
    ensures PostBlock(PostOrder(Node(l, v, r)), i, SubtreesPost(Node(l, v, r))[i])
  {
    SubtreesPostIndex(l, v, r, i);
    PostBlockShifts([], PostOrder(l), PostOrder(r) + [v], i, i, SubtreesPost(l)[i]);
    assert [] + PostOrder(l) + (PostOrder(r) + [v]) == PostOrder(Node(l, v, r));
  }

  lemma PostBlockInRight<T>(l: Tree<T>, v: T, r: Tree<T>, i: nat)
    requires Size(l) <= i < Size(l) + Size(r)
    requires PostBlock(PostOrder(r), i - Size(l), SubtreesPost(r)[i - Size(l)])
    ensures PostBlock(PostOrder(Node(l, v, r)), i, SubtreesPost(Node(l, v, r))[i])
  {
    SubtreesPostIndex(l, v, r, i);
    PostOrderLength(l);
    PostBlockShifts(PostOrder(l), PostOrder(r), [v], i - Size(l), i, SubtreesPost(r)[i - Size(l)]);
  }

  /** The i-th subtree of a node's post-order list comes from its left or its right subtree. */
  lemma SubtreesPostIndex<T>(l: Tree<T>, v: T, r: Tree<T>, i: nat)
    requires i < Size(l) + Size(r)
    ensures i < Size(l) ==> SubtreesPost(Node(l, v, r))[i] == SubtreesPost(l)[i]
    ensures Size(l) <= i ==> SubtreesPost(Node(l, v, r))[i] == SubtreesPost(r)[i - Size(l)]
  {
    var t, x, a := Node(l, v, r), SubtreesPost(l), SubtreesPost(r);
    assert SubtreesPost(t) == x + a + [t] && |x| == Size(l);
    if i < Size(l) {
      assert (x + a + [t])[i] == x[i];
    } else {
      MiddleIndex(x, a, [t], i - Size(l));
    }
  }

  lemma MiddleIndex<U>(x: seq<U>, a: seq<U>, y: seq<U>, j: nat)
    requires j < |a|
    ensures (x + a + y)[|x| + j] == a[j]
  {
  }

  lemma TailIndex<U>(x: seq<U>, a: seq<U>, j: nat)
    requires j < |a|
    ensures (x + a)[|x| + j] == a[j]
  {
  }

  lemma PostBlockShifts<T>(x: seq<T>, a: seq<T>, y: seq<T>, j: nat, k: nat, n: Tree<T>)
    requires PostBlock(a, j, n) && k == |x| + j
    ensures PostBlock(x + a + y, k, n)
  {
    SliceOfMiddle(x, a, y, k + 1 - Size(n), Size(n));
  }

  /** The corrected pre-order and post-order iterators. */
  function IteratorPreOrder<T>(t: LinkedBinaryTree<T>): (s: seq<T>)
    ensures multiset(s) == Elems(t.root) && |s| == Size(t.root)
    ensures forall i | 0 <= i < Size(t.root) :: s[i] == Subtrees(t.root)[i].value
  {
    PreOrderListsElems(t.root);
    SizeIsElemCount(t.root);
    forall i | 0 <= i < Size(t.root) ensures PreOrder(t.root)[i] == Subtrees(t.root)[i].value {
      PreOrderListsSubtreesAsBlocks(t.root, i);
    }
    PreOrder(t.root)
  }

  function IteratorPostOrder<T>(t: LinkedBinaryTree<T>): (s: seq<T>)
    ensures multiset(s) == Elems(t.root) && |s| == Size(t.root)
    ensures forall i | 0 <= i < Size(t.root) :: s[i] == SubtreesPost(t.root)[i].value
  {
    PostOrderListsElems(t.root);
    SizeIsElemCount(t.root);
    forall i | 0 <= i < Size(t.root) ensures PostOrder(t.root)[i] == SubtreesPost(t.root)[i].value {
      PostOrderListsSubtreesAsBlocks(t.root, i);
    }
    PostOrder(t.root)
  }
}
