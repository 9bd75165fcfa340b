/** The slot-level half of the array search tree: `replace`, which deletes the element at one
    slot by moving a subtree up or pulling in the in-order successor, the insertion walk, and
    the lemmas that read both as the reference operations on `Tree`. */
module BstReplace {
  import opened Wrappers
  import opened HeapIndex
  import opened Trees
  import opened ArrayTrees
  import opened LevelOrder
  import opened Shifts

  /** `Math.pow(2, height) - 2`, the bound the level-order walks compare child slots against. A
      negative height (the value the height formula gives an empty tree) makes the power vanish,
      so the bound is -2. */
  function LevelBound(height: int): (b: int)
    ensures height >= 1 ==> b >= 0 && b % 2 == 0
    ensures b >= -2
  {
    if height < 0 then -2 else Pow2(height) - 2
  }

  // ---------------------------------------------------------------------------
  // The in-order successor

  /** The successor descent of `replace`: from slot q, follow left children while there is one. */
  function Leftmost(a: seq<Option<int>>, q: nat): (s: nat)
    ensures Get(a, Left(s)).None?
    decreases if q < |a| then |a| - q else 0
  {
    if Get(a, Left(q)).Some? then Leftmost(a, Left(q)) else q
  }

  /** The descent ends inside the subtree, on the slot holding its least element. */
  lemma {:induction false} LeftmostIsMin(a: seq<Option<int>>, q: nat)
    requires Get(a, q).Some?
    ensures InSub(q, Leftmost(a, q))
    ensures Get(a, Leftmost(a, q)) == Some(Min(Abs(a, q)))
    decreases if q < |a| then |a| - q else 0
  {
    if Get(a, Left(q)).Some? {
      LeftmostIsMin(a, Left(q));
      ChildrenInSub(q);
      InSubTransitive(q, Left(q), Leftmost(a, Left(q)));
    }
  }

  /** Replacing the leftmost slot of the subtree at q by its right subtree, and touching nothing
      else of that subtree, removes the least element: the subtree becomes `RemoveMin`. */
  lemma {:induction false} RemoveLeftmost(a: seq<Option<int>>, r: seq<Option<int>>, q: nat)
    requires Get(a, q).Some?
    requires Abs(r, Leftmost(a, q)) == Abs(a, Right(Leftmost(a, q)))
    requires forall p | InSub(q, p) && !InSub(Leftmost(a, q), p) :: Get(r, p) == Get(a, p)
    ensures Abs(r, q) == RemoveMin(Abs(a, q))
    decreases if q < |a| then |a| - q else 0
  {
    var s := Leftmost(a, q);
    if s != q {
      var l := Left(q);
      LeftmostIsMin(a, l);
      ChildrenInSub(q);
      forall p | InSub(l, p) && !InSub(s, p) ensures Get(r, p) == Get(a, p) {
        InSubTransitive(q, l, p);
      }
      RemoveLeftmost(a, r, l);
      forall p | InSub(Right(q), p) ensures Get(r, p) == Get(a, p) {
        InSubTransitive(q, Right(q), p);
        if InSub(s, p) {
          InSubTransitive(l, s, p);
          SiblingsDisjoint(q, p);
        }
      }
      AbsFrame(r, a, Right(q));
      assert !InSub(s, q) by {
        InSubOfChild(q, s);
      }
      assert Get(r, q) == Get(a, q);
    }
  }

  /** The mirror descent, used by `removeMax` and `findMax`: follow right children. */
  function Rightmost(a: seq<Option<int>>, q: nat): (s: nat)
    ensures Get(a, Right(s)).None?
    decreases if q < |a| then |a| - q else 0
  {
    if Get(a, Right(q)).Some? then Rightmost(a, Right(q)) else q
  }

  lemma {:induction false} RightmostIsMax(a: seq<Option<int>>, q: nat)
    requires Get(a, q).Some?
    ensures InSub(q, Rightmost(a, q))
    ensures Get(a, Rightmost(a, q)) == Some(Max(Abs(a, q)))
    decreases if q < |a| then |a| - q else 0
  {
    if Get(a, Right(q)).Some? {
      RightmostIsMax(a, Right(q));
      ChildrenInSub(q);
      InSubTransitive(q, Right(q), Rightmost(a, Right(q)));
    }
  }

  /** Replacing the rightmost slot of the subtree at q by its left subtree removes the greatest
      element. */
  lemma {:induction false} RemoveRightmost(a: seq<Option<int>>, r: seq<Option<int>>, q: nat)
    requires Get(a, q).Some?
    requires Abs(r, Rightmost(a, q)) == Abs(a, Left(Rightmost(a, q)))
    requires forall p | InSub(q, p) && !InSub(Rightmost(a, q), p) :: Get(r, p) == Get(a, p)
    ensures Abs(r, q) == RemoveMax(Abs(a, q))
    decreases if q < |a| then |a| - q else 0
  {
    var s := Rightmost(a, q);
    if s != q {
      var rc := Right(q);
      RightmostIsMax(a, rc);
      ChildrenInSub(q);
      forall p | InSub(rc, p) && !InSub(s, p) ensures Get(r, p) == Get(a, p) {
        InSubTransitive(q, rc, p);
      }
      RemoveRightmost(a, r, rc);
      forall p | InSub(Left(q), p) ensures Get(r, p) == Get(a, p) {
        InSubTransitive(q, Left(q), p);
        if InSub(s, p) {
          InSubTransitive(rc, s, p);
          SiblingsDisjoint(q, p);
        }
      }
      AbsFrame(r, a, Left(q));
      assert !InSub(s, q) by {
        InSubOfChild(q, s);
      }
      assert Get(r, q) == Get(a, q);
    }
  }

  // ---------------------------------------------------------------------------
  // Clearing and moving up

  /** Clearing a slot whose children are both null keeps every element reachable, empties the
      subtree there and touches nothing else. */
  lemma ClearLeaf(a: seq<Option<int>>, s: nat, m: int)
    requires Occupied(a) && NoneAbove(a, m)
    requires Get(a, Left(s)).None? && Get(a, Right(s)).None?
    ensures Occupied(Put(a, s, None)) && NoneAbove(Put(a, s, None), m)
    ensures Abs(Put(a, s, None), s) == Nil
  {
    var r := Put(a, s, None);
    forall p | 0 < p < |r| && r[p].Some? ensures r[Parent(p)].Some? {
      assert Get(r, p) == r[p] && Get(a, p).Some?;
      ChildOfParent(p);
      assert Get(r, Parent(p)) == r[Parent(p)];
    }
    forall p: nat | m < p < |r| ensures r[p].None? {
      assert Get(r, p) == r[p];
    }
  }

  /** `ShiftUp` lifts the subtree of child c into the slot t when the other child's subtree is
      empty and nothing is stored above the bound: the subtree at t becomes the one at c, the
      rest of the array is untouched, and the array keeps its shape. */
  lemma MoveUp(a: seq<Option<int>>, t: nat, c: nat, bound: int, m: int)
    requires IsChild(t, c) && bound % 2 == 0
    requires Occupied(a) && NoneAbove(a, m) && m <= bound
    requires Get(a, Sibling(t, c)).None?
    ensures Abs(ShiftUp(a, t, c, bound), t) == Abs(a, c)
    ensures forall p | !InSub(t, p) :: Get(ShiftUp(a, t, c, bound), p) == Get(a, p)
    ensures Occupied(ShiftUp(a, t, c, bound)) && NoneAbove(ShiftUp(a, t, c, bound), m)
  {
    SubtreeEmpty(a, Sibling(t, c));
    forall p: nat | p > bound ensures Get(a, p).None? {
    }
    ShiftUpMoves(a, t, c, bound);
    ShiftUpKeepsShape(a, t, c, bound, m);
    AbsMirror(ShiftUp(a, t, c, bound), t, a, c);
  }

  // ---------------------------------------------------------------------------
  // replace

  /** `replace(targetIndex)`, with every slot past the end of the array reading as null and
      never written (see `ShiftUp` for the copy). */
  function Replace(a: seq<Option<int>>, t: nat, bound: int): (r: seq<Option<int>>)
    ensures |r| == |a|
  {
    if Left(t) >= |a| || Right(t) >= |a| then Put(a, t, None)
    else if a[Left(t)].None? && a[Right(t)].None? then Put(a, t, None)
    else if a[Left(t)].Some? && a[Right(t)].None? then ShiftUp(a, t, Left(t), bound)
    else if a[Left(t)].None? && a[Right(t)].Some? then ShiftUp(a, t, Right(t), bound)
    else
      var s := Leftmost(a, Right(t));
      DropSlot(Put(a, t, Get(a, s)), s, bound)
  }

  /** `replace`, two-child case: the successor's slot, whose value has just been copied up,
      takes its right subtree, or is cleared when it has none. */
  function DropSlot(a: seq<Option<int>>, s: nat, bound: int): (r: seq<Option<int>>)
    ensures |r| == |a|
  {
    if Get(a, Right(s)).Some? then ShiftUp(a, s, Right(s), bound) else Put(a, s, None)
  }

  /** Dropping a slot without a left child puts its right subtree in its place. */
  lemma DropSlotLiftsRight(a: seq<Option<int>>, s: nat, bound: int, m: int)
    requires ReplaceReady(a, m, bound) && Get(a, Left(s)).None?
    ensures Abs(DropSlot(a, s, bound), s) == Abs(a, Right(s))
    ensures forall p | !InSub(s, p) :: Get(DropSlot(a, s, bound), p) == Get(a, p)
    ensures ReplaceReady(DropSlot(a, s, bound), m, bound)
  {
    if Get(a, Right(s)).Some? {
      assert Right(s) <= m;
      MoveUp(a, s, Right(s), bound, m);
    } else {
      ClearLeaf(a, s, m);
    }
  }

  /** The array invariants `replace` relies on: every element reachable, nothing above slot m,
      m at most two below the length, and, once anything is stored below the root, an even
      level bound at least m. */
  predicate ReplaceReady(a: seq<Option<int>>, m: int, bound: int)
  {
    Occupied(a) && NoneAbove(a, m) && m <= |a| - 2 && (m <= 0 || (m <= bound && bound % 2 == 0))
  }

  /** `replace` deletes the root of the subtree at t the way the reference deletion does, leaves
      the rest of the array alone and keeps the array invariants. */
  lemma ReplaceRemovesRoot(a: seq<Option<int>>, t: nat, bound: int, m: int)
    requires ReplaceReady(a, m, bound) && Get(a, t).Some?
    ensures Abs(Replace(a, t, bound), t) == RemoveRoot(Abs(a, t))
    ensures forall p | !InSub(t, p) :: Get(Replace(a, t, bound), p) == Get(a, p)
    ensures ReplaceReady(Replace(a, t, bound), m, bound)
  {
    var r := Replace(a, t, bound);
    assert t <= m;
    if Left(t) >= |a| || Right(t) >= |a| {
      ReplaceLeaf(a, t, m);
    } else if a[Left(t)].None? && a[Right(t)].None? {
      ReplaceLeaf(a, t, m);
    } else if a[Left(t)].Some? && a[Right(t)].None? {
      MoveUp(a, t, Left(t), bound, m);
    } else if a[Left(t)].None? && a[Right(t)].Some? {
      MoveUp(a, t, Right(t), bound, m);
    } else {
      ReplaceTwoChildren(a, t, bound, m);
    }
  }

  /** A slot without children is simply cleared. */
  lemma ReplaceLeaf(a: seq<Option<int>>, t: nat, m: int)
    requires Occupied(a) && NoneAbove(a, m) && m <= |a| - 2 && Get(a, t).Some?
    requires Left(t) >= |a| || Right(t) >= |a| || (a[Left(t)].None? && a[Right(t)].None?)
    ensures Abs(Put(a, t, None), t) == RemoveRoot(Abs(a, t))
    ensures Occupied(Put(a, t, None)) && NoneAbove(Put(a, t, None), m)
  {
    assert Get(a, Left(t)).None? && Get(a, Right(t)).None?;
    ClearLeaf(a, t, m);
  }

  /** With two children the successor's value moves into t and the successor's slot is deleted
      like a one-child or childless slot. */
  lemma ReplaceTwoChildren(a: seq<Option<int>>, t: nat, bound: int, m: int)
    requires ReplaceReady(a, m, bound) && Get(a, t).Some?
    requires Get(a, Left(t)).Some? && Get(a, Right(t)).Some?
    ensures Abs(Replace(a, t, bound), t) == RemoveRoot(Abs(a, t))
    ensures forall p | !InSub(t, p) :: Get(Replace(a, t, bound), p) == Get(a, p)
    ensures ReplaceReady(Replace(a, t, bound), m, bound)
  {
    var rt := Right(t);
    var s := Leftmost(a, rt);
    LeftmostIsMin(a, rt);
    ChildrenInSub(t);
    InSubTransitive(t, rt, s);
    InSubOfChild(t, s);
    var a1 := Put(a, t, Get(a, s));
    CopyIntoOccupied(a, t, Get(a, s), m);
    assert Get(a1, Left(s)) == Get(a, Left(s));
    var r := DropSlot(a1, s, bound);
    assert r == Replace(a, t, bound);
    DropSlotLiftsRight(a1, s, bound, m);
    SuccessorRemoved(a, a1, r, t);
  }

  /** Overwriting an occupied slot keeps the array invariants. */
  lemma CopyIntoOccupied(a: seq<Option<int>>, t: nat, v: Option<int>, m: int)
    requires Occupied(a) && NoneAbove(a, m) && Get(a, t).Some? && v.Some?
    ensures Occupied(Put(a, t, v)) && NoneAbove(Put(a, t, v), m)
  {
    var a1 := Put(a, t, v);
    forall p | 0 < p < |a1| && a1[p].Some? ensures a1[Parent(p)].Some? {
      assert Get(a1, p) == a1[p] && Get(a1, Parent(p)) == a1[Parent(p)];
    }
    forall p: nat | m < p < |a1| ensures a1[p].None? {
      assert Get(a1, p) == a1[p];
    }
  }

  /** The two-children case read on trees: t holds the successor, its left subtree is as before
      and its right subtree lost its least element. */
  lemma SuccessorRemoved(a: seq<Option<int>>, a1: seq<Option<int>>, r: seq<Option<int>>, t: nat)
    requires Get(a, t).Some? && Get(a, Left(t)).Some? && Get(a, Right(t)).Some?
    requires a1 == Put(a, t, Get(a, Leftmost(a, Right(t))))
    requires Abs(r, Leftmost(a, Right(t))) == Abs(a1, Right(Leftmost(a, Right(t))))
    requires forall p | !InSub(Leftmost(a, Right(t)), p) :: Get(r, p) == Get(a1, p)
    ensures Abs(r, t) == RemoveRoot(Abs(a, t))
    ensures forall p | !InSub(t, p) :: Get(r, p) == Get(a, p)
  {
    var rt := Right(t);
    var s := Leftmost(a, rt);
    LeftmostIsMin(a, rt);
    ChildrenInSub(t);
    InSubTransitive(t, rt, s);
    InSubOfChild(t, s);
    ChildrenInSub(s);
    forall p | InSub(Right(s), p) ensures Get(a1, p) == Get(a, p) {
      InSubTransitive(s, Right(s), p);
      InSubTransitive(rt, s, p);
      InSubOfChild(t, p);
    }
    AbsFrame(a1, a, Right(s));
    forall p | InSub(rt, p) && !InSub(s, p) ensures Get(r, p) == Get(a, p) {
      InSubOfChild(t, p);
    }
    RemoveLeftmost(a, r, rt);
    forall p | InSub(Left(t), p) ensures Get(r, p) == Get(a, p) {
      InSubOfChild(t, p);
      if InSub(s, p) {
        InSubTransitive(rt, s, p);
        SiblingsDisjoint(t, p);
      }
    }
    AbsFrame(r, a, Left(t));
    assert Get(r, t) == Some(Min(Abs(a, rt)));
    forall p | !InSub(t, p) ensures Get(r, p) == Get(a, p) {
      if InSub(s, p) {
        InSubTransitive(t, s, p);
      }
    }
  }

  // ---------------------------------------------------------------------------
  // From a subtree to the whole tree

  /** A deletion of one copy of x below slot i that keeps the subtree a search tree, and
      touches nothing outside it, deletes one copy of x from every subtree on the path up to q
      and keeps each of them a search tree. */
  lemma {:induction false} LiftRemoval(a: seq<Option<int>>, r: seq<Option<int>>, i: nat, q: nat, x: int)
    requires Occupied(a) && InSub(q, i)
    requires x in Elems(Abs(a, i)) && Elems(Abs(r, i)) == Elems(Abs(a, i)) - multiset{x}
    requires forall p | !InSub(i, p) :: Get(r, p) == Get(a, p)
    requires IsBst(Abs(a, q)) && IsBst(Abs(r, i))
    ensures x in Elems(Abs(a, q))
    ensures Elems(Abs(r, q)) == Elems(Abs(a, q)) - multiset{x}
    ensures IsBst(Abs(r, q))
    decreases i - q
  {
    if q != i {
      assert Get(a, i).Some?;
      PathStep(a, r, i, q);
      var v := Get(a, q).value;
      var (c, o) := if InSub(Left(q), i) then (Left(q), Right(q)) else (Right(q), Left(q));
      LiftRemoval(a, r, i, c, x);
      ElemsSubset(a, r, c, x);
      RemoveInside(Elems(Abs(a, c)), x, Elems(Abs(r, c)), v, Elems(Abs(a, o)));
      NodeReplacesChild(a, r, q, c);
    }
  }

  /** One step up the path from q to i: q is occupied and untouched, and the child subtree off
      the path is untouched. */
  lemma PathStep(a: seq<Option<int>>, r: seq<Option<int>>, i: nat, q: nat)
    requires Occupied(a) && InSub(q, i) && q != i && Get(a, i).Some?
    requires forall p | !InSub(i, p) :: Get(r, p) == Get(a, p)
    ensures Get(a, q).Some? && Get(r, q) == Get(a, q)
    ensures InSub(Left(q), i) || InSub(Right(q), i)
    ensures InSub(Left(q), i) ==> Abs(r, Right(q)) == Abs(a, Right(q))
    ensures InSub(Right(q), i) ==> Abs(r, Left(q)) == Abs(a, Left(q))
  {
    InSubSplit(q, i);
    AncestorOccupied(a, q, i);
    InSubOfChild(q, i);
    SiblingsDisjoint(q, i);
    if InSub(Left(q), i) {
      forall p | InSub(Right(q), p) ensures Get(r, p) == Get(a, p) {
        if InSub(i, p) {
          InSubTransitive(Left(q), i, p);
          SiblingsDisjoint(q, p);
        }
      }
      AbsFrame(r, a, Right(q));
    } else {
      forall p | InSub(Left(q), p) ensures Get(r, p) == Get(a, p) {
        if InSub(i, p) {
          InSubTransitive(Right(q), i, p);
          SiblingsDisjoint(q, p);
        }
      }
      AbsFrame(r, a, Left(q));
    }
  }

  /** Replacing one child subtree by a search tree over a subset of its elements keeps the node
      a search tree. */
  lemma NodeReplacesChild(a: seq<Option<int>>, r: seq<Option<int>>, q: nat, c: nat)
    requires Get(a, q).Some? && Get(r, q) == Get(a, q)
    requires c == Left(q) || c == Right(q)
    requires c == Left(q) ==> Abs(r, Right(q)) == Abs(a, Right(q))
    requires c == Right(q) ==> Abs(r, Left(q)) == Abs(a, Left(q))
    requires IsBst(Abs(a, q)) && IsBst(Abs(r, c))
    requires forall y | y in Elems(Abs(r, c)) :: y in Elems(Abs(a, c))
    ensures IsBst(Abs(r, q))
  {
  }

  /** Every subtree of a search tree is a search tree. */
  lemma {:induction false} SubtreeIsBst(a: seq<Option<int>>, q: nat, i: nat)
    requires Occupied(a) && InSub(q, i) && IsBst(Abs(a, q))
    ensures IsBst(Abs(a, i))
    decreases i - q
  {
    if q != i && Get(a, i).Some? {
      AncestorOccupied(a, q, i);
      InSubSplit(q, i);
      InSubOfChild(q, i);
      if InSub(Left(q), i) {
        SubtreeIsBst(a, Left(q), i);
      } else {
        SubtreeIsBst(a, Right(q), i);
      }
    }
  }

  /** Deleting a copy of x leaves only elements that were there. */
  lemma ElemsSubset(a: seq<Option<int>>, r: seq<Option<int>>, q: nat, x: int)
    requires Elems(Abs(r, q)) == Elems(Abs(a, q)) - multiset{x}
    ensures forall y | y in Elems(Abs(r, q)) :: y in Elems(Abs(a, q))
  {
  }

  // ---------------------------------------------------------------------------
  // The insertion walk

  /** The slot where the walk of `insert` drops a new key, started from slot q: smaller keys
      go left, the rest go right, until a null slot. */
  function InsertSlot(a: seq<Option<int>>, q: nat, x: int): (s: nat)
    ensures Get(a, s).None?
    ensures s >= q
    decreases if q < |a| then |a| - q else 0
  {
    match Get(a, q)
    case None => q
    case Some(v) => if x < v then InsertSlot(a, Left(q), x) else InsertSlot(a, Right(q), x)
  }

  /** The walk ends at q itself or below an occupied slot, wherever that lies. */
  lemma {:induction false} InsertSlotParent(a: seq<Option<int>>, q: nat, x: int)
    ensures InsertSlot(a, q, x) == q || Get(a, Parent(InsertSlot(a, q, x))).Some?
    decreases if q < |a| then |a| - q else 0
  {
    match Get(a, q)
    case None =>
    case Some(v) =>
      var c := if x < v then Left(q) else Right(q);
      InsertSlotParent(a, c, x);
      ParentOfChild(q);
  }

  /** Storing the key at that slot is the reference insertion on the subtree at q, and the slot
      is a child of an occupied slot (or q itself). */
  lemma {:induction false} InsertSlotPlaces(a: seq<Option<int>>, q: nat, x: int)
    requires Occupied(a) && InsertSlot(a, q, x) < |a|
    ensures InSub(q, InsertSlot(a, q, x))
    ensures InsertSlot(a, q, x) == q || Get(a, Parent(InsertSlot(a, q, x))).Some?
    ensures Abs(Put(a, InsertSlot(a, q, x), Some(x)), q) == Insert(Abs(a, q), x)
    decreases if q < |a| then |a| - q else 0
  {
    var s := InsertSlot(a, q, x);
    var r := Put(a, s, Some(x));
    ChildrenInSub(q);
    match Get(a, q)
    case None =>
      assert Get(a, Left(q)).None? && Get(a, Right(q)).None? by {
        if Left(q) < |a| && a[Left(q)].Some? {
          ParentOfChild(q);
        }
        if Right(q) < |a| && a[Right(q)].Some? {
          ParentOfChild(q);
        }
      }
      assert Get(r, Left(q)) == None && Get(r, Right(q)) == None;
    case Some(v) =>
      var c := if x < v then Left(q) else Right(q);
      var o := if x < v then Right(q) else Left(q);
      assert s == InsertSlot(a, c, x);
      InsertSlotPlaces(a, c, x);
      InsSubFacts(q, c, o, s);
      if s == c {
        ParentOfChild(q);
      }
      forall p | InSub(o, p) ensures Get(r, p) == Get(a, p) {
        SiblingsDisjoint(q, p);
      }
      AbsFrame(r, a, o);
      assert Get(r, q) == Get(a, q);
  }

  lemma InsSubFacts(q: nat, c: nat, o: nat, s: nat)
    requires (c == Left(q) && o == Right(q)) || (c == Right(q) && o == Left(q))
    requires InSub(c, s)
    ensures InSub(q, s) && s != q
  {
    InSubOfChild(q, s);
  }
}
