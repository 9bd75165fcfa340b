/** Index arithmetic of a binary tree laid out in an array: slot i has its children at
    2i+1 and 2i+2. `Rel(r, k)` names the slot at relative heap position k inside the
    subtree rooted at slot r, so that a whole subtree can be addressed from its root. */
module HeapIndex {

  function Left(i: nat): nat { 2 * i + 1 }

  function Right(i: nat): nat { 2 * i + 2 }

  function Parent(i: nat): nat
    requires i > 0
  {
    (i - 1) / 2
  }

  /** Slot of relative position k below r: position 0 is r itself, and relative position k
      has its children at relative positions 2k+1 and 2k+2, exactly like absolute slots. */
  function Rel(r: nat, k: nat): nat
    decreases k
  {
    if k == 0 then r
    else if k % 2 == 1 then Left(Rel(r, Parent(k)))
    else Right(Rel(r, Parent(k)))
  }

  /** Slot p lies in the subtree rooted at slot r. */
  predicate InSub(r: nat, p: nat)
    decreases p
  {
    p == r || (p > r && InSub(r, Parent(p)))
  }

  /** The relative position of slot p inside the subtree rooted at r. */
  function RelIndex(r: nat, p: nat): (k: nat)
    requires InSub(r, p)
    ensures Rel(r, k) == p
    decreases p
  {
    if p == r then 0
    else
      var m := RelIndex(r, Parent(p));
      RelOfChild(r, m);
      ChildOfParent(p);
      if p % 2 == 1 then Left(m) else Right(m)
  }

  /** A non-root slot is the left child of its parent when odd and the right child when even. */
  lemma ChildOfParent(p: nat)
    requires p > 0
    ensures p % 2 == 1 ==> p == Left(Parent(p))
    ensures p % 2 == 0 ==> p == Right(Parent(p))
  {
  }

  function Pow2(n: nat): (p: nat)
    ensures p >= 1
  {
    if n == 0 then 1 else 2 * Pow2(n - 1)
  }

  /** floor(log2(x)) on positive integers. */
  function FloorLog2(x: nat): nat
    requires x >= 1
  {
    if x == 1 then 0 else 1 + FloorLog2(x / 2)
  }

  lemma {:induction false} FloorLog2Bounds(x: nat)
    requires x >= 1
    ensures Pow2(FloorLog2(x)) <= x < Pow2(FloorLog2(x) + 1)
    decreases x
  {
    if x > 1 {
      FloorLog2Bounds(x / 2);
    }
  }

  // ---------------------------------------------------------------------------
  // Facts about Rel

  lemma RelOfChild(r: nat, q: nat)
    ensures Rel(r, Left(q)) == Left(Rel(r, q))
    ensures Rel(r, Right(q)) == Right(Rel(r, q))
  {
    assert Parent(Left(q)) == q && Parent(Right(q)) == q;
  }

  lemma {:induction false} RelOfRoot(k: nat)
    ensures Rel(0, k) == k
    decreases k
  {
    if k > 0 {
      RelOfRoot(Parent(k));
      ChildOfParent(k);
    }
  }

  /** A larger root puts every relative position at a larger slot. */
  lemma {:induction false} RelMonotoneInRoot(r: nat, r2: nat, k: nat)
    requires r < r2
    ensures Rel(r, k) < Rel(r2, k)
    decreases k
  {
    if k > 0 {
      RelMonotoneInRoot(r, r2, Parent(k));
    }
  }

  lemma RelAtLeast(r: nat, k: nat)
    ensures k <= Rel(r, k)
    ensures r <= Rel(r, k)
  {
    RelOfRoot(k);
    if r > 0 {
      RelMonotoneInRoot(0, r, k);
    }
    RelMonotoneStrict(r, 0, k);
  }

  /** Consecutive relative positions sit at increasing slots: level order is index order. */
  lemma {:induction false} RelStep(r: nat, k: nat)
    ensures Rel(r, k) < Rel(r, k + 1)
    decreases k
  {
    if k == 0 {
      assert Rel(r, 1) == Left(Rel(r, 0));
    } else if k % 2 == 1 {
      assert Parent(k + 1) == Parent(k);
    } else {
      assert Parent(k + 1) == Parent(k) + 1;
      RelStep(r, Parent(k));
    }
  }

  lemma {:induction false} RelMonotoneStrict(r: nat, k: nat, k': nat)
    ensures k < k' ==> Rel(r, k) < Rel(r, k')
    ensures k <= k' ==> Rel(r, k) <= Rel(r, k')
    decreases k' - k
  {
    if k < k' {
      RelStep(r, k);
      RelMonotoneStrict(r, k + 1, k');
    }
  }

  /** Walking k positions below the slot at relative position m of r is the same as walking
      Rel(m, k) positions below r. */
  lemma {:induction false} RelCompose(r: nat, m: nat, k: nat)
    ensures Rel(Rel(r, m), k) == Rel(r, Rel(m, k))
    decreases k
  {
    if k > 0 {
      RelCompose(r, m, Parent(k));
      RelOfChild(r, Rel(m, Parent(k)));
    }
  }

  lemma {:induction false} RelInSub(r: nat, k: nat)
    ensures InSub(r, Rel(r, k))
    decreases k
  {
    if k > 0 {
      RelInSub(r, Parent(k));
      RelAtLeast(r, Parent(k));
    }
  }

  /** Relative positions are unique: RelIndex inverts Rel. */
  lemma {:induction false} RelIndexOfRel(r: nat, k: nat)
    ensures InSub(r, Rel(r, k)) && RelIndex(r, Rel(r, k)) == k
    decreases k
  {
    RelInSub(r, k);
    if k > 0 {
      var p := Rel(r, k);
      RelMonotoneStrict(r, 0, k);
      RelIndexOfRel(r, Parent(k));
      RelOfChild(r, Parent(k));
      ChildOfParent(k);
      ParentOfChild(Rel(r, Parent(k)));
    }
  }

  lemma ParentOfChild(q: nat)
    ensures Parent(Left(q)) == q && Parent(Right(q)) == q
    ensures Left(q) % 2 == 1 && Right(q) % 2 == 0
  {
  }

  lemma RelInjective(r: nat, k: nat, k': nat)
    requires Rel(r, k) == Rel(r, k')
    ensures k == k'
  {
    RelIndexOfRel(r, k);
    RelIndexOfRel(r, k');
  }

  // ---------------------------------------------------------------------------
  // Facts about InSub

  lemma {:induction false} InSubTransitive(a: nat, b: nat, c: nat)
    requires InSub(a, b) && InSub(b, c)
    ensures InSub(a, c)
    decreases c
  {
    if c != b {
      InSubTransitive(a, b, Parent(c));
    }
  }

  lemma ChildrenInSub(r: nat)
    ensures InSub(r, Left(r)) && InSub(r, Right(r))
  {
    assert Parent(Left(r)) == r && Parent(Right(r)) == r;
  }

  lemma {:induction false} InSubOfChild(r: nat, p: nat)
    requires InSub(Left(r), p) || InSub(Right(r), p)
    ensures InSub(r, p) && p != r
  {
    ChildrenInSub(r);
    if InSub(Left(r), p) {
      InSubTransitive(r, Left(r), p);
    } else {
      InSubTransitive(r, Right(r), p);
    }
  }

  /** A proper descendant of r lies below exactly one of r's children. */
  lemma {:induction false} InSubSplit(r: nat, p: nat)
    requires InSub(r, p) && p != r
    ensures InSub(Left(r), p) || InSub(Right(r), p)
    decreases p
  {
    if Parent(p) != r {
      InSubSplit(r, Parent(p));
    }
  }

  lemma {:induction false} SiblingsDisjoint(r: nat, p: nat)
    ensures !(InSub(Left(r), p) && InSub(Right(r), p))
    decreases p
  {
    if p > Right(r) {
      SiblingsDisjoint(r, Parent(p));
    }
  }

  /** Two subtrees are nested or disjoint. */
  lemma {:induction false} InSubDisjointOrNested(a: nat, b: nat, p: nat)
    requires InSub(a, p) && InSub(b, p) && a <= b
    ensures InSub(a, b)
    decreases p
  {
    if p != b {
      InSubDisjointOrNested(a, b, Parent(p));
    }
  }

  lemma {:induction false} InSubParent(r: nat, p: nat)
    requires InSub(r, p) && p != r
    ensures p > 0 && InSub(r, Parent(p))
  {
  }

  /** The closed form of a relative position of a child subtree: below Left(t) or Right(t),
      relative position k is relative position Rel(1, k) or Rel(2, k) below t, and that
      position comes strictly later in t's level order than k itself. */
  lemma ChildRelLater(t: nat, c: nat, k: nat)
    requires c == Left(t) || c == Right(t)
    ensures var c0 := if c == Left(t) then 1 else 2;
            Rel(t, Rel(c0, k)) == Rel(c, k) && Rel(c0, k) > k
  {
    var c0 := if c == Left(t) then 1 else 2;
    assert Rel(t, c0) == c;
    RelCompose(t, c0, k);
    RelMonotoneInRoot(0, c0, k);
    RelOfRoot(k);
  }
}
