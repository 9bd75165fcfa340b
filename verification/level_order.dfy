/** The level-order index lists that the array search tree's `replace` builds: starting from a
    root slot, a breadth-first walk visits slots and queues the two children of a slot exactly
    when its right child is within a bound (2^height - 2 in the source). The walk visits the
    relative positions 0, 1, 2, ... of the root's subtree in order, up to 2E+1 positions where
    E is the number of leading positions that are expanded. */
module LevelOrder {
  import opened Wrappers
  import opened HeapIndex
  import ArrayLists

  // ---------------------------------------------------------------------------
  // Termination measure of the walk

  /** How many slots the walk visits below and including slot x. */
  function Reach(x: nat, bound: int): nat
    decreases if x <= bound then bound - x else 0
  {
    if Right(x) <= bound then 1 + Reach(Left(x), bound) + Reach(Right(x), bound) else 1
  }

  function QueueReach(q: seq<nat>, bound: int): nat
  {
    if q == [] then 0 else Reach(q[0], bound) + QueueReach(q[1..], bound)
  }

  lemma {:induction false} QueueReachAppend(q: seq<nat>, x: nat, bound: int)
    ensures QueueReach(q + [x], bound) == QueueReach(q, bound) + Reach(x, bound)
    decreases |q|
  {
    if q != [] {
      assert (q + [x])[1..] == q[1..] + [x];
      QueueReachAppend(q[1..], x, bound);
    }
  }

  // ---------------------------------------------------------------------------
  // The walk with a plain first-in first-out queue

  /** Visits the queue in order, appending the two children of each expanded slot. */
  function Walk(queue: seq<nat>, bound: int): seq<nat>
    decreases QueueReach(queue, bound)
  {
    if queue == [] then []
    else
      var h := queue[0];
      if Right(h) <= bound then
        QueueReachAppend(queue[1..], Left(h), bound);
        QueueReachAppend(queue[1..] + [Left(h)], Right(h), bound);
        assert queue[1..] + [Left(h)] + [Right(h)] == queue[1..] + [Left(h), Right(h)];
        [h] + Walk(queue[1..] + [Left(h), Right(h)], bound)
      else
        [h] + Walk(queue[1..], bound)
  }

  /** The relative positions lo..hi-1 of the subtree rooted at `root`, as slots. */
  function Segment(root: nat, lo: nat, hi: nat): (s: seq<nat>)
    requires lo <= hi
    ensures |s| == hi - lo && forall j | 0 <= j < hi - lo :: s[j] == Rel(root, lo + j)
  {
    seq<nat>(hi - lo, j requires 0 <= j < hi - lo => Rel(root, lo + j))
  }

  lemma SegmentSplit(root: nat, lo: nat, hi: nat)
    requires lo < hi
    ensures Segment(root, lo, hi) == [Rel(root, lo)] + Segment(root, lo + 1, hi)
    ensures Segment(root, lo, hi)[1..] == Segment(root, lo + 1, hi)
  {
    assert Segment(root, lo, hi)[1..] == Segment(root, lo + 1, hi);
  }

  lemma SegmentGrow(root: nat, lo: nat, q: nat)
    requires lo <= Left(q)
    ensures Segment(root, lo, Left(q)) + [Left(Rel(root, q)), Right(Rel(root, q))]
            == Segment(root, lo, Left(q) + 2)
  {
    RelOfChild(root, q);
    assert Segment(root, lo, Left(q)) + [Rel(root, Left(q)), Rel(root, Right(q))]
           == Segment(root, lo, Left(q) + 2);
  }

  /** The walk queues the children of relative position k. */
  predicate Expanded(root: nat, bound: int, k: nat)
  {
    Right(Rel(root, k)) <= bound
  }

  function FirstClosed(root: nat, bound: int, k: nat): (e: nat)
    requires forall j | 0 <= j < k :: Expanded(root, bound, j)
    ensures k <= e
    ensures forall j | 0 <= j < e :: Expanded(root, bound, j)
    ensures !Expanded(root, bound, e)
    decreases bound - k
  {
    RelAtLeast(root, k);
    if !Expanded(root, bound, k) then k else FirstClosed(root, bound, k + 1)
  }

  /** E: the walk from `root` expands exactly the positions below E. */
  function ExpandedCount(root: nat, bound: int): (e: nat)
    ensures forall k | 0 <= k < e :: Expanded(root, bound, k)
    ensures forall k | e <= k :: !Expanded(root, bound, k)
  {
    var e := FirstClosed(root, bound, 0);
    assert forall k | e <= k :: !Expanded(root, bound, k) by {
      forall k | e <= k ensures !Expanded(root, bound, k) {
        RelMonotoneStrict(root, e, k);
      }
    }
    e
  }

  function MinNat(a: nat, b: nat): nat { if a <= b then a else b }

  lemma WalkStep(q: seq<nat>, bound: int)
    requires q != []
    ensures Right(q[0]) <= bound ==> Walk(q, bound) == [q[0]] + Walk(q[1..] + [Left(q[0]), Right(q[0])], bound)
    ensures Right(q[0]) > bound ==> Walk(q, bound) == [q[0]] + Walk(q[1..], bound)
  {
  }

  /** The queue after visiting slot n: relative positions n+1..2min(n+1,E). */
  lemma QueueStep(root: nat, bound: int, n: nat)
    requires n < 2 * ExpandedCount(root, bound) + 1
    ensures var e := ExpandedCount(root, bound);
            var q := Segment(root, n, 2 * MinNat(n, e) + 1);
            var h := Rel(root, n);
            q != [] && q[0] == h
            && (Right(h) <= bound ==> q[1..] + [Left(h), Right(h)] == Segment(root, n + 1, 2 * MinNat(n + 1, e) + 1))
            && (Right(h) > bound ==> q[1..] == Segment(root, n + 1, 2 * MinNat(n + 1, e) + 1))
  {
    var e := ExpandedCount(root, bound);
    var m := 2 * MinNat(n, e) + 1;
    SegmentSplit(root, n, m);
    if n < e {
      assert m == Left(n) && Expanded(root, bound, n);
      SegmentGrow(root, n + 1, n);
    } else {
      assert !Expanded(root, bound, n);
    }
  }

  /** One step of the plain walk on the mid-walk queue. */
  lemma WalkSegmentStep(root: nat, bound: int, n: nat)
    requires n < 2 * ExpandedCount(root, bound) + 1
    ensures var e := ExpandedCount(root, bound);
            Walk(Segment(root, n, 2 * MinNat(n, e) + 1), bound)
            == [Rel(root, n)] + Walk(Segment(root, n + 1, 2 * MinNat(n + 1, e) + 1), bound)
  {
    QueueStep(root, bound, n);
    WalkStep(Segment(root, n, 2 * MinNat(n, ExpandedCount(root, bound)) + 1), bound);
  }

  /** Mid-walk, after n slots are visited, the queue holds relative positions n..2min(n,E). */
  lemma {:induction false} WalkFrom(root: nat, bound: int, n: nat)
    requires n <= 2 * ExpandedCount(root, bound) + 1
    ensures var e := ExpandedCount(root, bound);
            Walk(Segment(root, n, 2 * MinNat(n, e) + 1), bound) == Segment(root, n, 2 * e + 1)
    decreases 2 * ExpandedCount(root, bound) + 1 - n
  {
    var e := ExpandedCount(root, bound);
    var q := Segment(root, n, 2 * MinNat(n, e) + 1);
    if n < 2 * e + 1 {
      WalkSegmentStep(root, bound, n);
      WalkFrom(root, bound, n + 1);
      SegmentSplit(root, n, 2 * e + 1);
    } else {
      assert q == [];
    }
  }

  /** The index list the source fills from `root` (the level-order loop of `replace` and its three twins): the
      slots at relative positions 0..2E of the subtree, in level order. */
  function LevelList(root: nat, bound: int): (list: seq<nat>)
    ensures |list| == 2 * ExpandedCount(root, bound) + 1
    ensures forall k | 0 <= k < |list| :: list[k] == Rel(root, k)
  {
    WalkFrom(root, bound, 0);
    assert Segment(root, 0, 1) == [root];
    Walk([root], bound)
  }

  /** Every slot of the subtree within an even bound is on the list, so with every occupied
      slot within the bound the walk misses nothing. */
  lemma LevelListComplete(root: nat, bound: int, p: nat)
    requires bound % 2 == 0
    requires InSub(root, p) && p <= bound
    ensures RelIndex(root, p) < |LevelList(root, bound)|
  {
    var m := RelIndex(root, p);
    if m > 0 {
      var q := Parent(m);
      ParentExpanded(root, bound, m);
      assert q < ExpandedCount(root, bound);
    }
  }

  /** Under an even bound, a position whose slot is within the bound has an expanded parent. */
  lemma ParentExpanded(root: nat, bound: int, m: nat)
    requires bound % 2 == 0 && m > 0 && Rel(root, m) <= bound
    ensures Expanded(root, bound, Parent(m))
  {
    var x := Rel(root, Parent(m));
    RelOfChild(root, Parent(m));
    ChildOfParent(m);
    assert Rel(root, m) == Left(x) || Rel(root, m) == Right(x);
  }

  /** A walk from a deeper root is no longer: both lists can be walked in lock-step. */
  lemma LevelListShrinksBelow(t: nat, c: nat, bound: int)
    requires t <= c
    ensures |LevelList(c, bound)| <= |LevelList(t, bound)|
  {
    var et := ExpandedCount(t, bound);
    var ec := ExpandedCount(c, bound);
    if t < c && et < ec {
      assert Expanded(c, bound, et) && !Expanded(t, bound, et);
      RelMonotoneInRoot(t, c, et);
    }
  }

  // ---------------------------------------------------------------------------
  // The walk as written: the queue is the repository's array list

  /** One turn of the fill loop: take the head off the queue with the as-written `removeAt`
      and append its children when the bound allows. */
  function Visit(queue: ArrayLists.ArrayList<nat>, bound: int): (r: Result<(nat, ArrayLists.ArrayList<nat>)>)
    requires ArrayLists.Valid(queue) && queue.size > 0
    ensures r.Err? <==> queue.size == |queue.list|
    ensures r.Err? ==> r.error == IndexOutOfBounds
    ensures r.Ok? ==> var (h, q) := r.value;
      var c := ArrayLists.Contents(queue);
      h == c[0] && ArrayLists.Valid(q) && |q.list| == |queue.list|
      && ArrayLists.Contents(q) == c[1..] + (if Right(h) <= bound then [Left(h), Right(h)] else [])
  {
    match ArrayLists.RemoveAtAsWritten(queue, 0)
    case Err(e) => Err(e)
    case Ok((h, q1)) =>
      assert ArrayLists.Contents(q1) == ArrayLists.Contents(queue)[1..];
      if Right(h) <= bound then
        var q2 := ArrayLists.Add(q1, Left(h)).value;
        var q3 := ArrayLists.Add(q2, Right(h)).value;
        assert ArrayLists.Contents(q3) == ArrayLists.Contents(queue)[1..] + [Left(h), Right(h)];
        Ok((h, q3))
      else
        assert ArrayLists.Contents(queue)[1..] + [] == ArrayLists.Contents(queue)[1..];
        Ok((h, q1))
  }

  /** The fill loop with `tempList` an array list whose `removeAt` is used as written. Yields
      the visited slots and the queue left behind. */
  function WalkAsWritten(queue: ArrayLists.ArrayList<nat>, bound: int)
    : (r: Result<(seq<nat>, ArrayLists.ArrayList<nat>)>)
    requires ArrayLists.Valid(queue)
    ensures r.Ok? ==> ArrayLists.Valid(r.value.1)
    decreases QueueReach(ArrayLists.Contents(queue), bound)
  {
    if ArrayLists.IsEmpty(queue) then Ok(([], queue))
    else
      match Visit(queue, bound)
      case Err(e) => Err(e)
      case Ok((h, q)) =>
        var c := ArrayLists.Contents(queue);
        assert QueueReach(ArrayLists.Contents(q), bound) < QueueReach(c, bound) by {
          if Right(h) <= bound {
            QueueReachAppend(c[1..], Left(h), bound);
            QueueReachAppend(c[1..] + [Left(h)], Right(h), bound);
            assert c[1..] + [Left(h)] + [Right(h)] == c[1..] + [Left(h), Right(h)];
          } else {
            assert c[1..] + [] == c[1..];
          }
        }
        Prepend(h, WalkAsWritten(q, bound))
  }

  function Prepend(h: nat, r: Result<(seq<nat>, ArrayLists.ArrayList<nat>)>): Result<(seq<nat>, ArrayLists.ArrayList<nat>)>
  {
    match r
    case Err(e) => Err(e)
    case Ok((rest, q)) => Ok(([h] + rest, q))
  }

  lemma WalkAsWrittenStep(queue: ArrayLists.ArrayList<nat>, bound: int)
    requires ArrayLists.Valid(queue) && queue.size > 0
    ensures Visit(queue, bound).Err? ==> WalkAsWritten(queue, bound) == Err(IndexOutOfBounds)
    ensures Visit(queue, bound).Ok? ==>
              WalkAsWritten(queue, bound) == Prepend(Visit(queue, bound).value.0, WalkAsWritten(Visit(queue, bound).value.1, bound))
  {
  }

  /** Seeds the queue with `root` and walks. */
  function LevelListAsWritten(temp: ArrayLists.ArrayList<nat>, root: nat, bound: int)
    : (r: Result<(seq<nat>, ArrayLists.ArrayList<nat>)>)
    requires ArrayLists.Valid(temp)
    ensures r.Ok? ==> ArrayLists.Valid(r.value.1)
  {
    match ArrayLists.Add(temp, root)
    case Err(e) => Err(e)
    case Ok(q) => WalkAsWritten(q, bound)
  }

  /** One turn of the as-written walk while the leading positions all expand: the queue grows
      by one entry. */
  lemma VisitGrows(queue: ArrayLists.ArrayList<nat>, root: nat, bound: int, n: nat)
    requires ArrayLists.Valid(queue) && |queue.list| == ArrayLists.DefaultCapacity
    requires ExpandedCount(root, bound) >= ArrayLists.DefaultCapacity - 1
    requires n < ArrayLists.DefaultCapacity - 1
    requires ArrayLists.Contents(queue) == Segment(root, n, 2 * n + 1)
    ensures queue.size > 0
    ensures var r := Visit(queue, bound);
            r.Ok? && ArrayLists.Valid(r.value.1) && |r.value.1.list| == ArrayLists.DefaultCapacity
            && ArrayLists.Contents(r.value.1) == Segment(root, n + 1, 2 * (n + 1) + 1)
  {
    var e := ExpandedCount(root, bound);
    assert MinNat(n, e) == n && MinNat(n + 1, e) == n + 1;
    QueueStep(root, bound, n);
  }

  /** With nine leading positions expanded, the queue reaches ten entries and `removeAt` throws. */
  lemma {:induction false} WalkAsWrittenOverflows(queue: ArrayLists.ArrayList<nat>, root: nat, bound: int, n: nat)
    requires ArrayLists.Valid(queue) && |queue.list| == ArrayLists.DefaultCapacity
    requires ExpandedCount(root, bound) >= ArrayLists.DefaultCapacity - 1
    requires n < ArrayLists.DefaultCapacity
    requires ArrayLists.Contents(queue) == Segment(root, n, 2 * n + 1)
    ensures WalkAsWritten(queue, bound) == Err(IndexOutOfBounds)
    decreases ArrayLists.DefaultCapacity - n
  {
    if n < ArrayLists.DefaultCapacity - 1 {
      VisitGrows(queue, root, bound, n);
      WalkAsWrittenStep(queue, bound);
      WalkAsWrittenOverflows(Visit(queue, bound).value.1, root, bound, n + 1);
    } else {
      assert queue.size == |ArrayLists.Contents(queue)| == |queue.list|;
      WalkAsWrittenStep(queue, bound);
    }
  }

  /** One turn of the as-written walk in the agreeing case: the queue is below capacity, so the
      head comes off and the queue moves on to the next segment. */
  lemma VisitAgrees(queue: ArrayLists.ArrayList<nat>, root: nat, bound: int, n: nat)
    requires ArrayLists.Valid(queue) && |queue.list| == ArrayLists.DefaultCapacity
    requires ExpandedCount(root, bound) < ArrayLists.DefaultCapacity - 1
    requires n < 2 * ExpandedCount(root, bound) + 1
    requires ArrayLists.Contents(queue) == Segment(root, n, 2 * MinNat(n, ExpandedCount(root, bound)) + 1)
    ensures queue.size > 0
    ensures var r := Visit(queue, bound);
            r.Ok? && r.value.0 == Rel(root, n)
            && ArrayLists.Valid(r.value.1) && |r.value.1.list| == ArrayLists.DefaultCapacity
            && ArrayLists.Contents(r.value.1) == Segment(root, n + 1, 2 * MinNat(n + 1, ExpandedCount(root, bound)) + 1)
  {
    QueueStep(root, bound, n);
  }

  /** The as-written walk from `queue` yields relative positions n..2E and leaves the queue
      empty at its default capacity. */
  predicate WalkedFrom(queue: ArrayLists.ArrayList<nat>, root: nat, bound: int, n: nat)
    requires ArrayLists.Valid(queue)
    requires n <= 2 * ExpandedCount(root, bound) + 1
  {
    var r := WalkAsWritten(queue, bound);
    r.Ok? && r.value.0 == Segment(root, n, 2 * ExpandedCount(root, bound) + 1)
    && r.value.1.size == 0 && |r.value.1.list| == ArrayLists.DefaultCapacity
  }

  lemma AgreesStep(queue: ArrayLists.ArrayList<nat>, root: nat, bound: int, n: nat)
    requires ArrayLists.Valid(queue) && queue.size > 0
    requires n < 2 * ExpandedCount(root, bound) + 1
    requires Visit(queue, bound).Ok? && Visit(queue, bound).value.0 == Rel(root, n)
    requires WalkedFrom(Visit(queue, bound).value.1, root, bound, n + 1)
    ensures WalkedFrom(queue, root, bound, n)
  {
    WalkAsWrittenStep(queue, bound);
    SegmentSplit(root, n, 2 * ExpandedCount(root, bound) + 1);
  }

  /** The default-capacity queue of the as-written walk after `n` visits, when fewer than nine
      positions expand: it holds relative positions `n` up to the children of the first `n`. */
  ghost predicate QueueAfter(queue: ArrayLists.ArrayList<nat>, root: nat, bound: int, n: nat)
  {
    && ArrayLists.Valid(queue) && |queue.list| == ArrayLists.DefaultCapacity
    && ExpandedCount(root, bound) < ArrayLists.DefaultCapacity - 1
    && n <= 2 * ExpandedCount(root, bound) + 1
    && ArrayLists.Contents(queue) == Segment(root, n, 2 * MinNat(n, ExpandedCount(root, bound)) + 1)
  }

  /** With fewer than nine expanded positions the queue never fills, and the as-written walk
      yields the same list as the plain one. */
  lemma {:induction false} WalkAsWrittenAgrees(queue: ArrayLists.ArrayList<nat>, root: nat, bound: int, n: nat)
    requires QueueAfter(queue, root, bound, n)
    ensures WalkedFrom(queue, root, bound, n)
    decreases 2 * ExpandedCount(root, bound) + 1 - n
  {
    var e := ExpandedCount(root, bound);
    if n < 2 * e + 1 {
      VisitAgrees(queue, root, bound, n);
      var next := Visit(queue, bound).value.1;
      assert QueueAfter(next, root, bound, n + 1);
      WalkAsWrittenAgrees(next, root, bound, n + 1);
      AgreesStep(queue, root, bound, n);
    } else {
      AgreesDone(queue, root, bound, n);
    }
  }

  lemma AgreesDone(queue: ArrayLists.ArrayList<nat>, root: nat, bound: int, n: nat)
    requires ArrayLists.Valid(queue) && |queue.list| == ArrayLists.DefaultCapacity
    requires n == 2 * ExpandedCount(root, bound) + 1
    requires ArrayLists.Contents(queue) == Segment(root, n, 2 * MinNat(n, ExpandedCount(root, bound)) + 1)
    ensures WalkedFrom(queue, root, bound, n)
  {
    assert ArrayLists.Contents(queue) == [];
  }

  /** The as-written fill fails exactly when the walk expands nine leading positions: the queue
      then holds ten entries, fills the default array list, and its `removeAt` throws. Otherwise
      it yields the same list and leaves the queue empty at its default capacity. */
  lemma LevelListAsWrittenFails(temp: ArrayLists.ArrayList<nat>, root: nat, bound: int)
    requires ArrayLists.Valid(temp) && temp.size == 0 && |temp.list| == ArrayLists.DefaultCapacity
    ensures var r := LevelListAsWritten(temp, root, bound);
            (r.Err? <==> ExpandedCount(root, bound) >= ArrayLists.DefaultCapacity - 1)
            && (r.Err? ==> r.error == IndexOutOfBounds)
            && (r.Ok? ==> r.value.0 == LevelList(root, bound) && r.value.1.size == 0
                          && |r.value.1.list| == ArrayLists.DefaultCapacity)
  {
    var q := ArrayLists.Add(temp, root).value;
    assert ArrayLists.Contents(q) == Segment(root, 0, 1);
    if ExpandedCount(root, bound) >= ArrayLists.DefaultCapacity - 1 {
      WalkAsWrittenOverflows(q, root, bound, 0);
    } else {
      assert QueueAfter(q, root, bound, 0);
      WalkAsWrittenAgrees(q, root, bound, 0);
    }
  }
}
