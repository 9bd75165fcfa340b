/** The lock-step copy that `replace` uses to move a whole subtree up one level: the index list
    of the child's subtree and the index list of the vacated slot's subtree are walked side by
    side, each slot of the first list is copied into the matching slot of the second and then
    cleared. Entry k of both lists is relative position k of the two subtrees, and a source
    slot comes back as a destination only later in the list, so every slot is read before it
    is overwritten and the subtree lands intact one level up. */
module Shifts {
  import opened Wrappers
  import opened HeapIndex
  import opened ArrayTrees
  import opened LevelOrder

  /** One turn of the copy loop: slot `dst` takes the value of slot `src`, which is then
      cleared. */
  function CopyStep<T>(a: seq<Option<T>>, dst: nat, src: nat): (r: seq<Option<T>>)
    ensures |r| == |a|
  {
    Put(Put(a, dst, Get(a, src)), src, None)
  }

  /** The copy loop over the two lists from entry k on; it stops when the source list runs out. */
  function CopyFrom<T>(a: seq<Option<T>>, dsts: seq<nat>, srcs: seq<nat>, k: nat): (r: seq<Option<T>>)
    requires |srcs| <= |dsts|
    ensures |r| == |a|
    decreases |srcs| - k
  {
    if k >= |srcs| then a
    else CopyFrom(CopyStep(a, dsts[k], srcs[k]), dsts, srcs, k + 1)
  }

  /** The child `c` of `t` whose subtree moves up, and the other child, whose subtree must be
      empty. */
  predicate IsChild(t: nat, c: nat)
  {
    c == Left(t) || c == Right(t)
  }

  function Sibling(t: nat, c: nat): nat
    requires IsChild(t, c)
  {
    if c == Left(t) then Right(t) else Left(t)
  }

  /** Slot p after the first k turns of the copy: the vacated subtree holds the first k
      positions of the child's subtree, those source slots not yet overwritten are null, and
      every other slot is untouched. */
  function Midway<T>(a: seq<Option<T>>, t: nat, c: nat, k: nat, p: nat): Option<T>
  {
    if InSub(t, p) && RelIndex(t, p) < k then Get(a, Rel(c, RelIndex(t, p)))
    else if InSub(c, p) && RelIndex(c, p) < k then None
    else Get(a, p)
  }

  /** The array after the first k turns of the copy on a. */
  function Midstate<T>(a: seq<Option<T>>, t: nat, c: nat, k: nat): (r: seq<Option<T>>)
    ensures |r| == |a|
  {
    seq(|a|, p requires 0 <= p < |a| => Midway(a, t, c, k, p))
  }

  /** Slots past the end read as null in the intermediate states too, since a subtree slot is
      filled only from a later slot. */
  lemma MidstateGet<T>(a: seq<Option<T>>, t: nat, c: nat, k: nat, p: nat)
    requires IsChild(t, c)
    ensures Get(Midstate(a, t, c, k), p) == Midway(a, t, c, k, p)
  {
    if p >= |a| && InSub(t, p) && RelIndex(t, p) < k {
      var m := RelIndex(t, p);
      RelMonotoneInRoot(t, c, m);
    }
  }

  /** One turn moves the copy from k positions to k + 1: the source slot is read before it is
      written, because it is relative position Rel(1 or 2, k) > k of the vacated subtree. */
  lemma CopyStepAdvances<T>(a: seq<Option<T>>, t: nat, c: nat, k: nat)
    requires IsChild(t, c)
    ensures CopyStep(Midstate(a, t, c, k), Rel(t, k), Rel(c, k)) == Midstate(a, t, c, k + 1)
  {
    var b := Midstate(a, t, c, k);
    var c0 := if c == Left(t) then 1 else 2;
    var dst := Rel(t, k);
    var src := Rel(c, k);
    ChildRelLater(t, c, k);
    RelIndexOfRel(t, Rel(c0, k));
    RelIndexOfRel(t, k);
    RelIndexOfRel(c, k);
    assert InSub(c, src) && RelIndex(c, src) == k;
    assert InSub(t, src) && RelIndex(t, src) == Rel(c0, k);
    MidstateGet(a, t, c, k, src);
    assert Get(b, src) == Get(a, src);
    RelMonotoneInRoot(t, c, k);
    var r := CopyStep(b, dst, src);
    var r' := Midstate(a, t, c, k + 1);
    forall p | 0 <= p < |a| ensures r[p] == r'[p] {
      MidstateGet(a, t, c, k, p);
      MidstateGet(a, t, c, k + 1, p);
      assert Get(r, p) == r[p] && Get(r', p) == r'[p];
      if p == src {
      } else if p == dst {
      } else {
        assert InSub(t, p) ==> RelIndex(t, p) != k;
        assert InSub(c, p) ==> RelIndex(c, p) != k;
      }
    }
  }

  /** A copy loop whose every turn leads from one state of a chain to the next ends in the
      chain's last state. */
  lemma {:induction false} CopyFromChain<T>(states: seq<seq<Option<T>>>, dsts: seq<nat>,
                                            srcs: seq<nat>, k: nat)
    requires |srcs| <= |dsts| && k <= |srcs| && |states| == |srcs| + 1
    requires forall j | k <= j < |srcs| :: CopyStep(states[j], dsts[j], srcs[j]) == states[j + 1]
    ensures CopyFrom(states[k], dsts, srcs, k) == states[|srcs|]
    decreases |srcs| - k
  {
    if k < |srcs| {
      assert CopyFrom(states[k], dsts, srcs, k) == CopyFrom(states[k + 1], dsts, srcs, k + 1);
      CopyFromChain(states, dsts, srcs, k + 1);
    }
  }

  /** The whole copy loop over the two level-order lists ends in the state after all turns. */
  lemma ShiftUpReaches<T>(a: seq<Option<T>>, t: nat, c: nat, bound: int)
    requires IsChild(t, c)
    ensures ShiftUp(a, t, c, bound) == Midstate(a, t, c, |LevelList(c, bound)|)
  {
    LevelListShrinksBelow(t, c, bound);
    var dsts := LevelList(t, bound);
    var srcs := LevelList(c, bound);
    var states := seq(|srcs| + 1, j requires 0 <= j <= |srcs| => Midstate(a, t, c, j));
    forall j | 0 <= j < |srcs|
      ensures CopyStep(states[j], dsts[j], srcs[j]) == states[j + 1]
    {
      CopyStepAdvances(a, t, c, j);
    }
    MidstateStart(a, t, c);
    assert states[0] == a;
    CopyFromChain(states, dsts, srcs, 0);
  }

  /** No turn taken: the array itself. */
  lemma MidstateStart<T>(a: seq<Option<T>>, t: nat, c: nat)
    ensures Midstate(a, t, c, 0) == a
  {
  }

  /** Past the end of a level-order list, every position of the subtree lies above an even
      bound. */
  lemma BeyondList(c: nat, bound: int, j: nat)
    requires bound % 2 == 0
    requires j >= |LevelList(c, bound)|
    ensures Rel(c, j) > bound
  {
    var q := Parent(j);
    assert !Expanded(c, bound, q);
    RelOfChild(c, q);
    ChildOfParent(j);
  }

  /** `replace`, one-child case: list the child's subtree, list the vacated subtree, and copy in
      lock-step. */
  function ShiftUp<T>(a: seq<Option<T>>, t: nat, c: nat, bound: int): (r: seq<Option<T>>)
    requires IsChild(t, c)
    ensures |r| == |a|
  {
    LevelListShrinksBelow(t, c, bound);
    CopyFrom(a, LevelList(t, bound), LevelList(c, bound), 0)
  }

  /** The shift moves the child's subtree into the vacated one, position by position, and
      touches nothing outside the vacated subtree, provided the sibling's subtree is empty and
      nothing is stored above the bound. */
  lemma ShiftUpMoves<T>(a: seq<Option<T>>, t: nat, c: nat, bound: int)
    requires IsChild(t, c) && bound % 2 == 0
    requires forall p: nat :: InSub(Sibling(t, c), p) ==> Get(a, p).None?
    requires forall p: nat :: p > bound ==> Get(a, p).None?
    ensures forall m: nat :: Get(ShiftUp(a, t, c, bound), Rel(t, m)) == Get(a, Rel(c, m))
    ensures forall p: nat | !InSub(t, p) :: Get(ShiftUp(a, t, c, bound), p) == Get(a, p)
  {
    LevelListShrinksBelow(t, c, bound);
    var dsts := LevelList(t, bound);
    var srcs := LevelList(c, bound);
    var n := |srcs|;
    ShiftUpReaches(a, t, c, bound);
    var r := ShiftUp(a, t, c, bound);
    forall m: nat ensures Get(r, Rel(t, m)) == Get(a, Rel(c, m)) {
      var p := Rel(t, m);
      MidstateGet(a, t, c, n, p);
      RelIndexOfRel(t, m);
      if m >= n {
        BeyondList(c, bound, m);
        if !(InSub(c, p) && RelIndex(c, p) < n) {
          assert m != 0;
          RelMonotoneStrict(t, 0, m);
          InSubSplit(t, p);
          if InSub(c, p) {
            var j := RelIndex(c, p);
            BeyondList(c, bound, j);
          }
        }
      }
    }
    forall p: nat | !InSub(t, p) ensures Get(r, p) == Get(a, p) {
      MidstateGet(a, t, c, n, p);
      if InSub(c, p) {
        ChildrenInSub(t);
        InSubTransitive(t, c, p);
      }
    }
  }

  /** The parent of relative position m is relative position Parent(m). */
  lemma RelParent(r: nat, m: nat)
    requires m > 0
    ensures Rel(r, m) > 0 && Parent(Rel(r, m)) == Rel(r, Parent(m))
  {
    RelOfChild(r, Parent(m));
    ChildOfParent(m);
    ParentOfChild(Rel(r, Parent(m)));
  }

  /** Moving a subtree of a reachable array up keeps every element reachable, and never stores
      anything above a slot the source left empty. */
  lemma ShiftUpKeepsShape<T>(a: seq<Option<T>>, t: nat, c: nat, bound: int, top: int)
    requires IsChild(t, c) && bound % 2 == 0
    requires forall p: nat :: InSub(Sibling(t, c), p) ==> Get(a, p).None?
    requires forall p: nat :: p > bound ==> Get(a, p).None?
    requires Occupied(a) && NoneAbove(a, top)
    ensures Occupied(ShiftUp(a, t, c, bound)) && NoneAbove(ShiftUp(a, t, c, bound), top)
  {
    ShiftUpMoves(a, t, c, bound);
    ShiftKeepsOccupied(a, ShiftUp(a, t, c, bound), t, c);
    ShiftKeepsNoneAbove(a, ShiftUp(a, t, c, bound), t, c, top);
  }

  /** Any array that holds the child's subtree in the vacated one and agrees elsewhere keeps
      every element reachable from the root. */
  lemma ShiftKeepsOccupied<T>(a: seq<Option<T>>, r: seq<Option<T>>, t: nat, c: nat)
    requires IsChild(t, c) && |r| == |a| && Occupied(a)
    requires forall m: nat :: Get(r, Rel(t, m)) == Get(a, Rel(c, m))
    requires forall p: nat | !InSub(t, p) :: Get(r, p) == Get(a, p)
    ensures Occupied(r)
  {
    forall p | 0 < p < |r| && r[p].Some? ensures r[Parent(p)].Some? {
      assert Get(r, p).Some?;
      if InSub(t, p) && p != t {
        var m := RelIndex(t, p);
        RelMonotoneStrict(t, 0, m);
        assert Get(a, Rel(c, m)).Some?;
        RelParent(c, m);
        RelParent(t, m);
        assert Get(r, Rel(t, Parent(m))) == Get(a, Rel(c, Parent(m)));
        assert Get(a, Parent(Rel(c, m))).Some?;
      } else if p == t {
        assert Get(r, Rel(t, 0)) == Get(a, Rel(c, 0));
        ParentOfChild(t);
        assert Get(a, c).Some? && Parent(c) == t;
        assert !InSub(t, Parent(p));
        assert Get(r, Parent(p)) == Get(a, Parent(p));
      } else {
        assert !InSub(t, Parent(p));
        assert Get(r, Parent(p)) == Get(a, Parent(p));
        assert Get(a, p).Some?;
      }
    }
  }

  /** ... and stores nothing above a slot past which the source was empty. */
  lemma ShiftKeepsNoneAbove<T>(a: seq<Option<T>>, r: seq<Option<T>>, t: nat, c: nat, top: int)
    requires IsChild(t, c) && |r| == |a| && NoneAbove(a, top)
    requires forall m: nat :: Get(r, Rel(t, m)) == Get(a, Rel(c, m))
    requires forall p: nat | !InSub(t, p) :: Get(r, p) == Get(a, p)
    ensures NoneAbove(r, top)
  {
    forall p: nat | top < p < |r| ensures r[p].None? {
      assert Get(r, p) == r[p];
      if InSub(t, p) {
        var m := RelIndex(t, p);
        RelMonotoneInRoot(t, c, m);
        assert Get(r, p) == Get(a, Rel(c, m));
      } else {
        assert Get(r, p) == Get(a, p);
      }
    }
  }
}
