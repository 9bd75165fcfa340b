/** `replace`, `remove`, `removeMin` and `removeMax` of the array search tree exactly as the
    source writes them: every array read and write is bounds-checked as in Java, the level-order
    queue is the repository's own array list with its as-written `removeAt`, and the loops test
    their conditions in the source's order. Whenever one of these returns normally it computes
    what the corrected model of `BstReplace` and `ArrayBsts` computes; the lemmas at the end
    exhibit trees, built by plain insertions, on which each of them throws instead. */
module BstAsWritten {
  import opened Wrappers
  import opened HeapIndex
  import opened Trees
  import opened ArrayTrees
  import opened LevelOrder
  import ArrayLists
  import opened Shifts
  import opened BstReplace
  import opened ArrayBsts

  // ---------------------------------------------------------------------------
  // The copy loop

  /** The copy loop of `replace` (and its two twins): walk both lists in step;
      `tree[old] = tree[new]` throws when either index is past the end, and the old list
      running out first would make its iterator throw. */
  function CopyAsWritten(a: seq<Option<int>>, dsts: seq<nat>, srcs: seq<nat>, k: nat): (r: Result<seq<Option<int>>>)
    ensures r.Ok? ==> |r.value| == |a|
    ensures r.Err? ==> r.error == IndexOutOfBounds || r.error == NoSuchElement
    decreases |srcs| - k
  {
    if k >= |srcs| then Ok(a)
    else if k >= |dsts| then Err(NoSuchElement)
    else if dsts[k] >= |a| || srcs[k] >= |a| then Err(IndexOutOfBounds)
    else CopyAsWritten(a[dsts[k] := a[srcs[k]]][srcs[k] := None], dsts, srcs, k + 1)
  }

  /** When the copy loop finishes it has done what the corrected copy does. */
  lemma {:induction false} CopyAsWrittenAgrees(a: seq<Option<int>>, dsts: seq<nat>, srcs: seq<nat>, k: nat)
    requires |srcs| <= |dsts|
    ensures CopyAsWritten(a, dsts, srcs, k).Ok? ==> CopyAsWritten(a, dsts, srcs, k).value == CopyFrom(a, dsts, srcs, k)
    decreases |srcs| - k
  {
    if k < |srcs| && dsts[k] < |a| && srcs[k] < |a| {
      assert CopyStep(a, dsts[k], srcs[k]) == a[dsts[k] := a[srcs[k]]][srcs[k] := None];
      CopyAsWrittenAgrees(a[dsts[k] := a[srcs[k]]][srcs[k] := None], dsts, srcs, k + 1);
    }
  }

  /** The copy throws at the first turn whose source slot is past the end, provided every
      earlier turn stays inside the array. */
  lemma {:induction false} CopyAsWrittenThrows(a: seq<Option<int>>, dsts: seq<nat>, srcs: seq<nat>, k: nat, j: nat)
    requires k <= j < |srcs| && j < |dsts| && srcs[j] >= |a|
    requires forall i | k <= i < j :: dsts[i] < |a| && srcs[i] < |a|
    ensures CopyAsWritten(a, dsts, srcs, k) == Err(IndexOutOfBounds)
    decreases j - k
  {
    if k < j {
      CopyAsWrittenThrows(a[dsts[k] := a[srcs[k]]][srcs[k] := None], dsts, srcs, k + 1, j);
    }
  }

  // ---------------------------------------------------------------------------
  // One shift

  /** `replace`, one-child case: fill the child's list, then the vacated slot's list, through
      one fresh array list used as the queue of both walks, then copy. The two result lists are
      appended to only, which never fails, so they are plain sequences here. */
  function ShiftUpAsWritten(a: seq<Option<int>>, t: nat, c: nat, bound: int): (r: Result<seq<Option<int>>>)
    ensures r.Ok? ==> |r.value| == |a|
    ensures r.Err? ==> r.error == IndexOutOfBounds || r.error == NoSuchElement
  {
    var empty := ArrayLists.Empty<nat>();
    LevelListAsWrittenFails(empty, c, bound);
    match LevelListAsWritten(empty, c, bound)
    case Err(e) => Err(e)
    case Ok((srcs, temp)) =>
      LevelListAsWrittenFails(temp, t, bound);
      match LevelListAsWritten(temp, t, bound)
      case Err(e) => Err(e)
      case Ok((dsts, _)) => CopyAsWritten(a, dsts, srcs, 0)
  }

  /** The two walks, as long as neither overflows the queue, list what the corrected walks
      list, so a shift that returns has done the corrected shift. */
  lemma ShiftUpAsWrittenAgrees(a: seq<Option<int>>, t: nat, c: nat, bound: int)
    requires IsChild(t, c)
    ensures ShiftUpAsWritten(a, t, c, bound).Ok? ==> ShiftUpAsWritten(a, t, c, bound).value == ShiftUp(a, t, c, bound)
  {
    var e := ArrayLists.Empty<nat>();
    LevelListAsWrittenFails(e, c, bound);
    var r1 := LevelListAsWritten(e, c, bound);
    if r1.Ok? {
      LevelListAsWrittenFails(r1.value.1, t, bound);
      LevelListShrinksBelow(t, c, bound);
      CopyAsWrittenAgrees(a, LevelList(t, bound), LevelList(c, bound), 0);
    }
  }

  // ---------------------------------------------------------------------------
  // The successor descent and replace

  /** The successor descent of `replace`: follow left children from slot `cur`; reading a left
      child past the end throws. */
  function DescentAsWritten(a: seq<Option<int>>, cur: nat): (r: Result<nat>)
    requires cur < |a|
    ensures r.Ok? ==> r.value == Leftmost(a, cur) && r.value < |a|
    ensures r.Err? <==> Left(Leftmost(a, cur)) >= |a|
    ensures r.Err? ==> r.error == IndexOutOfBounds
    decreases |a| - cur
  {
    if Left(cur) >= |a| then Err(IndexOutOfBounds)
    else if a[Left(cur)].Some? then DescentAsWritten(a, Left(cur))
    else Ok(cur)
  }

  /** `replace(targetIndex)` of `ArrayBinarySearchTree`, as written. */
  function ReplaceAsWritten(a: seq<Option<int>>, t: nat, bound: int): (r: Result<seq<Option<int>>>)
    ensures r.Ok? ==> |r.value| == |a|
    ensures r.Err? ==> r.error == IndexOutOfBounds || r.error == NoSuchElement
  {
    if t >= |a| then Err(IndexOutOfBounds)
    else if Left(t) >= |a| || Right(t) >= |a| then Ok(a[t := None])
    else if a[Left(t)].None? && a[Right(t)].None? then Ok(a[t := None])
    else if a[Left(t)].Some? && a[Right(t)].None? then ShiftUpAsWritten(a, t, Left(t), bound)
    else if a[Left(t)].None? && a[Right(t)].Some? then ShiftUpAsWritten(a, t, Right(t), bound)
    else
      match DescentAsWritten(a, Right(t))
      case Err(e) => Err(e)
      case Ok(s) =>
        var a1 := a[t := a[s]];
        if Right(s) >= |a1| then Err(IndexOutOfBounds)
        else if a1[Right(s)].Some? then ShiftUpAsWritten(a1, s, Right(s), bound)
        else Ok(a1[s := None])
  }

  /** Whenever `replace` as written returns, it has done what the corrected `replace` does. */
  lemma ReplaceAsWrittenAgrees(a: seq<Option<int>>, t: nat, bound: int)
    ensures ReplaceAsWritten(a, t, bound).Ok? ==> ReplaceAsWritten(a, t, bound).value == Replace(a, t, bound)
  {
    if t < |a| && Left(t) < |a| && Right(t) < |a| {
      ParentOfChild(t);
      if a[Left(t)].Some? && a[Right(t)].None? {
        ShiftUpAsWrittenAgrees(a, t, Left(t), bound);
      } else if a[Left(t)].None? && a[Right(t)].Some? {
        ShiftUpAsWrittenAgrees(a, t, Right(t), bound);
      } else if a[Left(t)].Some? && a[Right(t)].Some? {
        var d := DescentAsWritten(a, Right(t));
        if d.Ok? {
          var s := d.value;
          var a1 := a[t := a[s]];
          assert a1 == Put(a, t, Get(a, s));
          ParentOfChild(s);
          if Right(s) < |a1| && a1[Right(s)].Some? {
            ShiftUpAsWrittenAgrees(a1, s, Right(s), bound);
          }
        }
      }
    }
  }

  // ---------------------------------------------------------------------------
  // remove

  /** `remove(target)`, as written. */
  function RemoveAsWritten(b: ArrayBst, x: int): (r: Result<ArrayBst>)
    requires -1 <= b.maxIndex < |b.base.tree|
    ensures r.Err? && r.error == ElementNotFound <==> FirstSlot(b.base.tree, x, 0, b.maxIndex) == -1
  {
    var slot := FirstSlot(b.base.tree, x, 0, b.maxIndex);
    if slot == -1 then Err(ElementNotFound)
    else
      match ReplaceAsWritten(b.base.tree, slot, LevelBound(b.height))
      case Err(e) => Err(e)
      case Ok(a) =>
        var m := LastOccupied(a, b.maxIndex);
        Ok(ArrayBst(b.base.(tree := a, count := b.base.count - 1), HeightOf(m), m))
  }

  /** Whenever `remove` as written returns, it has done what the corrected `remove` does, so
      it has deleted one copy of the target and kept the tree a search tree. */
  lemma RemoveAsWrittenAgrees(b: ArrayBst, x: int)
    requires Valid(b)
    ensures RemoveAsWritten(b, x).Ok? ==>
      && FirstSlot(b.base.tree, x, 0, b.maxIndex) >= 0
      && RemoveAsWritten(b, x).value == RemoveAt(b, FirstSlot(b.base.tree, x, 0, b.maxIndex))
      && Valid(RemoveAsWritten(b, x).value)
      && Elems(AsTree(RemoveAsWritten(b, x).value)) == Elems(AsTree(b)) - multiset{x}
  {
    var slot := FirstSlot(b.base.tree, x, 0, b.maxIndex);
    if slot >= 0 {
      ReplaceAsWrittenAgrees(b.base.tree, slot, LevelBound(b.height));
      RemoveAtRemoves(b, slot);
    }
  }

  // ---------------------------------------------------------------------------
  // removeMin, removeMax

  /** The left-child loop of `removeMin`: the read `tree[currentIndex]` comes before the test
      against the length, so a left spine reaching the last level reads past the end. */
  function MinLoopAsWritten(a: seq<Option<int>>, cur: nat, prev: nat): (r: Result<nat>)
    requires cur == Left(prev)
    ensures r.Ok? ==> r.value == Leftmost(a, prev)
    ensures r.Err? <==> Left(Leftmost(a, prev)) >= |a|
    ensures r.Err? ==> r.error == IndexOutOfBounds
    decreases |a| - cur
  {
    if cur >= |a| then Err(IndexOutOfBounds)
    else if a[cur].Some? && cur <= |a| then MinLoopAsWritten(a, Left(cur), cur)
    else Ok(prev)
  }

  /** The right-child loop of `removeMax`: the read `tree[currentIndex]` again comes before the
      test against maxIndex. */
  function MaxLoopAsWritten(a: seq<Option<int>>, maxIndex: int, cur: nat, prev: nat): (r: Result<nat>)
    requires cur == Right(prev)
    ensures r.Err? ==> r.error == IndexOutOfBounds
    decreases |a| - cur
  {
    if cur >= |a| then Err(IndexOutOfBounds)
    else if a[cur].Some? && cur as int <= maxIndex then MaxLoopAsWritten(a, maxIndex, Right(cur), cur)
    else Ok(prev)
  }

  /** With nothing stored above maxIndex the bound test never stops the loop early: it ends on
      the rightmost slot, and throws exactly when that slot's right child is past the end. */
  lemma {:induction false} MaxLoopAsWrittenFinds(a: seq<Option<int>>, maxIndex: int, cur: nat, prev: nat)
    requires cur == Right(prev) && NoneAbove(a, maxIndex)
    ensures MaxLoopAsWritten(a, maxIndex, cur, prev).Ok? ==> MaxLoopAsWritten(a, maxIndex, cur, prev).value == Rightmost(a, prev)
    ensures MaxLoopAsWritten(a, maxIndex, cur, prev).Err? <==> Right(Rightmost(a, prev)) >= |a|
    decreases |a| - cur
  {
    if cur < |a| && a[cur].Some? {
      MaxLoopAsWrittenFinds(a, maxIndex, Right(cur), cur);
    }
  }

  /** `removeMin`, as written; the removed reference may be null in Java,
      hence the option. */
  function RemoveMinAsWritten(b: ArrayBst): (r: Result<(Option<int>, ArrayBst)>)
    ensures ArrayTrees.IsEmpty(b.base) ==> r == Err(EmptyCollection)
  {
    if ArrayTrees.IsEmpty(b.base) then Err(EmptyCollection)
    else
      match MinLoopAsWritten(b.base.tree, 1, 0)
      case Err(e) => Err(e)
      case Ok(prev) =>
        if prev >= |b.base.tree| then Err(IndexOutOfBounds)
        else
          match ReplaceAsWritten(b.base.tree, prev, LevelBound(b.height))
          case Err(e) => Err(e)
          case Ok(a) => Ok((b.base.tree[prev], ArrayBst(b.base.(tree := a, count := b.base.count - 1), b.height, b.maxIndex)))
  }

  /** `removeMax`, as written. */
  function RemoveMaxAsWritten(b: ArrayBst): (r: Result<(Option<int>, ArrayBst)>)
    ensures ArrayTrees.IsEmpty(b.base) ==> r == Err(EmptyCollection)
  {
    if ArrayTrees.IsEmpty(b.base) then Err(EmptyCollection)
    else
      match MaxLoopAsWritten(b.base.tree, b.maxIndex, 2, 0)
      case Err(e) => Err(e)
      case Ok(prev) =>
        if prev >= |b.base.tree| then Err(IndexOutOfBounds)
        else
          match ReplaceAsWritten(b.base.tree, prev, LevelBound(b.height))
          case Err(e) => Err(e)
          case Ok(a) => Ok((b.base.tree[prev], ArrayBst(b.base.(tree := a, count := b.base.count - 1), b.height, b.maxIndex)))
  }

  /** Whenever `removeMin` as written returns, it has removed the least element. */
  lemma RemoveMinAsWrittenAgrees(b: ArrayBst)
    requires Valid(b)
    ensures RemoveMinAsWritten(b).Ok? ==>
      && RemoveMinAsWritten(b).value.0 == Some(Min(AsTree(b)))
      && AsTree(RemoveMinAsWritten(b).value.1) == Trees.RemoveMin(AsTree(b))
      && Valid(RemoveMinAsWritten(b).value.1)
  {
    if !ArrayTrees.IsEmpty(b.base) {
      assert Get(b.base.tree, 0).Some?;
      var s := Leftmost(b.base.tree, 0);
      ReplaceAsWrittenAgrees(b.base.tree, s, LevelBound(b.height));
      MinRemoved(b, s);
    }
  }

  /** Whenever `removeMax` as written returns, it has removed the greatest element. */
  lemma RemoveMaxAsWrittenAgrees(b: ArrayBst)
    requires Valid(b)
    ensures RemoveMaxAsWritten(b).Ok? ==>
      && RemoveMaxAsWritten(b).value.0 == Some(Max(AsTree(b)))
      && AsTree(RemoveMaxAsWritten(b).value.1) == Trees.RemoveMax(AsTree(b))
      && Valid(RemoveMaxAsWritten(b).value.1)
  {
    if !ArrayTrees.IsEmpty(b.base) {
      assert Get(b.base.tree, 0).Some?;
      MaxLoopAsWrittenFinds(b.base.tree, b.maxIndex, 2, 0);
      var s := Rightmost(b.base.tree, 0);
      ReplaceAsWrittenAgrees(b.base.tree, s, LevelBound(b.height));
      MaxRemoved(b, s);
    }
  }

  // ---------------------------------------------------------------------------
  // Trees on which the as-written removals throw

  /** A fresh tree after `insert` of each key in turn. */
  function InsertAll(keys: seq<int>): (b: ArrayBst)
    ensures b.base.count == |keys|
  {
    if keys == [] then EmptyBst()
    else InsertInto(InsertAll(keys[..|keys| - 1]), keys[|keys| - 1])
  }

  /** Every tree built by insertions satisfies the invariants. */
  lemma {:induction false} InsertAllValid(keys: seq<int>)
    ensures Valid(InsertAll(keys))
  {
    if keys != [] {
      InsertAllValid(keys[..|keys| - 1]);
      InsertIntoInserts(InsertAll(keys[..|keys| - 1]), keys[|keys| - 1]);
    }
  }

  /** A tree built by insertions from the fifty-slot empty tree, given by its array. */
  function Built(a: seq<Option<int>>, count: nat, maxIndex: int): ArrayBst
  {
    ArrayBst(ArrayBinaryTree(a, count, 0), HeightOf(maxIndex), maxIndex)
  }

  function NoSlots(): seq<Option<int>>
  {
    ArrayTrees.Empty<int>().tree
  }

  lemma InsertFirst(x: int)
    ensures InsertAll([x]) == Built(Put(NoSlots(), 0, Some(x)), 1, 0)
  {
    assert [x][..0] == [];
  }

  /** One more insertion into a built tree with room to spare lands on the slot of the walk. */
  lemma InsertNext(keys: seq<int>, x: int, next: seq<int>, a: seq<Option<int>>, count: nat, m: int, s: nat, mNext: int)
    requires next == keys + [x] && InsertAll(keys) == Built(a, count, m)
    requires count > 0 && |a| >= 2 * m + 3 && InsertSlot(a, 0, x) == s
    requires mNext == (if s > m then s else m)
    ensures InsertAll(next) == Built(Put(a, s, Some(x)), count + 1, mNext)
  {
    assert next[..|keys|] == keys;
  }

  /** The walk from `root` expands exactly the first e positions. */
  lemma ExpandedCountIs(root: nat, bound: int, e: nat)
    requires forall k | 0 <= k < e :: Expanded(root, bound, k)
    requires !Expanded(root, bound, e)
    ensures ExpandedCount(root, bound) == e
  {
  }

  /** insert 100, 200, 150, 120, 110, 105: a left spine below 150 reaching slot 47 of 50. */
  lemma DeepLeftSpine()
    ensures InsertAll([100, 200, 150, 120, 110, 105]) ==
      Built(Put(Put(Put(Put(Put(Put(NoSlots(), 0, Some(100)), 2, Some(200)), 5, Some(150)), 11, Some(120)),
                23, Some(110)), 47, Some(105)), 6, 47)
  {
    InsertFirst(100);
    var a1 := Put(NoSlots(), 0, Some(100));
    assert InsertSlot(a1, 0, 200) == InsertSlot(a1, 2, 200) == 2;
    InsertNext([100], 200, [100, 200], a1, 1, 0, 2, 2);
    var a2 := Put(a1, 2, Some(200));
    assert InsertSlot(a2, 0, 150) == InsertSlot(a2, 2, 150) == InsertSlot(a2, 5, 150) == 5;
    InsertNext([100, 200], 150, [100, 200, 150], a2, 2, 2, 5, 5);
    var a3 := Put(a2, 5, Some(150));
    assert InsertSlot(a3, 0, 120) == InsertSlot(a3, 2, 120) == InsertSlot(a3, 5, 120) == InsertSlot(a3, 11, 120) == 11;
    InsertNext([100, 200, 150], 120, [100, 200, 150, 120], a3, 3, 5, 11, 11);
    var a4 := Put(a3, 11, Some(120));
    assert InsertSlot(a4, 0, 110) == InsertSlot(a4, 2, 110) == InsertSlot(a4, 5, 110) == InsertSlot(a4, 11, 110)
        == InsertSlot(a4, 23, 110) == 23;
    InsertNext([100, 200, 150, 120], 110, [100, 200, 150, 120, 110], a4, 4, 11, 23, 23);
    var a5 := Put(a4, 23, Some(110));
    assert InsertSlot(a5, 0, 105) == InsertSlot(a5, 2, 105) == InsertSlot(a5, 5, 105) == InsertSlot(a5, 11, 105)
        == InsertSlot(a5, 23, 105) == InsertSlot(a5, 47, 105) == 47;
    InsertNext([100, 200, 150, 120, 110], 105, [100, 200, 150, 120, 110, 105], a5, 5, 23, 47, 47);
  }

  /** insert 50, 60, 55, 52, 51, 53: 52 at slot 11 has both children, and its successor 53
      sits at slot 24, whose right child would be slot 50. */
  lemma SuccessorOnLastLevel()
    ensures InsertAll([50, 60, 55, 52, 51, 53]) ==
      Built(Put(Put(Put(Put(Put(Put(NoSlots(), 0, Some(50)), 2, Some(60)), 5, Some(55)), 11, Some(52)),
                23, Some(51)), 24, Some(53)), 6, 24)
  {
    InsertFirst(50);
    var a1 := Put(NoSlots(), 0, Some(50));
    assert InsertSlot(a1, 0, 60) == InsertSlot(a1, 2, 60) == 2;
    InsertNext([50], 60, [50, 60], a1, 1, 0, 2, 2);
    var a2 := Put(a1, 2, Some(60));
    assert InsertSlot(a2, 0, 55) == InsertSlot(a2, 2, 55) == InsertSlot(a2, 5, 55) == 5;
    InsertNext([50, 60], 55, [50, 60, 55], a2, 2, 2, 5, 5);
    var a3 := Put(a2, 5, Some(55));
    assert InsertSlot(a3, 0, 52) == InsertSlot(a3, 2, 52) == InsertSlot(a3, 5, 52) == InsertSlot(a3, 11, 52) == 11;
    InsertNext([50, 60, 55], 52, [50, 60, 55, 52], a3, 3, 5, 11, 11);
    var a4 := Put(a3, 11, Some(52));
    assert InsertSlot(a4, 0, 51) == InsertSlot(a4, 2, 51) == InsertSlot(a4, 5, 51) == InsertSlot(a4, 11, 51)
        == InsertSlot(a4, 23, 51) == 23;
    InsertNext([50, 60, 55, 52], 51, [50, 60, 55, 52, 51], a4, 4, 11, 23, 23);
    var a5 := Put(a4, 23, Some(51));
    assert InsertSlot(a5, 0, 53) == InsertSlot(a5, 2, 53) == InsertSlot(a5, 5, 53) == InsertSlot(a5, 11, 53)
        == InsertSlot(a5, 24, 53) == 24;
    InsertNext([50, 60, 55, 52, 51], 53, [50, 60, 55, 52, 51, 53], a5, 5, 23, 24, 24);
  }

  /** insert 50, 60, 55, 52, 57, 56: 55 at slot 5 has both children, and the successor
      descent from slot 12 passes slot 25, whose left child would be slot 51. */
  lemma SuccessorBelowLastLevel()
    ensures InsertAll([50, 60, 55, 52, 57, 56]) ==
      Built(Put(Put(Put(Put(Put(Put(NoSlots(), 0, Some(50)), 2, Some(60)), 5, Some(55)), 11, Some(52)),
                12, Some(57)), 25, Some(56)), 6, 25)
  {
    InsertFirst(50);
    var a1 := Put(NoSlots(), 0, Some(50));
    assert InsertSlot(a1, 0, 60) == InsertSlot(a1, 2, 60) == 2;
    InsertNext([50], 60, [50, 60], a1, 1, 0, 2, 2);
    var a2 := Put(a1, 2, Some(60));
    assert InsertSlot(a2, 0, 55) == InsertSlot(a2, 2, 55) == InsertSlot(a2, 5, 55) == 5;
    InsertNext([50, 60], 55, [50, 60, 55], a2, 2, 2, 5, 5);
    var a3 := Put(a2, 5, Some(55));
    assert InsertSlot(a3, 0, 52) == InsertSlot(a3, 2, 52) == InsertSlot(a3, 5, 52) == InsertSlot(a3, 11, 52) == 11;
    InsertNext([50, 60, 55], 52, [50, 60, 55, 52], a3, 3, 5, 11, 11);
    var a4 := Put(a3, 11, Some(52));
    assert InsertSlot(a4, 0, 57) == InsertSlot(a4, 2, 57) == InsertSlot(a4, 5, 57) == InsertSlot(a4, 12, 57) == 12;
    InsertNext([50, 60, 55, 52], 57, [50, 60, 55, 52, 57], a4, 4, 11, 12, 12);
    var a5 := Put(a4, 12, Some(57));
    assert InsertSlot(a5, 0, 56) == InsertSlot(a5, 2, 56) == InsertSlot(a5, 5, 56) == InsertSlot(a5, 12, 56)
        == InsertSlot(a5, 25, 56) == 25;
    InsertNext([50, 60, 55, 52, 57], 56, [50, 60, 55, 52, 57, 56], a5, 5, 12, 25, 25);
  }

  /** insert 60, 50, 40, 30, 20, 10: a left spine through slots 0, 1, 3, 7, 15 and 31. */
  lemma LeftSpine()
    ensures InsertAll([60, 50, 40, 30, 20, 10]) ==
      Built(Put(Put(Put(Put(Put(Put(NoSlots(), 0, Some(60)), 1, Some(50)), 3, Some(40)), 7, Some(30)),
                15, Some(20)), 31, Some(10)), 6, 31)
  {
    InsertFirst(60);
    var a1 := Put(NoSlots(), 0, Some(60));
    assert InsertSlot(a1, 0, 50) == InsertSlot(a1, 1, 50) == 1;
    InsertNext([60], 50, [60, 50], a1, 1, 0, 1, 1);
    var a2 := Put(a1, 1, Some(50));
    assert InsertSlot(a2, 0, 40) == InsertSlot(a2, 1, 40) == InsertSlot(a2, 3, 40) == 3;
    InsertNext([60, 50], 40, [60, 50, 40], a2, 2, 1, 3, 3);
    var a3 := Put(a2, 3, Some(40));
    assert InsertSlot(a3, 0, 30) == InsertSlot(a3, 1, 30) == InsertSlot(a3, 3, 30) == InsertSlot(a3, 7, 30) == 7;
    InsertNext([60, 50, 40], 30, [60, 50, 40, 30], a3, 3, 3, 7, 7);
    var a4 := Put(a3, 7, Some(30));
    assert InsertSlot(a4, 0, 20) == InsertSlot(a4, 1, 20) == InsertSlot(a4, 3, 20) == InsertSlot(a4, 7, 20)
        == InsertSlot(a4, 15, 20) == 15;
    InsertNext([60, 50, 40, 30], 20, [60, 50, 40, 30, 20], a4, 4, 7, 15, 15);
    var a5 := Put(a4, 15, Some(20));
    assert InsertSlot(a5, 0, 10) == InsertSlot(a5, 1, 10) == InsertSlot(a5, 3, 10) == InsertSlot(a5, 7, 10)
        == InsertSlot(a5, 15, 10) == InsertSlot(a5, 31, 10) == 31;
    InsertNext([60, 50, 40, 30, 20], 10, [60, 50, 40, 30, 20, 10], a5, 5, 15, 31, 31);
  }

  /** insert 10, 20, 30, 40, 50: a right spine through slots 0, 2, 6, 14 and 30. */
  lemma RightSpine()
    ensures InsertAll([10, 20, 30, 40, 50]) ==
      Built(Put(Put(Put(Put(Put(NoSlots(), 0, Some(10)), 2, Some(20)), 6, Some(30)), 14, Some(40)),
                30, Some(50)), 5, 30)
  {
    InsertFirst(10);
    var a1 := Put(NoSlots(), 0, Some(10));
    assert InsertSlot(a1, 0, 20) == InsertSlot(a1, 2, 20) == 2;
    InsertNext([10], 20, [10, 20], a1, 1, 0, 2, 2);
    var a2 := Put(a1, 2, Some(20));
    assert InsertSlot(a2, 0, 30) == InsertSlot(a2, 2, 30) == InsertSlot(a2, 6, 30) == 6;
    InsertNext([10, 20], 30, [10, 20, 30], a2, 2, 2, 6, 6);
    var a3 := Put(a2, 6, Some(30));
    assert InsertSlot(a3, 0, 40) == InsertSlot(a3, 2, 40) == InsertSlot(a3, 6, 40) == InsertSlot(a3, 14, 40) == 14;
    InsertNext([10, 20, 30], 40, [10, 20, 30, 40], a3, 3, 6, 14, 14);
    var a4 := Put(a3, 14, Some(40));
    assert InsertSlot(a4, 0, 50) == InsertSlot(a4, 2, 50) == InsertSlot(a4, 6, 50) == InsertSlot(a4, 14, 50)
        == InsertSlot(a4, 30, 50) == 30;
    InsertNext([10, 20, 30, 40], 50, [10, 20, 30, 40, 50], a4, 4, 14, 30, 30);
  }

  // ---------------------------------------------------------------------------
  // The throws

  /** A left-only slot 5 with the bound of height 6 in a fifty-slot array: the child's list
      from 11 is 11, 23, 24, 47, 48, 49, 50 and the vacated list from 5 is longer, so the
      seventh turn of the copy reads slot 50. */
  lemma LeftOnlyShiftThrows(a: seq<Option<int>>, bound: int)
    requires |a| == 50 && a[11].Some? && a[12].None? && bound == 62
    ensures ReplaceAsWritten(a, 5, bound) == Err(IndexOutOfBounds)
  {
    ShiftFrom11Copies(a, bound);
    CopyFrom11Throws(a, bound);
  }

  /** Shifting slot 11 up into slot 5 copies along the corrected lists of both walks. */
  lemma ShiftFrom11Copies(a: seq<Option<int>>, bound: int)
    requires bound == 62
    ensures ShiftUpAsWritten(a, 5, 11, bound) == CopyAsWritten(a, LevelList(5, bound), LevelList(11, bound), 0)
  {
    ListsFrom5(ArrayLists.Empty<nat>(), bound);
  }

  lemma CopyFrom11Throws(a: seq<Option<int>>, bound: int)
    requires |a| == 50 && bound == 62
    ensures CopyAsWritten(a, LevelList(5, bound), LevelList(11, bound), 0) == Err(IndexOutOfBounds)
  {
    ListLengths(bound);
    var srcs := LevelList(11, bound);
    var dsts := LevelList(5, bound);
    assert srcs[6] == Rel(11, 6) == 50;
    forall i | 0 <= i < 6 ensures dsts[i] < |a| && srcs[i] < |a| {
      RelMonotoneStrict(11, i, 6);
      RelMonotoneStrict(5, i, 6);
    }
    CopyAsWrittenThrows(a, dsts, srcs, 0, 6);
  }

  /** Under the bound of height 6 the walk from 11 expands 3 positions and the walk from 5
      expands 7. */
  lemma ListLengths(bound: int)
    requires bound == 62
    ensures ExpandedCount(11, bound) == 3 && ExpandedCount(5, bound) == 7
    ensures |LevelList(11, bound)| == 7 && |LevelList(5, bound)| == 15
  {
    assert Rel(11, 1) == 23 && Rel(11, 2) == 24 && Rel(11, 3) == 47;
    ExpandedCountIs(11, bound, 3);
    assert Rel(5, 1) == 11 && Rel(5, 2) == 12 && Rel(5, 3) == 23 && Rel(5, 4) == 24;
    assert Rel(5, 5) == 25 && Rel(5, 6) == 26 && Rel(5, 7) == 47;
    ExpandedCountIs(5, bound, 7);
  }

  /** Both as-written walks return, so neither queue overflows. */
  lemma ListsFrom5(empty: ArrayLists.ArrayList<nat>, bound: int)
    requires empty == ArrayLists.Empty() && bound == 62
    ensures var r1 := LevelListAsWritten(empty, 11, bound);
      && r1.Ok? && r1.value.0 == LevelList(11, bound)
      && var r2 := LevelListAsWritten(r1.value.1, 5, bound);
      && r2.Ok? && r2.value.0 == LevelList(5, bound)
  {
    ListLengths(bound);
    LevelListAsWrittenFails(empty, 11, bound);
    LevelListAsWrittenFails(LevelListAsWritten(empty, 11, bound).value.1, 5, bound);
  }

  /** A left-only slot 2 with the bound of height 6: the walk from 2 expands fifteen leading
      positions, so its queue fills the ten-slot array list and `removeAt` throws. */
  lemma LeftOnlyQueueThrows(a: seq<Option<int>>, bound: int)
    requires |a| == 50 && a[5].Some? && a[6].None? && bound == 62
    ensures ReplaceAsWritten(a, 2, bound) == Err(IndexOutOfBounds)
  {
    ShiftFrom5Throws(a, bound);
  }

  /** Shifting slot 5 up into slot 2 overflows the queue on the second walk. */
  lemma ShiftFrom5Throws(a: seq<Option<int>>, bound: int)
    requires bound == 62
    ensures ShiftUpAsWritten(a, 2, 5, bound) == Err(IndexOutOfBounds)
  {
    var empty := ArrayLists.Empty<nat>();
    QueueAfter5(empty, bound);
    QueueFrom2Overflows(LevelListAsWritten(empty, 5, bound).value.1, bound);
  }

  lemma QueueAfter5(empty: ArrayLists.ArrayList<nat>, bound: int)
    requires empty == ArrayLists.Empty() && bound == 62
    ensures var r := LevelListAsWritten(empty, 5, bound);
      r.Ok? && r.value.1.size == 0 && |r.value.1.list| == ArrayLists.DefaultCapacity
  {
    ListLengths(bound);
    LevelListAsWrittenFails(empty, 5, bound);
  }

  lemma QueueFrom2Overflows(temp: ArrayLists.ArrayList<nat>, bound: int)
    requires ArrayLists.Valid(temp) && temp.size == 0 && |temp.list| == ArrayLists.DefaultCapacity
    requires bound == 62
    ensures LevelListAsWritten(temp, 2, bound) == Err(IndexOutOfBounds)
  {
    WideFrom2(bound);
    LevelListAsWrittenFails(temp, 2, bound);
  }

  lemma WideFrom2(bound: int)
    requires bound == 62
    ensures ExpandedCount(2, bound) >= 9
  {
    assert Rel(2, 1) == 5 && Rel(2, 2) == 6 && Rel(2, 3) == 11 && Rel(2, 4) == 12;
    assert Rel(2, 5) == 13 && Rel(2, 6) == 14 && Rel(2, 7) == 23 && Rel(2, 8) == 24;
    assert forall k | 0 <= k < 9 :: Expanded(2, bound, k);
  }

  /** Two children at slot 11 of fifty, successor at slot 24 without a left child: reading
      its right child reads slot 50. */
  lemma SuccessorRightChildThrows(a: seq<Option<int>>, bound: int)
    requires |a| == 50 && a[23].Some? && a[24].Some? && a[49].None?
    ensures ReplaceAsWritten(a, 11, bound) == Err(IndexOutOfBounds)
  {
    assert DescentAsWritten(a, 24) == Ok(24);
  }

  /** Two children at slot 5 of fifty, slot 25 occupied: the descent from 12 goes on to 25 and
      reads its left child, slot 51. */
  lemma SuccessorDescentThrows(a: seq<Option<int>>, bound: int)
    requires |a| == 50 && a[11].Some? && a[12].Some? && a[25].Some?
    ensures ReplaceAsWritten(a, 5, bound) == Err(IndexOutOfBounds)
  {
    assert DescentAsWritten(a, 25) == Err(IndexOutOfBounds);
    assert DescentAsWritten(a, 12) == DescentAsWritten(a, 25);
  }

  /** The slots the removals below look at in the tree of `DeepLeftSpine`: 200 first met at
      slot 2 and 150 at slot 5, each with a left child only, under height 6. */
  predicate DeepLeftSpineShape(b: ArrayBst)
  {
    var a := b.base.tree;
      && |a| == 50 && b.maxIndex == 47 && b.height == 6
      && a[2] == Some(200) && a[5] == Some(150) && a[6].None? && a[11].Some? && a[12].None?
      && (forall i | 0 <= i < 5 :: a[i] != Some(150)) && (forall i | 0 <= i < 2 :: a[i] != Some(200))
  }

  lemma DeepLeftSpineSlots()
    ensures DeepLeftSpineShape(InsertAll([100, 200, 150, 120, 110, 105]))
  {
    DeepLeftSpine();
  }

  /** `remove` as written passes on the exception of `replace` at the slot its search finds. */
  lemma RemoveThrowsWith(b: ArrayBst, x: int, slot: nat, e: Error)
    requires -1 <= b.maxIndex < |b.base.tree|
    requires FirstSlot(b.base.tree, x, 0, b.maxIndex) == slot
    requires ReplaceAsWritten(b.base.tree, slot, LevelBound(b.height)) == Err(e)
    ensures RemoveAsWritten(b, x) == Err(e)
  {
  }

  /** Any tree shaped like the one of `DeepLeftSpine` makes `remove` as written throw for
      150, in the copy loop of `replace`, and for 200, in the queue of the level-order walk. */
  lemma DeepLeftSpineThrows(b: ArrayBst)
    requires DeepLeftSpineShape(b)
    ensures RemoveAsWritten(b, 150) == Err(IndexOutOfBounds)
    ensures RemoveAsWritten(b, 200) == Err(IndexOutOfBounds)
  {
    var a := b.base.tree;
    assert LevelBound(6) == 62;
    FirstSlotSkips(a, 150, 0, 5, 47);
    LeftOnlyShiftThrows(a, LevelBound(b.height));
    RemoveThrowsWith(b, 150, 5, IndexOutOfBounds);
    FirstSlotSkips(a, 200, 0, 2, 47);
    LeftOnlyQueueThrows(a, LevelBound(b.height));
    RemoveThrowsWith(b, 200, 2, IndexOutOfBounds);
  }

  /** remove(150) after insert 100, 200, 150, 120, 110, 105 throws in the copy of lines
      331-338, although 150 is in the tree, which satisfies every invariant; the corrected
      `remove` deletes it. */
  lemma RemoveCopyReadsPastEnd()
    ensures var b := InsertAll([100, 200, 150, 120, 110, 105]);
      && Valid(b) && 150 in Elems(AsTree(b))
      && RemoveAsWritten(b, 150) == Err(IndexOutOfBounds)
  {
    var b := InsertAll([100, 200, 150, 120, 110, 105]);
    InsertAllValid([100, 200, 150, 120, 110, 105]);
    DeepLeftSpineSlots();
    DeepLeftSpineThrows(b);
    FirstSlotIsMembership(b, 150);
  }

  /** remove(200) in the same tree throws inside the queue of the level-order walk. */
  lemma RemoveQueueOverflows()
    ensures var b := InsertAll([100, 200, 150, 120, 110, 105]);
      && Valid(b) && 200 in Elems(AsTree(b))
      && RemoveAsWritten(b, 200) == Err(IndexOutOfBounds)
  {
    var b := InsertAll([100, 200, 150, 120, 110, 105]);
    InsertAllValid([100, 200, 150, 120, 110, 105]);
    DeepLeftSpineSlots();
    DeepLeftSpineThrows(b);
    FirstSlotIsMembership(b, 200);
  }

  lemma SuccessorOnLastLevelSlots()
    ensures var b := InsertAll([50, 60, 55, 52, 51, 53]); var a := b.base.tree;
      && |a| == 50 && b.maxIndex == 24
      && a[11] == Some(52) && a[23].Some? && a[24].Some? && a[49].None?
      && (forall i | 0 <= i < 11 :: a[i] != Some(52))
  {
    SuccessorOnLastLevel();
  }

  /** remove(52) after insert 50, 60, 55, 52, 51, 53 throws reading the successor's right
      child in the `replace` successor case. */
  lemma RemoveSuccessorReadsPastEnd()
    ensures var b := InsertAll([50, 60, 55, 52, 51, 53]);
      && Valid(b) && 52 in Elems(AsTree(b))
      && RemoveAsWritten(b, 52) == Err(IndexOutOfBounds)
  {
    var b := InsertAll([50, 60, 55, 52, 51, 53]);
    InsertAllValid([50, 60, 55, 52, 51, 53]);
    assert FirstSlot(b.base.tree, 52, 0, b.maxIndex) == 11
        && ReplaceAsWritten(b.base.tree, 11, LevelBound(b.height)) == Err(IndexOutOfBounds) by {
      SuccessorOnLastLevelSlots();
      FirstSlotSkips(b.base.tree, 52, 0, 11, 24);
      SuccessorRightChildThrows(b.base.tree, LevelBound(b.height));
    }
    FirstSlotIsMembership(b, 52);
    RemoveThrowsWith(b, 52, 11, IndexOutOfBounds);
  }

  /** The slots the removal below looks at in the tree of `SuccessorBelowLastLevel`: 55 first
      met at slot 5 with two children, and slot 25 on the successor's descent occupied. */
  predicate SuccessorBelowLastLevelShape(b: ArrayBst)
  {
    var a := b.base.tree;
      && |a| == 50 && b.maxIndex == 25
      && a[5] == Some(55) && a[11].Some? && a[12].Some? && a[25].Some?
      && (forall i | 0 <= i < 5 :: a[i] != Some(55))
  }

  lemma SuccessorBelowLastLevelSlots()
    ensures SuccessorBelowLastLevelShape(InsertAll([50, 60, 55, 52, 57, 56]))
  {
    SuccessorBelowLastLevel();
  }

  /** remove(55) after insert 50, 60, 55, 52, 57, 56 throws in the successor descent (line
      386). */
  lemma RemoveDescentReadsPastEnd()
    ensures var b := InsertAll([50, 60, 55, 52, 57, 56]);
      && Valid(b) && 55 in Elems(AsTree(b))
      && RemoveAsWritten(b, 55) == Err(IndexOutOfBounds)
  {
    var b := InsertAll([50, 60, 55, 52, 57, 56]);
    InsertAllValid([50, 60, 55, 52, 57, 56]);
    SuccessorBelowLastLevelSlots();
    SuccessorDescentRemoveThrows(b);
    FirstSlotIsMembership(b, 55);
  }

  /** Any tree shaped like the one of `SuccessorBelowLastLevel` finds 55 at slot 5 and makes
      `remove` as written throw for it in the successor descent. */
  lemma SuccessorDescentRemoveThrows(b: ArrayBst)
    requires SuccessorBelowLastLevelShape(b)
    ensures FirstSlot(b.base.tree, 55, 0, b.maxIndex) == 5
    ensures RemoveAsWritten(b, 55) == Err(IndexOutOfBounds)
  {
    FirstSlotSkips(b.base.tree, 55, 0, 5, 25);
    SuccessorDescentThrows(b.base.tree, LevelBound(b.height));
    RemoveThrowsWith(b, 55, 5, IndexOutOfBounds);
  }

  /** The search finds slot p when no earlier slot from i on holds the target. */
  lemma {:induction false} FirstSlotSkips(a: seq<Option<int>>, x: int, i: nat, p: nat, maxIndex: int)
    requires maxIndex < |a| && i <= p <= maxIndex && a[p] == Some(x)
    requires forall q | i <= q < p :: a[q] != Some(x)
    ensures FirstSlot(a, x, i, maxIndex) == p
    decreases p - i
  {
    if i < p {
      FirstSlotSkips(a, x, i + 1, p, maxIndex);
    }
  }

  lemma LeftSpineSlots()
    ensures var b := InsertAll([60, 50, 40, 30, 20, 10]); var a := b.base.tree;
      && |a| == 50 && b.base.count == 6 && Leftmost(a, 0) == 31
  {
    LeftSpine();
    var a := InsertAll([60, 50, 40, 30, 20, 10]).base.tree;
    assert Leftmost(a, 0) == Leftmost(a, 1) == Leftmost(a, 3) == Leftmost(a, 7) == Leftmost(a, 15)
        == Leftmost(a, 31) == 31;
  }

  /** removeMin after insert 60, 50, 40, 30, 20, 10 reads slot 63 of 50 in its left-child loop; the
      corrected `removeMin` removes 10. */
  lemma RemoveMinReadsPastEnd()
    ensures var b := InsertAll([60, 50, 40, 30, 20, 10]);
      && Valid(b) && AsTree(b) != Nil
      && RemoveMinAsWritten(b) == Err(IndexOutOfBounds)
  {
    LeftSpineSlots();
    InsertAllValid([60, 50, 40, 30, 20, 10]);
  }

  lemma RightSpineSlots()
    ensures var b := InsertAll([10, 20, 30, 40, 50]); var a := b.base.tree;
      && |a| == 50 && b.base.count == 5 && b.maxIndex == 30 && Rightmost(a, 0) == 30
  {
    RightSpine();
    var a := InsertAll([10, 20, 30, 40, 50]).base.tree;
    assert Rightmost(a, 0) == Rightmost(a, 2) == Rightmost(a, 6) == Rightmost(a, 14) == Rightmost(a, 30) == 30;
  }

  /** removeMax after insert 10, 20, 30, 40, 50 reads slot 62 of 50 in its right-child loop; the corrected
      `removeMax` removes 50. */
  lemma RemoveMaxReadsPastEnd()
    ensures var b := InsertAll([10, 20, 30, 40, 50]);
      && Valid(b) && AsTree(b) != Nil
      && RemoveMaxAsWritten(b) == Err(IndexOutOfBounds)
  {
    var b := InsertAll([10, 20, 30, 40, 50]);
    RightSpineSlots();
    InsertAllValid([10, 20, 30, 40, 50]);
    MaxLoopAsWrittenFinds(b.base.tree, 30, 2, 0);
  }
}
