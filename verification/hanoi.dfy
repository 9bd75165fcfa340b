/** The Towers of Hanoi move generator. The moves that `moveDisk` prints are collected into
    a sequence instead, and a simulation of the three pegs checks them against the rules. */
module Hanoi {
  import opened Wrappers
  import opened HeapIndex

  /** One printed instruction, "Moving disk from `from` to `to`". */
  datatype Move = Move(from: char, to: char)

  /** `moveTower(n, fromPeg, toPeg, withPeg)`: one disk moves directly; more move the `n - 1`
      above out of the way onto the spare peg, move the largest, then bring the `n - 1` back
      on top of it. A tower of `n` disks takes `2^n - 1` moves. */
  function MoveTower(n: int, fromPeg: char, toPeg: char, withPeg: char): (moves: seq<Move>)
    requires n >= 1
    ensures |moves| == Pow2(n) - 1
    decreases n
  {
    if n == 1 then [Move(fromPeg, toPeg)]
    else MoveTower(n - 1, fromPeg, withPeg, toPeg) + [Move(fromPeg, toPeg)] + MoveTower(n - 1, withPeg, toPeg, fromPeg)
  }

  /** `solve`: the whole tower from peg 'A' to peg 'C', using 'B' as the spare. */
  function Solve(totalDisks: int): (moves: seq<Move>)
    requires totalDisks >= 1
    ensures |moves| == Pow2(totalDisks) - 1
  {
    MoveTower(totalDisks, 'A', 'C', 'B')
  }

  /** `moveTower` as written, run on a call stack with room for `depth` nested calls. Its only
      base case is `n == 1`, so for `n <= 0` every call recurses again and the stack overflows
      whatever its size; a positive `n` needs `n` frames and then produces `MoveTower`. */
  function MoveTowerAsWritten(n: int, fromPeg: char, toPeg: char, withPeg: char, depth: nat): (r: Result<seq<Move>>)
    ensures r.Err? ==> r.error == StackOverflow
    ensures n <= 0 ==> r.Err?
    ensures n >= 1 && depth >= n ==> r == Ok(MoveTower(n, fromPeg, toPeg, withPeg))
    decreases depth
  {
    if depth == 0 then Err(StackOverflow)
    else if n == 1 then Ok([Move(fromPeg, toPeg)])
    else
      match MoveTowerAsWritten(n - 1, fromPeg, withPeg, toPeg, depth - 1)
      case Err(e) => Err(e)
      case Ok(first) =>
        match MoveTowerAsWritten(n - 1, withPeg, toPeg, fromPeg, depth - 1)
        case Err(e) => Err(e)
        case Ok(rest) => Ok(first + [Move(fromPeg, toPeg)] + rest)
  }

  /** `new TowersOfHanoi(0).solve()` overflows the stack, however deep the stack is. */
  lemma SolveNoDisksOverflows(depth: nat)
    ensures MoveTowerAsWritten(0, 'A', 'C', 'B', depth) == Err(StackOverflow)
  {
  }

  /** `solve` as evidently intended: a tower of no disks (or a negative count) needs no moves. */
  function SolveAnyCount(totalDisks: int): (moves: seq<Move>)
    ensures totalDisks <= 0 ==> moves == []
    ensures totalDisks >= 1 ==> |moves| == Pow2(totalDisks) - 1
  {
    if totalDisks <= 0 then [] else Solve(totalDisks)
  }

  /** Disks are numbered by size. A peg lists its disks from the bottom up. */
  type Pegs = map<char, seq<int>>

  /** Disks `n` down to 1, the largest at the bottom. */
  function Tower(n: nat): (t: seq<int>)
    ensures |t| == n
  {
    if n == 0 then [] else [n] + Tower(n - 1)
  }

  /** One move under the rules: it takes the top disk of a peg that has one and may not put
      it on a smaller disk. A move that breaks a rule gives `None`. */
  function Step(pegs: Pegs, m: Move): (r: Option<Pegs>)
    ensures r.Some? ==> m.from in pegs && m.to in pegs && pegs[m.from] != []
  {
    if m.from !in pegs || m.to !in pegs || pegs[m.from] == [] then None
    else
      var source := pegs[m.from];
      var disk := source[|source| - 1];
      if pegs[m.to] != [] && pegs[m.to][|pegs[m.to]| - 1] < disk then None
      else Some(pegs[m.from := source[..|source| - 1]][m.to := pegs[m.to] + [disk]])
  }

  /** The moves played in order from `pegs`, or `None` at the first illegal one. */
  function Run(pegs: Pegs, moves: seq<Move>): Option<Pegs>
    decreases |moves|
  {
    if moves == [] then Some(pegs)
    else
      match Step(pegs, moves[0])
      case None => None
      case Some(next) => Run(next, moves[1..])
  }

  /** The moves played after an earlier outcome: an illegal move earlier stays illegal. */
  function RunAfter(outcome: Option<Pegs>, moves: seq<Move>): Option<Pegs>
  {
    match outcome
    case None => None
    case Some(pegs) => Run(pegs, moves)
  }

  /** Playing two lists of moves in turn is playing their concatenation. */
  lemma {:induction false} RunAppend(pegs: Pegs, xs: seq<Move>, ys: seq<Move>)
    ensures Run(pegs, xs + ys) == RunAfter(Run(pegs, xs), ys)
    decreases |xs|
  {
    if xs != [] {
      assert (xs + ys)[1..] == xs[1..] + ys;
      match Step(pegs, xs[0])
      case None =>
      case Some(next) => RunAppend(next, xs[1..], ys);
    } else {
      assert xs + ys == ys;
    }
  }

  /** Every disk on the peg is larger than `n`. */
  ghost predicate AllAbove(peg: seq<int>, n: int)
  {
    forall i | 0 <= i < |peg| :: peg[i] > n
  }

  /** The rules are kept: moving the top `n` disks from `f` to `t` over pegs whose disks are all
      larger than `n` is legal at every step and ends with those disks on `t` in the same order,
      every other peg as it was. */
  lemma {:induction false} TowerMoves(n: int, f: char, t: char, w: char, pegs: Pegs, base: seq<int>)
    requires n >= 1 && f != t && t != w && w != f
    requires f in pegs && t in pegs && w in pegs
    requires pegs[f] == base + Tower(n)
    requires AllAbove(base, n) && AllAbove(pegs[t], n) && AllAbove(pegs[w], n)
    ensures Run(pegs, MoveTower(n, f, t, w)) == Some(pegs[f := base][t := pegs[t] + Tower(n)])
    decreases n
  {
    if n == 1 {
      TopMove(pegs, f, t, base, 1);
    } else {
      var first, rest := MoveTower(n - 1, f, w, t), MoveTower(n - 1, w, t, f);
      assert pegs[f] == (base + [n]) + Tower(n - 1);
      TowerMoves(n - 1, f, w, t, pegs, base + [n]);
      var p1 := pegs[f := base + [n]][w := pegs[w] + Tower(n - 1)];
      TopMove(p1, f, t, base, n);
      var p2 := p1[f := base][t := pegs[t] + [n]];
      assert AllAbove(p2[t], n - 1);
      TowerMoves(n - 1, w, t, f, p2, pegs[w]);
      RunAppend(pegs, first, [Move(f, t)]);
      RunAppend(pegs, first + [Move(f, t)], rest);
      FinalPegs(pegs, f, t, w, base, n);
    }
  }

  /** The pegs after the three stages of `TowerMoves` are the pegs it promises. */
  lemma FinalPegs(pegs: Pegs, f: char, t: char, w: char, base: seq<int>, n: int)
    requires n >= 1 && f != t && t != w && w != f && f in pegs && t in pegs && w in pegs
    ensures var p2 := pegs[f := base + [n]][w := pegs[w] + Tower(n - 1)][f := base][t := pegs[t] + [n]];
            p2[w := pegs[w]][t := p2[t] + Tower(n - 1)] == pegs[f := base][t := pegs[t] + Tower(n)]
  {
    var p2 := pegs[f := base + [n]][w := pegs[w] + Tower(n - 1)][f := base][t := pegs[t] + [n]];
    assert p2[w := pegs[w]] == pegs[f := base][t := pegs[t] + [n]];
    assert (pegs[t] + [n]) + Tower(n - 1) == pegs[t] + Tower(n);
  }

  /** The single move of disk `n` from the top of `f` onto a peg of larger disks. */
  lemma TopMove(pegs: Pegs, f: char, t: char, base: seq<int>, n: int)
    requires f != t && f in pegs && t in pegs
    requires pegs[f] == base + [n] && AllAbove(pegs[t], n)
    ensures Run(pegs, [Move(f, t)]) == Some(pegs[f := base][t := pegs[t] + [n]])
  {
    assert (base + [n])[..|base|] == base;
  }

  /** All disks on 'A' to begin with. */
  function Start(totalDisks: nat): Pegs
  {
    map['A' := Tower(totalDisks), 'B' := [], 'C' := []]
  }

  /** `solve` follows the rules throughout and leaves the whole tower on 'C'. */
  lemma SolveEnds(totalDisks: int)
    requires totalDisks >= 1
    ensures Run(Start(totalDisks), Solve(totalDisks)) == Some(map['A' := [], 'B' := [], 'C' := Tower(totalDisks)])
  {
    var pegs := Start(totalDisks);
    assert pegs['A'] == [] + Tower(totalDisks);
    TowerMoves(totalDisks, 'A', 'C', 'B', pegs, []);
    assert pegs['A' := []]['C' := pegs['C'] + Tower(totalDisks)] == map['A' := [], 'B' := [], 'C' := Tower(totalDisks)];
  }

  /** For every disk count, the intended `solve` follows the rules throughout and leaves all
      the disks there are on 'C'. */
  lemma SolveAnyCountEnds(totalDisks: int)
    ensures var n := if totalDisks < 0 then 0 else totalDisks;
            Run(Start(n), SolveAnyCount(totalDisks)) == Some(map['A' := [], 'B' := [], 'C' := Tower(n)])
  {
    if totalDisks >= 1 {
      SolveEnds(totalDisks);
    } else {
      assert Start(0) == map['A' := [], 'B' := [], 'C' := Tower(0)];
    }
  }
}
