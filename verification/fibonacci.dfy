/** The three Fibonacci routines. Java's `long` is modelled as an unbounded integer. */
module Fibonacci {
  import opened Wrappers

  /** `recursiveFibonacci(n)`: 0 for `n <= 0`, 1 for `n == 1`, the sum of the two before
      otherwise. */
  function Fib(n: int): (f: nat)
    ensures n >= 1 ==> f >= 1
    decreases n
  {
    if n <= 0 then 0
    else if n == 1 then 1
    else Fib(n - 1) + Fib(n - 2)
  }

  /** The pair `(F(n), F(n + 1))` computed upward from `(0, 1)`: an independent, linear
      definition of the same sequence for `n >= 0`. */
  function FibPair(n: nat): (p: (nat, nat))
  {
    if n == 0 then (0, 1)
    else
      var (a, b) := FibPair(n - 1);
      (b, a + b)
  }

  /** The upward pairs agree with the recursive definition. */
  lemma {:induction false} FibPairAgrees(n: nat)
    ensures FibPair(n) == (Fib(n), Fib(n + 1))
  {
    if n > 0 {
      FibPairAgrees(n - 1);
    }
  }

  /** `dynamicTDFibonacci(n)`: it first allocates `new long[n + 1]`, which fails for
      `n <= -2`. The table is local to each call, so the test `table[n] == 0` always holds and
      every call recomputes both predecessors; nothing is remembered, and the table is left
      out. The recursive calls never fail, as their arguments are at least 0. */
  function DynamicTD(n: int): (r: Result<int>)
    ensures r.Err? <==> n <= -2
    ensures r.Err? ==> r.error == NegativeArraySize
    ensures r.Ok? ==> r.value == Fib(n)
    decreases n
  {
    if n + 1 < 0 then Err(NegativeArraySize)
    else if n <= 0 then Ok(0)
    else if n == 1 then Ok(1)
    else Ok(DynamicTD(n - 1).value + DynamicTD(n - 2).value)
  }

  /** `dynamicBUFibonacci(n)`: allocates `new long[n + 1]`, writes `table[0]` and `table[1]`,
      then fills the table upward. A negative size fails at the allocation, and `n` of 0 or
      -1 leaves a table too short for the writes to slots 0 and 1. */
  method DynamicBU(n: int) returns (r: Result<int>)
    ensures r.Err? <==> n <= 0
    ensures n <= -2 ==> r == Err(NegativeArraySize)
    ensures -1 <= n <= 0 ==> r == Err(IndexOutOfBounds)
    ensures r.Ok? ==> r.value == Fib(n)
  {
    if n + 1 < 0 {
      return Err(NegativeArraySize);
    }
    var table: seq<int> := seq(n + 1, _ => 0);
    if |table| < 2 {
      return Err(IndexOutOfBounds);
    }
    table := table[0 := 0][1 := 1];
    var i := 2;
    while i < n + 1
      invariant 2 <= i <= n + 1 && |table| == n + 1
      invariant forall k {:trigger table[k]} | 0 <= k < i :: table[k] == Fib(k)
    {
      assert Fib(i) == table[i - 1] + table[i - 2];
      table := table[i := table[i - 1] + table[i - 2]];
      i := i + 1;
    }
    return Ok(table[n]);
  }
}
