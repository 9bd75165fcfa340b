/** Linear search: compare each element with `equals` in turn, stopping at the first match. */
module LinearSearch {

  /** `search(target, list)` as the loop runs it: true at the first element equal to the
      target, false once the list is used up. */
  function Search<T(==)>(target: T, list: seq<T>): (r: bool)
    ensures r <==> target in list
  {
    if list == [] then false
    else if list[0] == target then true
    else Search(target, list[1..])
  }

  /** How many elements the loop compares before it returns: up to and including the first
      match, or all of them. */
  function Compared<T(==)>(target: T, list: seq<T>): (n: nat)
    ensures n <= |list|
    ensures n < |list| ==> list[n] != target || n == 0 || list[n - 1] == target
  {
    if list == [] then 0
    else if list[0] == target then 1
    else 1 + Compared(target, list[1..])
  }

  /** The loop stops at the first match: every element compared before the last is different
      from the target, and the last compared is the target exactly when the search succeeds. */
  lemma {:induction false} StopsAtFirstMatch<T>(target: T, list: seq<T>)
    ensures Search(target, list) ==> 1 <= Compared(target, list) && list[Compared(target, list) - 1] == target
    ensures !Search(target, list) ==> Compared(target, list) == |list|
    ensures forall i | 0 <= i < Compared(target, list) - 1 :: list[i] != target
  {
    if list != [] && list[0] != target {
      StopsAtFirstMatch(target, list[1..]);
      forall i | 0 <= i < Compared(target, list) - 1 ensures list[i] != target {
        if i > 0 {
          assert list[i] == list[1..][i - 1];
        }
      }
    }
  }
}
