/** The linked stack: a chain of nodes from `top`, each new node linked in front. The chain
    is the sequence of elements met following `next` from `top`, newest first. */
module LinkedStacks {
  import opened Wrappers

  datatype LinkedStack<T> = LinkedStack(chain: seq<T>, count: int)

  /** Class invariant: the count is the number of nodes. */
  predicate Valid<T>(s: LinkedStack<T>)
  {
    s.count == |s.chain|
  }

  /** The constructor: `top` null. */
  function Empty<T>(): LinkedStack<T>
  {
    LinkedStack([], 0)
  }

  /** The constructor gives a valid stack with no nodes. */
  lemma EmptyHoldsNothing<T>(s: LinkedStack<T>)
    requires s == Empty()
    ensures Valid(s) && s.chain == []
  {
  }

  function IsEmpty<T>(s: LinkedStack<T>): (b: bool)
    requires Valid(s)
    ensures b <==> s.chain == []
  {
    s.count == 0
  }

  function Size<T>(s: LinkedStack<T>): (n: int)
    requires Valid(s)
    ensures n == |s.chain|
  {
    s.count
  }

  /** `push`: the new node is linked in front of the old top. */
  function Push<T>(s: LinkedStack<T>, element: T): (r: LinkedStack<T>)
    requires Valid(s)
    ensures Valid(r) && r.chain == [element] + s.chain
  {
    LinkedStack([element] + s.chain, s.count + 1)
  }

  /** `pop`: the top node's element; `top` moves to the next node. */
  function Pop<T>(s: LinkedStack<T>): (r: Result<(T, LinkedStack<T>)>)
    requires Valid(s)
    ensures r.Err? <==> s.chain == []
    ensures r.Err? ==> r.error == EmptyCollection
    ensures r.Ok? ==> Valid(r.value.1) && s.chain == [r.value.0] + r.value.1.chain
  {
    if IsEmpty(s) then Err(EmptyCollection)
    else Ok((s.chain[0], LinkedStack(s.chain[1..], s.count - 1)))
  }

  /** `peek`: the top element, leaving the stack as it is. */
  function Peek<T>(s: LinkedStack<T>): (r: Result<T>)
    requires Valid(s)
    ensures r.Err? <==> s.chain == []
    ensures r.Err? ==> r.error == EmptyCollection
    ensures r.Ok? ==> Pop(s).Ok? && r.value == Pop(s).value.0
  {
    if IsEmpty(s) then Err(EmptyCollection) else Ok(s.chain[0])
  }

  /** Last in, first out: a pop undoes the push before it. */
  lemma PopUndoesPush<T>(s: LinkedStack<T>, element: T)
    requires Valid(s)
    ensures Pop(Push(s, element)) == Ok((element, s))
  {
  }
}
