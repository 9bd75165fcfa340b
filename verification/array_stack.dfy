/** The array stack: the elements sit in slots `0 .. top-1`, the newest at `top - 1`. */
module ArrayStacks {
  import opened Wrappers

  const DefaultCapacity: int := 100

  datatype ArrayStack<T> = ArrayStack(stack: seq<Option<T>>, top: int)

  /** Class invariant: the slots below `top` are filled. Slots at and above `top` may still
      hold elements that were popped, since `pop` does not clear them. */
  predicate Valid<T>(s: ArrayStack<T>)
  {
    && 0 <= s.top <= |s.stack|
    && forall i | 0 <= i < s.top :: s.stack[i].Some?
  }

  /** The stack from bottom to top. */
  function Contents<T>(s: ArrayStack<T>): (c: seq<T>)
    requires Valid(s)
    ensures |c| == s.top
  {
    seq(s.top, i requires 0 <= i < s.top => s.stack[i].value)
  }

  /** The capacity constructor; a negative capacity fails to allocate. */
  function New<T>(initialCapacity: int): Result<ArrayStack<T>>
  {
    if initialCapacity < 0 then Err(NegativeArraySize)
    else Ok(ArrayStack(seq(initialCapacity, _ => None), 0))
  }

  /** A negative capacity fails to allocate; any other gives an empty stack of exactly that capacity. */
  lemma NewChecksCapacity<T>(initialCapacity: int, r: Result<ArrayStack<T>>)
    requires r == New(initialCapacity)
    ensures r.Err? <==> initialCapacity < 0
    ensures r.Err? ==> r.error == NegativeArraySize
    ensures r.Ok? ==> Valid(r.value) && Contents(r.value) == [] && |r.value.stack| == initialCapacity
  {
  }

  /** The default constructor: capacity one hundred. */
  function Empty<T>(): ArrayStack<T>
  {
    New(DefaultCapacity).value
  }

  /** The default constructor gives an empty stack of capacity one hundred. */
  lemma EmptyHoldsNothing<T>(s: ArrayStack<T>)
    requires s == Empty()
    ensures Valid(s) && Contents(s) == [] && |s.stack| == DefaultCapacity
  {
  }

  /** `expandCapacity`: `Arrays.copyOf` to twice the length, the new slots empty. */
  function ExpandCapacity<T>(s: ArrayStack<T>): (r: ArrayStack<T>)
    requires Valid(s)
    ensures Valid(r) && Contents(r) == Contents(s)
    ensures |r.stack| == 2 * |s.stack| && r.stack[..|s.stack|] == s.stack
    ensures forall i | |s.stack| <= i < |r.stack| :: r.stack[i] == None
  {
    ArrayStack(s.stack + seq(|s.stack|, _ => None), s.top)
  }

  /** `push`: a full stack is expanded first; the element goes into slot `top`. A stack of
      capacity zero cannot grow and throws there. */
  function Push<T>(s: ArrayStack<T>, element: T): (r: Result<ArrayStack<T>>)
    requires Valid(s)
    ensures r.Err? <==> |s.stack| == 0
    ensures r.Err? ==> r.error == IndexOutOfBounds
    ensures r.Ok? ==> Valid(r.value) && Contents(r.value) == Contents(s) + [element]
    ensures r.Ok? ==> |r.value.stack| == if s.top == |s.stack| then 2 * |s.stack| else |s.stack|
  {
    var s1 := if s.top == |s.stack| then ExpandCapacity(s) else s;
    if s1.top == |s1.stack| then Err(IndexOutOfBounds)
    else
      var r := ArrayStack(s1.stack[s1.top := Some(element)], s1.top + 1);
      assert Contents(r) == Contents(s1) + [element];
      Ok(r)
  }

  /** `pop`: the top element. Only `top` moves; the array itself is left as it was. */
  function Pop<T>(s: ArrayStack<T>): (r: Result<(T, ArrayStack<T>)>)
    requires Valid(s)
    ensures r.Err? <==> Contents(s) == []
    ensures r.Err? ==> r.error == EmptyCollection
    ensures r.Ok? ==> Valid(r.value.1) && Contents(s) == Contents(r.value.1) + [r.value.0]
    ensures r.Ok? ==> r.value.1.stack == s.stack
  {
    if s.top == 0 then Err(EmptyCollection)
    else
      var r := ArrayStack(s.stack, s.top - 1);
      assert Contents(s) == Contents(r) + [s.stack[s.top - 1].value];
      Ok((s.stack[s.top - 1].value, r))
  }

  /** `peek`: the top element, leaving the stack as it is. */
  function Peek<T>(s: ArrayStack<T>): (r: Result<T>)
    requires Valid(s)
    ensures r.Err? <==> Contents(s) == []
    ensures r.Err? ==> r.error == EmptyCollection
    ensures r.Ok? ==> Pop(s).Ok? && r.value == Pop(s).value.0
  {
    if s.top == 0 then Err(EmptyCollection) else Ok(s.stack[s.top - 1].value)
  }

  function IsEmpty<T>(s: ArrayStack<T>): (b: bool)
    requires Valid(s)
    ensures b <==> Contents(s) == []
  {
    s.top == 0
  }

  function Size<T>(s: ArrayStack<T>): (n: int)
    requires Valid(s)
    ensures n == |Contents(s)|
  {
    s.top
  }

  /** Everything repeated `pop` calls return until the stack is empty. */
  function PopAll<T>(s: ArrayStack<T>): seq<T>
    requires Valid(s)
    decreases s.top
  {
    match Pop(s)
    case Err(_) => []
    case Ok((x, s1)) => [x] + PopAll(s1)
  }

  function Reverse<T>(s: seq<T>): (r: seq<T>)
    ensures |r| == |s|
  {
    if s == [] then [] else Reverse(s[1..]) + [s[0]]
  }

  lemma {:induction false} ReverseAppend<T>(s: seq<T>, x: T)
    ensures Reverse(s + [x]) == [x] + Reverse(s)
  {
    if s != [] {
      assert (s + [x])[1..] == s[1..] + [x];
      ReverseAppend(s[1..], x);
    }
  }

  /** Last in, first out: popping until empty returns the elements newest first. */
  lemma {:induction false} PopAllReversed<T>(s: ArrayStack<T>)
    requires Valid(s)
    ensures PopAll(s) == Reverse(Contents(s))
    decreases s.top
  {
    if s.top > 0 {
      var (x, s1) := Pop(s).value;
      PopAllReversed(s1);
      ReverseAppend(Contents(s1), x);
    }
  }

  /** Pushing and then popping gives back the element and the same contents. */
  lemma PopUndoesPush<T>(s: ArrayStack<T>, element: T)
    requires Valid(s) && |s.stack| > 0
    ensures Push(s, element).Ok?
    ensures Pop(Push(s, element).value).Ok?
    ensures Pop(Push(s, element).value).value.0 == element
    ensures Contents(Pop(Push(s, element).value).value.1) == Contents(s)
  {
  }
}
