/** The circular array queue: the elements sit in `count` consecutive slots from `front`,
    wrapping round the end of the array, and `rear` is the slot after the last one. */
module ArrayQueues {
  import opened Wrappers

  const DefaultCapacity: int := 100

  datatype ArrayQueue<T> = ArrayQueue(queue: seq<Option<T>>, count: int, front: int, rear: int)

  /** The slot `i` places after `front` in an array of length `n`, wrapping once round the
      end; this is what `(front + i) % n` computes for offsets up to `n`. */
  function Slot(front: int, i: int, n: int): (k: int)
    requires 0 <= front < n && 0 <= i <= n
    ensures 0 <= k < n
  {
    if front + i < n then front + i else front + i - n
  }

  /** The source's step `(k + 1) % n` is the next slot round the ring. */
  lemma StepWraps(k: int, n: int)
    requires 0 <= k < n
    ensures (k + 1) % n == Slot(k, 1, n)
  {
  }

  /** Class invariant. An array of length zero holds nothing and keeps both ends at 0. */
  predicate Valid<T>(q: ArrayQueue<T>)
  {
    && 0 <= q.count <= |q.queue|
    && (|q.queue| == 0 ==> q.front == 0 && q.rear == 0)
    && (|q.queue| > 0 ==> 0 <= q.front < |q.queue| && q.rear == Slot(q.front, q.count, |q.queue|))
    && forall i | 0 <= i < q.count :: q.queue[Slot(q.front, i, |q.queue|)].Some?
  }

  /** The queue from oldest to newest. */
  function Contents<T>(q: ArrayQueue<T>): (s: seq<T>)
    requires Valid(q)
    ensures |s| == q.count
  {
    seq(q.count, i requires 0 <= i < q.count => q.queue[Slot(q.front, i, |q.queue|)].value)
  }

  /** The capacity constructor; a negative capacity fails to allocate. */
  function New<T>(initialCapacity: int): Result<ArrayQueue<T>>
  {
    if initialCapacity < 0 then Err(NegativeArraySize)
    else Ok(ArrayQueue(seq(initialCapacity, _ => None), 0, 0, 0))
  }

  /** A negative capacity fails to allocate; any other gives an empty queue of exactly that capacity. */
  lemma NewChecksCapacity<T>(initialCapacity: int, r: Result<ArrayQueue<T>>)
    requires r == New(initialCapacity)
    ensures r.Err? <==> initialCapacity < 0
    ensures r.Err? ==> r.error == NegativeArraySize
    ensures r.Ok? ==> Valid(r.value) && Contents(r.value) == [] && |r.value.queue| == initialCapacity
  {
  }

  /** The default constructor: capacity one hundred. */
  function Empty<T>(): ArrayQueue<T>
  {
    New(DefaultCapacity).value
  }

  /** The default constructor gives an empty queue of capacity one hundred. */
  lemma EmptyHoldsNothing<T>(q: ArrayQueue<T>)
    requires q == Empty()
    ensures Valid(q) && Contents(q) == [] && |q.queue| == DefaultCapacity
  {
  }

  /** The state `expandCapacity` leaves: the elements in queue order at the start of an
      array twice as long, front at slot 0 and rear just after them. */
  function Expanded<T>(q: ArrayQueue<T>): (r: ArrayQueue<T>)
    requires Valid(q)
    ensures Valid(r) && Contents(r) == Contents(q)
    ensures |r.queue| == 2 * |q.queue| && r.front == 0 && r.rear == q.count
  {
    var n := |q.queue|;
    var larger := seq(2 * n, i requires 0 <= i < 2 * n => if i < q.count then q.queue[Slot(q.front, i, n)] else None);
    ArrayQueue(larger, q.count, 0, q.count)
  }

  /** `expandCapacity`: the copy loop walks the old array from `front`, wrapping, and fills
      the new one from slot 0. */
  method ExpandCapacity<T>(q: ArrayQueue<T>) returns (r: ArrayQueue<T>)
    requires Valid(q)
    ensures r == Expanded(q)
  {
    var n := |q.queue|;
    var larger: seq<Option<T>> := seq(2 * n, _ => None);
    var front := q.front;
    var scan := 0;
    while scan < q.count
      invariant 0 <= scan <= q.count
      invariant |larger| == 2 * n
      invariant n > 0 ==> 0 <= front < n
      invariant scan < n ==> front == Slot(q.front, scan, n)
      invariant forall i | 0 <= i < scan :: larger[i] == q.queue[Slot(q.front, i, n)]
      invariant forall i | scan <= i < |larger| :: larger[i] == None
    {
      larger := larger[scan := q.queue[front]];
      StepWraps(front, n);
      front := (front + 1) % n;
      scan := scan + 1;
    }
    assert larger == Expanded(q).queue;
    r := ArrayQueue(larger, q.count, 0, q.count);
  }

  /** `enqueue(element)`: a full queue is expanded first; then the element goes into the rear
      slot. A queue of capacity zero cannot grow and throws there. */
  function Enqueue<T>(q: ArrayQueue<T>, element: T): (r: Result<ArrayQueue<T>>)
    requires Valid(q)
    ensures r.Err? <==> |q.queue| == 0
    ensures r.Err? ==> r.error == IndexOutOfBounds
    ensures r.Ok? ==> Valid(r.value) && Contents(r.value) == Contents(q) + [element]
    ensures r.Ok? ==> |r.value.queue| == if q.count == |q.queue| then 2 * |q.queue| else |q.queue|
  {
    var q1 := if q.count == |q.queue| then Expanded(q) else q;
    if |q1.queue| == 0 then Err(IndexOutOfBounds)
    else
      var q2 := ArrayQueue(q1.queue[q1.rear := Some(element)], q1.count + 1, q1.front, (q1.rear + 1) % |q1.queue|);
      EnqueueKeeps(q1, q2, element);
      Ok(q2)
  }

  lemma EnqueueKeeps<T>(q1: ArrayQueue<T>, q2: ArrayQueue<T>, element: T)
    requires Valid(q1) && q1.count < |q1.queue| && q2 == ArrayQueue(q1.queue[q1.rear := Some(element)], q1.count + 1, q1.front, (q1.rear + 1) % |q1.queue|)
    ensures Valid(q2) && Contents(q2) == Contents(q1) + [element]
  {
    StepWraps(q1.rear, |q1.queue|);
  }

  /** `dequeue`: the front element, whose slot is cleared as the front moves on. */
  function Dequeue<T>(q: ArrayQueue<T>): (r: Result<(T, ArrayQueue<T>)>)
    requires Valid(q)
    ensures r.Err? <==> Contents(q) == []
    ensures r.Err? ==> r.error == EmptyCollection
    ensures r.Ok? ==> r.value.0 == Contents(q)[0]
    ensures r.Ok? ==> Valid(r.value.1) && Contents(r.value.1) == Contents(q)[1..]
    ensures r.Ok? ==> |r.value.1.queue| == |q.queue|
  {
    if q.count == 0 then Err(EmptyCollection)
    else
      var n := |q.queue|;
      var r := ArrayQueue(q.queue[q.front := None], q.count - 1, (q.front + 1) % n, q.rear);
      DequeueKeeps(q, r);
      assert q.queue[Slot(q.front, 0, n)].Some?;
      Ok((q.queue[q.front].value, r))
  }

  lemma DequeueKeeps<T>(q: ArrayQueue<T>, r: ArrayQueue<T>)
    requires Valid(q) && q.count > 0 && r == ArrayQueue(q.queue[q.front := None], q.count - 1, (q.front + 1) % |q.queue|, q.rear)
    ensures Valid(r) && Contents(r) == Contents(q)[1..]
  {
    var n := |q.queue|;
    StepWraps(q.front, n);
    assert forall i | 0 <= i < r.count :: Slot(r.front, i, n) == Slot(q.front, i + 1, n);
  }

  /** `first`: the front element, leaving the queue as it is. */
  function First<T>(q: ArrayQueue<T>): (r: Result<T>)
    requires Valid(q)
    ensures r.Err? <==> Contents(q) == []
    ensures r.Err? ==> r.error == EmptyCollection
    ensures r.Ok? ==> Dequeue(q).Ok? && r.value == Dequeue(q).value.0
  {
    if q.count == 0 then Err(EmptyCollection)
    else
      assert q.queue[Slot(q.front, 0, |q.queue|)].Some?;
      Ok(q.queue[q.front].value)
  }

  function IsEmpty<T>(q: ArrayQueue<T>): (b: bool)
    requires Valid(q)
    ensures b <==> Contents(q) == []
  {
    q.count == 0
  }

  function Size<T>(q: ArrayQueue<T>): (n: int)
    requires Valid(q)
    ensures n == |Contents(q)|
  {
    q.count
  }

  /** Everything repeated `dequeue` calls return until the queue is empty. */
  function DequeueAll<T>(q: ArrayQueue<T>): seq<T>
    requires Valid(q)
    decreases q.count
  {
    match Dequeue(q)
    case Err(_) => []
    case Ok((x, q1)) => [x] + DequeueAll(q1)
  }

  /** First in, first out: dequeuing until empty returns the elements in the order they were
      enqueued, so an element enqueued now comes out after all that are already there. */
  lemma {:induction false} DequeueAllInOrder<T>(q: ArrayQueue<T>)
    requires Valid(q)
    ensures DequeueAll(q) == Contents(q)
    decreases q.count
  {
    if q.count > 0 {
      DequeueAllInOrder(Dequeue(q).value.1);
      assert Contents(q) == [Contents(q)[0]] + Contents(q)[1..];
    }
  }

  lemma FifoOrder<T>(q: ArrayQueue<T>, element: T)
    requires Valid(q) && |q.queue| > 0
    ensures Enqueue(q, element).Ok?
    ensures DequeueAll(Enqueue(q, element).value) == Contents(q) + [element]
  {
    DequeueAllInOrder(Enqueue(q, element).value);
  }
}
