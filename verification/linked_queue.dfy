/** The linked queue: a chain of nodes from `front` to `rear`, new nodes linked after the
    rear. The chain is the sequence of elements met following `next` from `front`; `rear` is
    the element of the node the rear reference points at, or `None` when it is null. */
module LinkedQueues {
  import opened Wrappers

  datatype LinkedQueue<T> = LinkedQueue(chain: seq<T>, rear: Option<T>, count: int)

  /** Class invariant: the count is the chain's length and `rear` holds its last element. */
  ghost predicate Valid<T>(q: LinkedQueue<T>)
  {
    && q.count == |q.chain|
    && q.rear == (if q.chain == [] then None else Some(q.chain[|q.chain| - 1]))
  }

  /** The constructor: both references null. */
  function Empty<T>(): LinkedQueue<T>
  {
    LinkedQueue([], None, 0)
  }

  /** The constructor gives a valid queue with no nodes. */
  lemma EmptyHoldsNothing<T>(q: LinkedQueue<T>)
    requires q == Empty()
    ensures Valid(q) && q.chain == []
  {
  }

  function IsEmpty<T>(q: LinkedQueue<T>): (b: bool)
    requires Valid(q)
    ensures b <==> q.chain == []
  {
    q.count == 0
  }

  function Size<T>(q: LinkedQueue<T>): (n: int)
    requires Valid(q)
    ensures n == |q.chain|
  {
    q.count
  }

  /** `enqueue`: the new node becomes the front of an empty queue and is linked after the
      rear otherwise; either way it is the new rear. */
  function Enqueue<T>(q: LinkedQueue<T>, element: T): (r: LinkedQueue<T>)
    requires Valid(q)
    ensures Valid(r)
    ensures r.chain == q.chain + [element]
  {
    var chain := if IsEmpty(q) then [element] else q.chain + [element];
    LinkedQueue(chain, Some(element), q.count + 1)
  }

  /** `dequeue`: the front node's element; the front moves to the next node, and the rear
      reference is cleared when that empties the queue. */
  function Dequeue<T>(q: LinkedQueue<T>): (r: Result<(T, LinkedQueue<T>)>)
    requires Valid(q)
    ensures r.Err? <==> q.chain == []
    ensures r.Err? ==> r.error == EmptyCollection
    ensures r.Ok? ==> [r.value.0] + r.value.1.chain == q.chain
    ensures r.Ok? ==> Valid(r.value.1)
  {
    if IsEmpty(q) then Err(EmptyCollection)
    else
      var front := q.chain[1..];
      var count := q.count - 1;
      var rear := if count == 0 then None else q.rear;
      Ok((q.chain[0], LinkedQueue(front, rear, count)))
  }

  /** `first`: the front element, leaving the queue as it is. */
  function First<T>(q: LinkedQueue<T>): (r: Result<T>)
    requires Valid(q)
    ensures r.Err? <==> q.chain == []
    ensures r.Err? ==> r.error == EmptyCollection
    ensures r.Ok? ==> Dequeue(q).Ok? && r.value == Dequeue(q).value.0
  {
    if IsEmpty(q) then Err(EmptyCollection) else Ok(q.chain[0])
  }

  /** Everything repeated `dequeue` calls return until the queue is empty. */
  function DequeueAll<T>(q: LinkedQueue<T>): seq<T>
    requires Valid(q)
    decreases q.count
  {
    match Dequeue(q)
    case Err(_) => []
    case Ok((x, q')) => [x] + DequeueAll(q')
  }

  /** First in, first out: dequeuing until empty returns the chain from front to rear. */
  lemma {:induction false} DequeueAllInOrder<T>(q: LinkedQueue<T>)
    requires Valid(q)
    ensures DequeueAll(q) == q.chain
    decreases q.count
  {
    if q.count > 0 {
      DequeueAllInOrder(Dequeue(q).value.1);
    }
  }

  /** An element enqueued now comes out after every element already in the queue. */
  lemma FifoOrder<T>(q: LinkedQueue<T>, element: T)
    requires Valid(q)
    ensures DequeueAll(Enqueue(q, element)) == q.chain + [element]
  {
    DequeueAllInOrder(Enqueue(q, element));
  }
}
