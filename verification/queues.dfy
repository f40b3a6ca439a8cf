/**
 * ArrayQueue: a bounded FIFO in a circular buffer.  `front` is the slot of
 * the oldest element, `back` the slot the next element goes to, and the
 * queue's contents are the `size` slots from `front` on, wrapping at `max`.
 * `filler` stands for the default-constructed slots of `new E[max]`.
 */
module ArrayQueue {
  import opened Outcome

  datatype Queue<E> = Queue(buf: seq<E>, max: nat, front: nat, back: nat, size: nat)

  /** An index at most one lap past the buffer, brought back into it. */
  function Wrap(k: nat, m: nat): (w: nat)
    requires 0 < m && k < 2 * m
    ensures w < m
  {
    if k < m then k else k - m
  }

  /** On such an index the library's `% max` is that single subtraction. */
  lemma ModSmall(k: nat, m: nat)
    requires 0 < m && k < 2 * m
    ensures k % m == Wrap(k, m)
  {
    if k >= m {
      assert k == 1 * m + (k - m);
    }
  }

  /** The indices stay in the buffer and `back` is `size` slots after `front`, modulo `max`. */
  predicate Valid<E>(q: Queue<E>) {
    1 <= q.max == |q.buf| && q.front < q.max && q.back < q.max && q.size <= q.max &&
    q.back == Wrap(q.front + q.size, q.max)
  }

  /** The elements from oldest to newest. */
  function Contents<E>(q: Queue<E>): (s: seq<E>)
    requires Valid(q)
    ensures |s| == q.size
    ensures forall i :: 0 <= i < q.size ==> s[i] == q.buf[Wrap(q.front + i, q.max)]
  {
    seq(q.size, i requires 0 <= i < q.size => q.buf[Wrap(q.front + i, q.max)])
  }

  /** The constructor: a capacity below 1 fails with "Invalid max size.". */
  function New<E>(max: int, filler: E): (r: Result<Queue<E>>)
    ensures r.Err? <==> max < 1
    ensures r.Err? ==> r.msg == "Invalid max size."
    ensures r.Ok? ==> Valid(r.value) && r.value.max == max && Contents(r.value) == []
  {
    if max < 1 then Err("Invalid max size.")
    else Ok(Queue(seq(max, _ => filler), max, 0, 0, 0))
  }

  /** enqueue: into slot `back`, which then advances; a full queue fails with "Queue is full.". */
  function Enqueue<E>(q: Queue<E>, x: E): (r: Result<Queue<E>>)
    requires Valid(q)
    ensures r.Err? <==> GetSize(q) == q.max
    ensures r.Err? ==> r.msg == "Queue is full."
    ensures r.Ok? ==> Valid(r.value) && r.value.max == q.max && Contents(r.value) == Contents(q) + [x]
  {
    if q.size == q.max then Err("Queue is full.")
    else
      ModSmall(q.back + 1, q.max);
      var q' := Queue(q.buf[q.back := x], q.max, q.front, (q.back + 1) % q.max, q.size + 1);
      forall i | 0 <= i < q.size
        ensures Contents(q')[i] == Contents(q)[i]
      {
        assert Wrap(q.front + i, q.max) != q.back;
      }
      assert Contents(q')[q.size] == x;
      assert Contents(q') == Contents(q) + [x];
      Ok(q')
  }

  /**
   * dequeue: `front` advances first, and the element returned is read from
   * the slot before it; an empty queue fails with "Queue is empty.".
   */
  function Dequeue<E>(q: Queue<E>): (r: Result<(Queue<E>, E)>)
    requires Valid(q)
    ensures r.Err? <==> GetSize(q) == 0
    ensures r.Err? ==> r.msg == "Queue is empty."
    ensures r.Ok? ==> var (q', x) := r.value;
      Valid(q') && q'.max == q.max && Contents(q) == [x] + Contents(q') && FrontValue(q) == Ok(x)
  {
    if q.size == 0 then Err("Queue is empty.")
    else
      ModSmall(q.front + 1, q.max);
      var front := (q.front + 1) % q.max;
      ModSmall(front + q.max - 1, q.max);
      var q' := Queue(q.buf, q.max, front, q.back, q.size - 1);
      forall i | 0 <= i < q.size - 1
        ensures Contents(q')[i] == Contents(q)[i + 1]
      {
        assert Wrap(front + i, q.max) == Wrap(q.front + i + 1, q.max);
      }
      assert Contents(q)[0] == q.buf[q.front];
      assert Contents(q) == [q.buf[q.front]] + Contents(q');
      Ok((q', q.buf[(front + q.max - 1) % q.max]))
  }

  /** frontValue: the oldest element, without change. */
  function FrontValue<E>(q: Queue<E>): (r: Result<E>)
    requires Valid(q)
    ensures r.Err? <==> GetSize(q) == 0
    ensures r.Err? ==> r.msg == "Queue is empty."
    ensures r.Ok? ==> r.value == Contents(q)[0]
  {
    if q.size == 0 then Err("Queue is empty.")
    else
      assert Contents(q)[0] == q.buf[q.front];
      Ok(q.buf[q.front])
  }

  /** clear: all three indices back to 0; the slots keep their old values. */
  function Clear<E>(q: Queue<E>): (q': Queue<E>)
    requires Valid(q)
    ensures Valid(q') && q'.max == q.max && q'.front == q'.back == 0 && Contents(q') == [] && IsEmpty(q')
  {
    q.(front := 0, back := 0, size := 0)
  }

  predicate IsEmpty<E>(q: Queue<E>) {
    q.size == 0
  }

  function GetSize<E>(q: Queue<E>): (n: nat)
    requires Valid(q)
    ensures n == |Contents(q)| <= q.max
    ensures n == 0 <==> IsEmpty(q)
  {
    q.size
  }

  /** FIFO: on a non-empty queue, enqueueing and then dequeueing is dequeueing and then enqueueing. */
  lemma EnqueueDequeueCommute<E>(q: Queue<E>, x: E)
    requires Valid(q) && 0 < GetSize(q) < q.max
    ensures Enqueue(q, x).Ok? && Dequeue(q).Ok?
    ensures var (q1, y1) := Dequeue(Enqueue(q, x).value).value;
      var (q2, y2) := Dequeue(q).value;
      y1 == y2 && Enqueue(q2, x).Ok? && Contents(q1) == Contents(Enqueue(q2, x).value)
  {
    var (q1, y1) := Dequeue(Enqueue(q, x).value).value;
    var (q2, y2) := Dequeue(q).value;
    assert Contents(q) + [x] == [y1] + Contents(q1);
    assert Contents(q) == [y2] + Contents(q2);
    assert Contents(q1) == Contents(q2) + [x];
  }
}

/**
 * LinkedQueue: a FIFO as a chain behind a sentinel `front` node, with
 * `back` on the last node (the sentinel when the queue is empty) and the
 * deque extras enqueueFront, dequeueBack and backValue.  The chain is
 * modelled by its elements from the front; `back` by the number of links
 * from the sentinel to the node it points at.
 */
module LinkedQueue {
  import opened Outcome

  datatype Queue<E> = Queue(items: seq<E>, back: nat)

  const EmptyMsg := "Queue is empty"

  /** `back` is on the last node. */
  predicate Valid<E>(q: Queue<E>) {
    q.back == |q.items|
  }

  /** The constructor: front and back on the sentinel. */
  function New<E>(): Queue<E> {
    Queue([], 0)
  }

  /** A new queue is empty, with the back on the sentinel. */
  lemma NewEmpty<E>(q: Queue<E>)
    requires q == New()
    ensures Valid(q) && IsEmpty(q) && q.back == 0
  {
  }

  /** enqueue: a node after `back`, which becomes the back; it never fails. */
  function Enqueue<E>(q: Queue<E>, x: E): (q': Queue<E>)
    requires Valid(q)
    ensures Valid(q') && q'.items == q.items + [x] && BackValue(q') == Ok(x)
  {
    Queue(q.items + [x], q.back + 1)
  }

  /** dequeue: unlink the first node; when the queue empties, `back` returns to the sentinel. */
  function Dequeue<E>(q: Queue<E>): (r: Result<(Queue<E>, E)>)
    requires Valid(q)
    ensures r.Err? <==> IsEmpty(q)
    ensures r.Err? ==> r.msg == EmptyMsg
    ensures r.Ok? ==> var (q', x) := r.value;
      Valid(q') && q.items == [x] + q'.items && FrontValue(q) == Ok(x)
    ensures r.Ok? && GetSize(q) == 1 ==> r.value.0.back == 0
  {
    if q.items == [] then Err(EmptyMsg)
    else
      var size := |q.items| - 1;
      var back := if size == 0 then 0 else q.back - 1;
      assert q.items == [q.items[0]] + q.items[1..];
      Ok((Queue(q.items[1..], back), q.items[0]))
  }

  /** frontValue: the element of the node after the sentinel. */
  function FrontValue<E>(q: Queue<E>): (r: Result<E>)
    ensures r.Err? <==> IsEmpty(q)
    ensures r.Err? ==> r.msg == EmptyMsg
    ensures r.Ok? ==> r.value == q.items[0]
  {
    if q.items == [] then Err(EmptyMsg) else Ok(q.items[0])
  }

  /** clear: unlink nodes after the sentinel until none is left, then put `back` on the sentinel. */
  method Clear<E>(q: Queue<E>) returns (q': Queue<E>)
    ensures Valid(q') && IsEmpty(q') && GetSize(q') == 0
  {
    var items := q.items;
    while items != []
      decreases |items|
    {
      items := items[1..];
    }
    q' := Queue(items, 0);
  }

  predicate IsEmpty<E>(q: Queue<E>) {
    q.items == []
  }

  function GetSize<E>(q: Queue<E>): (n: nat)
    ensures n == 0 <==> IsEmpty(q)
  {
    |q.items|
  }

  /** enqueueFront: a node right after the sentinel; into an empty queue it is also the back. */
  function EnqueueFront<E>(q: Queue<E>, x: E): (q': Queue<E>)
    requires Valid(q)
    ensures Valid(q') && q'.items == [x] + q.items && FrontValue(q') == Ok(x)
    ensures IsEmpty(q) ==> BackValue(q') == Ok(x)
    ensures !IsEmpty(q) ==> BackValue(q') == BackValue(q)
  {
    Queue([x] + q.items, q.back + 1)
  }

  /**
   * dequeueBack: the links only go forward, so walk from the sentinel to
   * the node before `back`, which becomes the back.
   */
  method DequeueBack<E>(q: Queue<E>) returns (r: Result<(Queue<E>, E)>)
    requires Valid(q)
    ensures r.Err? <==> IsEmpty(q)
    ensures r.Err? ==> r.msg == EmptyMsg
    ensures r.Ok? ==> var (q', x) := r.value;
      Valid(q') && BackValue(q) == Ok(x) && Enqueue(q', x) == q
  {
    if q.items == [] {
      return Err(EmptyMsg);
    }
    var temp := 0;
    while temp + 1 != q.back
      invariant temp < q.back
      decreases q.back - temp
    {
      temp := temp + 1;
    }
    var x := q.items[q.back - 1];
    var q' := Queue(q.items[..temp], temp);
    assert q'.items + [x] == q.items;
    r := Ok((q', x));
  }

  /** backValue: the element of the node at `back`. */
  function BackValue<E>(q: Queue<E>): (r: Result<E>)
    requires Valid(q)
    ensures r.Err? <==> IsEmpty(q)
    ensures r.Err? ==> r.msg == EmptyMsg
    ensures r.Ok? ==> r.value == q.items[|q.items| - 1]
  {
    if q.items == [] then Err(EmptyMsg) else Ok(q.items[q.back - 1])
  }

  /** dequeue undoes enqueueFront, and on an empty queue dequeue returns what enqueue added. */
  lemma FrontAndBack<E>(q: Queue<E>, x: E)
    requires Valid(q)
    ensures Dequeue(EnqueueFront(q, x)).Ok? && Dequeue(EnqueueFront(q, x)).value.1 == x &&
      Dequeue(EnqueueFront(q, x)).value.0.items == q.items
    ensures IsEmpty(q) ==> Dequeue(Enqueue(q, x)) == Ok((q, x))
  {
  }
}
