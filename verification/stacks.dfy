/**
 * ArrayStack: a bounded stack in a fixed array; `top` counts the occupied
 * slots, so the stack's contents from bottom to top are `buf[..top]`.
 * `filler` stands for the default-constructed slots of `new E[max]`.
 */
module ArrayStack {
  import opened Outcome

  datatype Stack<E> = Stack(buf: seq<E>, max: nat, top: nat)

  predicate Valid<E>(s: Stack<E>) {
    1 <= s.max == |s.buf| && s.top <= s.max
  }

  /** The elements from bottom to top. */
  function Contents<E>(s: Stack<E>): seq<E>
    requires Valid(s)
  {
    s.buf[..s.top]
  }

  /** The constructor: a capacity below 1 fails with "Invalid max size.". */
  function New<E>(max: int, filler: E): (r: Result<Stack<E>>)
    ensures r.Err? <==> max < 1
    ensures r.Err? ==> r.msg == "Invalid max size."
    ensures r.Ok? ==> Valid(r.value) && r.value.max == max && Contents(r.value) == []
  {
    if max < 1 then Err("Invalid max size.")
    else Ok(Stack(seq(max, _ => filler), max, 0))
  }

  /** push: into slot `top`; a full stack fails with "Stack overflow.". */
  function Push<E>(s: Stack<E>, x: E): (r: Result<Stack<E>>)
    requires Valid(s)
    ensures r.Err? <==> GetSize(s) == s.max
    ensures r.Err? ==> r.msg == "Stack overflow."
    ensures r.Ok? ==> Valid(r.value) && r.value.max == s.max && Contents(r.value) == Contents(s) + [x]
    ensures r.Ok? ==> TopValue(r.value) == Ok(x)
  {
    if s.top == s.max then Err("Stack overflow.")
    else
      var s' := Stack(s.buf[s.top := x], s.max, s.top + 1);
      assert Contents(s') == Contents(s) + [x];
      Ok(s')
  }

  /** pop: the most recently pushed element; an empty stack fails with "Stack is empty.". */
  function Pop<E>(s: Stack<E>): (r: Result<(Stack<E>, E)>)
    requires Valid(s)
    ensures r.Err? <==> GetSize(s) == 0
    ensures r.Err? ==> r.msg == "Stack is empty."
    ensures r.Ok? ==> var (s', x) := r.value;
      Valid(s') && s'.max == s.max && Contents(s) == Contents(s') + [x] && TopValue(s) == Ok(x)
  {
    if s.top == 0 then Err("Stack is empty.")
    else
      var s' := Stack(s.buf, s.max, s.top - 1);
      assert Contents(s) == Contents(s') + [s.buf[s.top - 1]];
      Ok((s', s.buf[s.top - 1]))
  }

  /** topValue: the last pushed element, without change. */
  function TopValue<E>(s: Stack<E>): (r: Result<E>)
    requires Valid(s)
    ensures r.Err? <==> GetSize(s) == 0
    ensures r.Err? ==> r.msg == "Stack is empty."
    ensures r.Ok? ==> r.value == Contents(s)[|Contents(s)| - 1]
  {
    if s.top == 0 then Err("Stack is empty.") else Ok(s.buf[s.top - 1])
  }

  /** clear: only `top` is reset; the slots keep their old values. */
  function Clear<E>(s: Stack<E>): (s': Stack<E>)
    requires Valid(s)
    ensures Valid(s') && s'.max == s.max && Contents(s') == [] && IsEmpty(s')
  {
    s.(top := 0)
  }

  predicate IsEmpty<E>(s: Stack<E>) {
    s.top == 0
  }

  function GetSize<E>(s: Stack<E>): (n: nat)
    requires Valid(s)
    ensures n == |Contents(s)| <= s.max
    ensures n == 0 <==> IsEmpty(s)
  {
    s.top
  }

  /** A pop right after a push returns the pushed element and the stack's earlier contents. */
  lemma PushThenPop<E>(s: Stack<E>, x: E)
    requires Valid(s) && GetSize(s) < s.max
    ensures Push(s, x).Ok? &&
      Pop(Push(s, x).value).Ok? &&
      var (s', y) := Pop(Push(s, x).value).value; y == x && Contents(s') == Contents(s)
  {
    var s1 := Push(s, x).value;
    var (s', y) := Pop(s1).value;
    assert Contents(s1) == Contents(s') + [y];
  }
}

/**
 * LinkedStack: an unbounded stack as a chain of nodes from `top`; the chain
 * is modelled top first.
 */
module LinkedStack {
  import opened Outcome

  datatype Stack<E> = Stack(nodes: seq<E>)

  /** The constructor: top null. */
  function New<E>(): Stack<E> {
    Stack([])
  }

  /** A new stack is empty and has no top. */
  lemma NewEmpty<E>(s: Stack<E>)
    requires s == New()
    ensures IsEmpty(s) && GetSize(s) == 0 && TopValue(s).Err?
  {
  }

  /** push: a new node in front of `top`; it never fails. */
  function Push<E>(s: Stack<E>, x: E): (s': Stack<E>)
    ensures GetSize(s') == GetSize(s) + 1 && TopValue(s') == Ok(x)
    ensures s'.nodes[1..] == s.nodes
  {
    Stack([x] + s.nodes)
  }

  /** pop: the element at `top`; an empty stack fails with "Stack is empty.". */
  function Pop<E>(s: Stack<E>): (r: Result<(Stack<E>, E)>)
    ensures r.Err? <==> IsEmpty(s)
    ensures r.Err? ==> r.msg == "Stack is empty."
    ensures r.Ok? ==> var (s', x) := r.value;
      TopValue(s) == Ok(x) && GetSize(s') == GetSize(s) - 1 && Push(s', x) == s
  {
    if s.nodes == [] then Err("Stack is empty.")
    else
      assert [s.nodes[0]] + s.nodes[1..] == s.nodes;
      Ok((Stack(s.nodes[1..]), s.nodes[0]))
  }

  /** topValue: the element at `top`, without change. */
  function TopValue<E>(s: Stack<E>): (r: Result<E>)
    ensures r.Err? <==> IsEmpty(s)
    ensures r.Err? ==> r.msg == "Stack is empty."
    ensures r.Ok? ==> r.value == s.nodes[0]
  {
    if s.nodes == [] then Err("Stack is empty.") else Ok(s.nodes[0])
  }

  /** clear: unlink and delete nodes from `top` until none is left. */
  method Clear<E>(s: Stack<E>) returns (s': Stack<E>)
    ensures IsEmpty(s') && GetSize(s') == 0
  {
    s' := s;
    while s'.nodes != []
      decreases |s'.nodes|
    {
      s' := Stack(s'.nodes[1..]);
    }
  }

  predicate IsEmpty<E>(s: Stack<E>) {
    s.nodes == []
  }

  function GetSize<E>(s: Stack<E>): (n: nat)
    ensures n == 0 <==> IsEmpty(s)
  {
    |s.nodes|
  }

  /** A pop right after a push returns the pushed element and the earlier stack. */
  lemma PushThenPop<E>(s: Stack<E>, x: E)
    ensures Pop(Push(s, x)) == Ok((s, x))
  {
  }
}
