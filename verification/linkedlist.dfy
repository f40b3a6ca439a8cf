/**
 * LinkedList: a singly linked list behind a head sentinel, with a pool of
 * released nodes that later insertions reuse before allocating.
 *
 * `current` points at the node BEFORE the current element, so the cursor is
 * the number of links from the head: 0 is the start and `size` (current is
 * the tail) is the end.  The tail pointer is kept as the index of the node
 * it points at, or `Null`; the head sentinel's own element, which the
 * constructor leaves default-initialised, is kept as `sentinel` because one
 * operation reads it.  `spare` counts the nodes on the free list.
 */
module LinkedList {
  import opened Outcome
  import opened Sequences

  /** Where the tail pointer points: the node `i` links after the head, or nowhere. */
  datatype Tail = At(i: nat) | Null

  datatype LList<E> = LList(items: seq<E>, pos: nat, tail: Tail, sentinel: E, spare: nat)

  /** The cursor is on the chain and the tail pointer is on its last node. */
  predicate Valid<E>(l: LList<E>) {
    l.pos <= |l.items| && l.tail == At(|l.items|)
  }

  /** Every node the list owns besides the head: the chain plus the free list. */
  function Owned<E>(l: LList<E>): nat {
    |l.items| + l.spare
  }

  /** Taking a node for a new element reuses a free one when there is one. */
  function Take<E>(l: LList<E>): (spare: nat)
    ensures l.spare > 0 ==> spare + 1 == l.spare
    ensures l.spare == 0 ==> spare == 0
  {
    if l.spare > 0 then l.spare - 1 else 0
  }

  /** The constructor: only the head sentinel, which is also the tail and the current node. */
  function New<E>(sentinel: E): (l: LList<E>)
    ensures Valid(l) && l.items == [] && AtStart(l) && AtEnd(l) && Owned(l) == 0
  {
    LList([], 0, At(0), sentinel, 0)
  }

  /** insert: a node after `current`; the tail moves along when current was the tail. */
  function Insert<E>(l: LList<E>, x: E): (l': LList<E>)
    requires Valid(l)
    ensures Valid(l') && GetSize(l') == GetSize(l) + 1 && l'.pos == l.pos
    ensures GetElement(l') == Ok(x)
    ensures l'.items[..l.pos] == l.items[..l.pos] && l'.items[l.pos + 1..] == l.items[l.pos..]
    ensures l.spare > 0 ==> Owned(l') == Owned(l)
    ensures l.spare == 0 ==> Owned(l') == Owned(l) + 1
  {
    LList(l.items[..l.pos] + [x] + l.items[l.pos..], l.pos, At(|l.items| + 1), l.sentinel, Take(l))
  }

  /** append: a node after the tail, which becomes the tail; the cursor does not move. */
  function Append<E>(l: LList<E>, x: E): (l': LList<E>)
    requires Valid(l)
    ensures Valid(l') && GetSize(l') == GetSize(l) + 1 && l'.pos == l.pos
    ensures l'.items[..|l.items|] == l.items && l'.items[|l.items|] == x
    ensures l.spare > 0 ==> Owned(l') == Owned(l)
    ensures l.spare == 0 ==> Owned(l') == Owned(l) + 1
  {
    LList(l.items + [x], l.pos, At(|l.items| + 1), l.sentinel, Take(l))
  }

  /** The guard of remove and getElement; the empty-list message has no final period. */
  function CheckCurrent<E>(l: LList<E>): (r: Result<Unit>)
    requires Valid(l)
    ensures r.Ok? <==> !AtEnd(l)
    ensures r.Err? ==> r.msg == (if l.items == [] then "List is empty" else "No current element.")
  {
    if |l.items| == 0 then Err("List is empty")
    else if l.tail == At(l.pos) then Err("No current element.")
    else Ok(Unit)
  }

  /**
   * remove: unlink the current element, return it and put its node on the
   * free list; removing the last element makes `current` the tail.
   */
  function Remove<E>(l: LList<E>): (r: Result<(LList<E>, E)>)
    requires Valid(l)
    ensures r.Err? <==> AtEnd(l)
    ensures r.Err? ==> r.msg == (if l.items == [] then "List is empty" else "No current element.")
    ensures r.Ok? ==> var (l', x) := r.value;
      Valid(l') && l'.pos == l.pos && GetSize(l') == GetSize(l) - 1 &&
      GetElement(l) == Ok(x) && l'.spare == l.spare + 1 && Owned(l') == Owned(l)
    ensures r.Ok? ==> var (l', x) := r.value;
      Insert(l', x) == l
  {
    var _ :- CheckCurrent(l);
    var l' := LList(l.items[..l.pos] + l.items[l.pos + 1..], l.pos, At(|l.items| - 1), l.sentinel, l.spare + 1);
    assert l'.items[..l.pos] + [l.items[l.pos]] + l'.items[l.pos..] == l.items;
    Ok((l', l.items[l.pos]))
  }

  /** getElement: the element after `current`. */
  function GetElement<E>(l: LList<E>): (r: Result<E>)
    requires Valid(l)
    ensures r.Err? <==> AtEnd(l)
    ensures r.Err? ==> r.msg == (if l.items == [] then "List is empty" else "No current element.")
    ensures r.Ok? ==> l.pos < |l.items| && r.value == l.items[l.pos]
  {
    var _ :- CheckCurrent(l);
    Ok(l.items[l.pos])
  }

  /** clear: every node goes to the free list; head, tail and current coincide again. */
  function Clear<E>(l: LList<E>): (l': LList<E>)
    requires Valid(l)
    ensures Valid(l') && GetSize(l') == 0 && AtStart(l') && AtEnd(l')
    ensures Owned(l') == Owned(l) && l'.sentinel == l.sentinel
  {
    LList([], 0, At(0), l.sentinel, l.spare + |l.items|)
  }

  function GoToStart<E>(l: LList<E>): (l': LList<E>)
    requires Valid(l)
    ensures Valid(l') && l'.items == l.items && AtStart(l')
    ensures l'.spare == l.spare && l'.sentinel == l.sentinel
  {
    l.(pos := 0)
  }

  function GoToEnd<E>(l: LList<E>): (l': LList<E>)
    requires Valid(l)
    ensures Valid(l') && l'.items == l.items && AtEnd(l')
    ensures l'.spare == l.spare && l'.sentinel == l.sentinel
  {
    l.(pos := |l.items|)
  }

  /** goToPos: walk p links from the head. */
  method GoToPos<E>(l: LList<E>, p: int) returns (r: Result<LList<E>>)
    requires Valid(l)
    ensures r.Ok? <==> 0 <= p <= |l.items|
    ensures r.Err? ==> r.msg == "Index out of bounds."
    ensures r.Ok? ==> r.value == l.(pos := p) && Valid(r.value)
  {
    if p < 0 || p > |l.items| {
      return Err("Index out of bounds.");
    }
    var c := GoToStart(l);
    var i := 0;
    while i < p
      invariant 0 <= i <= p && c == l.(pos := i)
    {
      c := Next(c);
      i := i + 1;
    }
    r := Ok(c);
  }

  /** next: one link forward, staying put at the tail. */
  function Next<E>(l: LList<E>): (l': LList<E>)
    requires Valid(l)
    ensures Valid(l') && l'.items == l.items && l'.spare == l.spare && l'.sentinel == l.sentinel
    ensures AtEnd(l) ==> l' == l
    ensures !AtEnd(l) ==> l'.pos == l.pos + 1
  {
    if l.tail != At(l.pos) then l.(pos := l.pos + 1) else l
  }

  /**
   * previous: there are no back links, so walk from the head to the node
   * whose next is `current`; at the head nothing happens.
   */
  method Previous<E>(l: LList<E>) returns (l': LList<E>)
    requires Valid(l)
    ensures Valid(l') && l'.items == l.items && l'.spare == l.spare && l'.sentinel == l.sentinel
    ensures AtStart(l) ==> l' == l
    ensures !AtStart(l) ==> l'.pos + 1 == l.pos && Next(l') == l
  {
    if l.pos == 0 {
      return l;
    }
    l' := GoToStart(l);
    while l'.pos + 1 != l.pos
      invariant Valid(l') && l' == l.(pos := l'.pos) && l'.pos < l.pos
      decreases l.pos - l'.pos
    {
      l' := Next(l');
    }
  }

  predicate AtStart<E>(l: LList<E>) {
    l.pos == 0
  }

  /** `current` is the node the tail pointer points at. */
  predicate AtEnd<E>(l: LList<E>) {
    l.tail == At(l.pos)
  }

  /** getPos: count the links from the head to `current`. */
  method GetPos<E>(l: LList<E>) returns (n: nat)
    requires Valid(l)
    ensures n == l.pos && n <= GetSize(l)
    ensures AtStart(l) <==> n == 0
    ensures AtEnd(l) <==> n == GetSize(l)
  {
    var walker := GoToStart(l);
    n := 0;
    while walker.pos != l.pos
      invariant Valid(walker) && walker.items == l.items
      invariant walker.pos == n <= l.pos
      decreases l.pos - n
    {
      walker := Next(walker);
      n := n + 1;
    }
  }

  function GetSize<E>(l: LList<E>): nat {
    |l.items|
  }

  // ---------------------------------------------------------------------
  // indexOf and contains
  // ---------------------------------------------------------------------

  /**
   * indexOf as the library writes it: the walk starts at the head sentinel
   * instead of the first element node, so index i is compared against the
   * node i links from the head, i.e. against the sentinel for i = 0 and
   * against element i - 1 otherwise.
   */
  function IndexOfAsWritten<E(==)>(l: LList<E>, x: E, start: int): (r: Result<int>)
    ensures r.Err? <==> start < 0 || start >= |l.items|
    ensures r.Err? ==> r.msg == "Index out of bounds."
    ensures r.Ok? ==> r.value == Seek(([l.sentinel] + l.items)[..|l.items|], x, start)
  {
    if start < 0 || start >= |l.items| then Err("Index out of bounds.")
    else Ok(Seek(([l.sentinel] + l.items)[..|l.items|], x, start))
  }

  /** The one-element list [5] whose sentinel holds 0 does not find its own element. */
  lemma IndexOfMissesLast()
    ensures var l := Append(New(0), 5);
      5 in l.items && IndexOfAsWritten(l, 5, 0) == Ok(-1)
  {
    var l := Append(New(0), 5);
    assert ([l.sentinel] + l.items)[..|l.items|] == [0];
  }

  /** When the sentinel happens to equal x, index 0 is reported for an element that is not x. */
  lemma IndexOfReportsSentinel()
    ensures var l := Append(New(7), 5);
      IndexOfAsWritten(l, 7, 0) == Ok(0) && 7 !in l.items
  {
  }

  /** indexOf as intended: the first index at or after `start` whose element is x, or -1. */
  function IndexOf<E(==)>(l: LList<E>, x: E, start: int): (r: Result<int>)
    ensures r.Err? <==> start < 0 || start >= |l.items|
    ensures r.Err? ==> r.msg == "Index out of bounds."
    ensures r.Ok? && r.value != -1 ==>
      start <= r.value < |l.items| && l.items[r.value] == x &&
      forall j :: start <= j < r.value ==> l.items[j] != x
    ensures r.Ok? && r.value == -1 ==> x !in l.items[start..]
  {
    if start < 0 || start >= |l.items| then Err("Index out of bounds.")
    else Ok(Seek(l.items, x, start))
  }

  /**
   * contains as the library writes it: indexOf from 0, so on an empty list it
   * fails with "Index out of bounds.", and it inherits indexOf's walk from
   * the sentinel: it compares x with the sentinel and every element but the last.
   */
  function Contains<E(==)>(l: LList<E>, x: E): (r: Result<bool>)
    ensures r.Err? <==> l.items == []
    ensures r.Err? ==> r.msg == "Index out of bounds."
    ensures r.Ok? ==> (r.value <==> x == l.sentinel || x in l.items[..|l.items| - 1])
  {
    var i :- IndexOfAsWritten(l, x, 0);
    assert ([l.sentinel] + l.items)[..|l.items|] == [l.sentinel] + l.items[..|l.items| - 1];
    Ok(i != -1)
  }

  /** On the list [5] whose sentinel holds 0, contains(5) answers false. */
  lemma ContainsMissesLast()
    ensures var l := Append(New(0), 5);
      5 in l.items && Contains(l, 5) == Ok(false)
  {
    IndexOfMissesLast();
  }

  /** contains as intended: indexOf from the first element, so true exactly for the stored elements. */
  function ContainsCorrected<E(==)>(l: LList<E>, x: E): (r: Result<bool>)
    ensures r.Err? <==> l.items == []
    ensures r.Err? ==> r.msg == "Index out of bounds."
    ensures r.Ok? ==> (r.value <==> x in l.items)
  {
    var i :- IndexOf(l, x, 0);
    Ok(i != -1)
  }

  // ---------------------------------------------------------------------
  // reverse
  // ---------------------------------------------------------------------

  /**
   * Where the current node ends up: reversing the links leaves `current` on
   * the same node, which now has n - k + 1 links before it; the head stays first.
   */
  function ReversedPos(n: nat, k: nat): (p: nat)
    requires k <= n
    ensures p <= n
    ensures (k == 0) <==> (p == 0)
  {
    if k == 0 then 0 else n - k + 1
  }

  /**
   * reverse as the library writes it: the tail becomes the old first node,
   * which on an empty list is the null pointer rather than the head.
   */
  function ReverseAsWritten<E>(l: LList<E>): (l': LList<E>)
    requires Valid(l)
    ensures l'.items == Rev(l.items) && l'.pos == ReversedPos(|l.items|, l.pos)
    ensures l'.tail == (if l.items == [] then Null else At(|l.items|))
  {
    LList(Rev(l.items), ReversedPos(|l.items|, l.pos), if l.items == [] then Null else At(|l.items|),
      l.sentinel, l.spare)
  }

  /** Reversing the empty list leaves no tail: the next append would follow a null pointer. */
  lemma ReverseEmptyLosesTail<E>(sentinel: E)
    ensures var l := ReverseAsWritten(New(sentinel));
      !Valid(l) && l.tail == Null && !AtEnd(l) && l.items == []
  {
  }

  /** reverse as intended: the same links reversed, with the tail on the head when the list is empty. */
  function Reverse<E>(l: LList<E>): (l': LList<E>)
    requires Valid(l)
    ensures Valid(l') && l'.items == Rev(l.items) && l'.pos == ReversedPos(|l.items|, l.pos)
    ensures l'.spare == l.spare && l'.sentinel == l.sentinel
    ensures l.items != [] ==> l' == ReverseAsWritten(l)
  {
    LList(Rev(l.items), ReversedPos(|l.items|, l.pos), At(|l.items|), l.sentinel, l.spare)
  }

  /** Reversing twice restores the elements and puts the cursor back on its node. */
  lemma {:induction false} ReverseTwice<E>(l: LList<E>)
    requires Valid(l)
    ensures Reverse(Reverse(l)) == l
  {
    RevRev(l.items);
  }

  /**
   * The node under the cursor keeps its element, so after reverse the
   * current element is the one two places before the cursor beforehand.
   */
  lemma ReverseCurrent<E>(l: LList<E>)
    requires Valid(l) && 0 < l.pos
    ensures Reverse(l).items[Reverse(l).pos - 1] == l.items[l.pos - 1]
    ensures l.pos >= 2 ==> GetElement(Reverse(l)) == Ok(l.items[l.pos - 2])
    ensures l.pos == 1 ==> AtEnd(Reverse(l))
  {
  }
}
