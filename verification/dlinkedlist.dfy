/**
 * DLinkedList: a doubly linked list between a head and a tail sentinel.
 * `current` points at the node BEFORE the current element, so the cursor
 * position is the number of links from the head to `current`: 0 is the
 * start and `size` (current is the last node) is the end.  The node chain
 * is modelled by the sequence of its elements and that position.
 */
module DLinkedList {
  import opened Outcome
  import opened Sequences

  datatype DList<E> = DList(items: seq<E>, pos: nat)

  predicate Valid<E>(l: DList<E>) {
    l.pos <= |l.items|
  }

  /** The constructor: just the two sentinels, cursor at the head. */
  function New<E>(): DList<E> {
    DList([], 0)
  }

  /** A new list is empty, with the cursor both at the start and at the end. */
  lemma NewEmpty<E>(l: DList<E>)
    requires l == New()
    ensures Valid(l) && l.items == [] && AtStart(l) && AtEnd(l)
  {
  }

  /** insert: a new node right after `current`, so it becomes the current element; the position stays. */
  function Insert<E>(l: DList<E>, x: E): (l': DList<E>)
    requires Valid(l)
    ensures Valid(l') && GetSize(l') == GetSize(l) + 1 && l'.pos == l.pos
    ensures GetElement(l') == Ok(x)
    ensures l'.items[..l.pos] == l.items[..l.pos] && l'.items[l.pos + 1..] == l.items[l.pos..]
  {
    DList(l.items[..l.pos] + [x] + l.items[l.pos..], l.pos)
  }

  /** append: a new node before the tail; the cursor does not move. */
  function Append<E>(l: DList<E>, x: E): (l': DList<E>)
    requires Valid(l)
    ensures Valid(l') && GetSize(l') == GetSize(l) + 1 && l'.pos == l.pos
    ensures l'.items[..|l.items|] == l.items && l'.items[|l.items|] == x
  {
    DList(l.items + [x], l.pos)
  }

  /** The guard of set, remove and getElement. */
  function CheckCurrent<E>(l: DList<E>): (r: Result<Unit>)
    requires Valid(l)
    ensures r.Ok? <==> !AtEnd(l)
    ensures r.Err? ==> r.msg == (if l.items == [] then "List is empty." else "No current element.")
  {
    if |l.items| == 0 then Err("List is empty.")
    else if l.pos == |l.items| then Err("No current element.")
    else Ok(Unit)
  }

  /** set: overwrite the current element. */
  function Set<E>(l: DList<E>, x: E): (r: Result<DList<E>>)
    requires Valid(l)
    ensures r.Err? <==> AtEnd(l)
    ensures r.Err? ==> r.msg == (if l.items == [] then "List is empty." else "No current element.")
    ensures r.Ok? ==> Valid(r.value) && r.value.pos == l.pos && GetElement(r.value) == Ok(x)
    ensures r.Ok? ==> |r.value.items| == |l.items|
    ensures r.Ok? ==> forall i :: 0 <= i < |l.items| && i != l.pos ==> r.value.items[i] == l.items[i]
  {
    var _ :- CheckCurrent(l);
    Ok(DList(l.items[l.pos := x], l.pos))
  }

  /** remove: unlink the current element and return it; the next one becomes current. */
  function Remove<E>(l: DList<E>): (r: Result<(DList<E>, E)>)
    requires Valid(l)
    ensures r.Err? <==> AtEnd(l)
    ensures r.Err? ==> r.msg == (if l.items == [] then "List is empty." else "No current element.")
    ensures r.Ok? ==> var (l', x) := r.value;
      Valid(l') && l'.pos == l.pos && GetSize(l') == GetSize(l) - 1 &&
      GetElement(l) == Ok(x) && Insert(l', x) == l
  {
    var _ :- CheckCurrent(l);
    var l' := DList(l.items[..l.pos] + l.items[l.pos + 1..], l.pos);
    assert l'.items[..l.pos] + [l.items[l.pos]] + l'.items[l.pos..] == l.items;
    Ok((l', l.items[l.pos]))
  }

  /** getElement: the element after `current`. */
  function GetElement<E>(l: DList<E>): (r: Result<E>)
    requires Valid(l)
    ensures r.Err? <==> AtEnd(l)
    ensures r.Err? ==> r.msg == (if l.items == [] then "List is empty." else "No current element.")
    ensures r.Ok? ==> l.pos < |l.items| && r.value == l.items[l.pos]
  {
    var _ :- CheckCurrent(l);
    Ok(l.items[l.pos])
  }

  /** clear: unlink every node; the cursor returns to the head. */
  function Clear<E>(l: DList<E>): (l': DList<E>)
    ensures Valid(l') && GetSize(l') == 0 && AtStart(l')
  {
    New()
  }

  function GoToStart<E>(l: DList<E>): (l': DList<E>)
    ensures Valid(l') && l'.items == l.items && AtStart(l')
  {
    DList(l.items, 0)
  }

  function GoToEnd<E>(l: DList<E>): (l': DList<E>)
    ensures Valid(l') && l'.items == l.items && AtEnd(l')
  {
    DList(l.items, |l.items|)
  }

  /**
   * goToPos: walk forward from the head when the target is in the first
   * half, backward from the last node otherwise.  Either walk ends at p.
   */
  method GoToPos<E>(l: DList<E>, p: int) returns (r: Result<DList<E>>)
    requires Valid(l)
    ensures r.Ok? <==> 0 <= p <= |l.items|
    ensures r.Err? ==> r.msg == "Index out of bounds."
    ensures r.Ok? ==> Valid(r.value) && r.value.items == l.items && r.value.pos == p
  {
    if p < 0 || p > |l.items| {
      return Err("Index out of bounds.");
    }
    var n := |l.items|;
    var c: DList<E>;
    if p <= n / 2 {
      c := GoToStart(l);
      var i := 0;
      while i < p
        invariant 0 <= i <= p && c == DList(l.items, i)
      {
        c := Next(c);
        i := i + 1;
      }
    } else {
      c := GoToEnd(l);
      var i := 0;
      while i < n - p
        invariant 0 <= i <= n - p && c == DList(l.items, n - i)
      {
        c := Previous(c);
        i := i + 1;
      }
    }
    r := Ok(c);
  }

  /** next: one step forward, staying put at the end. */
  function Next<E>(l: DList<E>): (l': DList<E>)
    requires Valid(l)
    ensures Valid(l') && l'.items == l.items
    ensures AtEnd(l) ==> l' == l
    ensures !AtEnd(l) ==> l'.pos == l.pos + 1
  {
    if l.pos < |l.items| then DList(l.items, l.pos + 1) else l
  }

  /** previous: one step back, staying put at the head. */
  function Previous<E>(l: DList<E>): (l': DList<E>)
    requires Valid(l)
    ensures Valid(l') && l'.items == l.items
    ensures AtStart(l) ==> l' == l
    ensures !AtStart(l) ==> l'.pos == l.pos - 1
  {
    if l.pos > 0 then DList(l.items, l.pos - 1) else l
  }

  predicate AtStart<E>(l: DList<E>) {
    l.pos == 0
  }

  predicate AtEnd<E>(l: DList<E>) {
    l.pos == |l.items|
  }

  /** getPos: count the links from the head to `current`. */
  method GetPos<E>(l: DList<E>) returns (n: nat)
    requires Valid(l)
    ensures n == l.pos && n <= GetSize(l)
    ensures AtStart(l) <==> n == 0
    ensures AtEnd(l) <==> n == GetSize(l)
  {
    var walker := GoToStart(l);
    n := 0;
    while walker.pos != l.pos
      invariant Valid(walker) && walker.items == l.items
      invariant walker.pos == n <= l.pos
      decreases l.pos - n
    {
      walker := Next(walker);
      n := n + 1;
    }
  }

  function GetSize<E>(l: DList<E>): nat {
    |l.items|
  }

  /** Away from the ends, previous undoes next and next undoes previous. */
  lemma StepsUndo<E>(l: DList<E>)
    requires Valid(l)
    ensures !AtEnd(l) ==> Previous(Next(l)) == l
    ensures !AtStart(l) ==> Next(Previous(l)) == l
  {
  }

  /** indexOf: the first index at or after `start` holding x, or -1; a start outside 0..size-1 fails. */
  function IndexOf<E(==)>(l: DList<E>, x: E, start: int): (r: Result<int>)
    ensures r.Err? <==> start < 0 || start >= |l.items|
    ensures r.Err? ==> r.msg == "Index out of bounds."
    ensures r.Ok? && r.value != -1 ==>
      start <= r.value < |l.items| && l.items[r.value] == x &&
      forall j :: start <= j < r.value ==> l.items[j] != x
    ensures r.Ok? && r.value == -1 ==> x !in l.items[start..]
  {
    if start < 0 || start >= |l.items| then Err("Index out of bounds.")
    else Ok(Seek(l.items, x, start))
  }

  /**
   * contains: walk the cursor from the start until x is current or the end
   * is reached.  It never fails, and it leaves the cursor where it stopped.
   */
  method Contains<E(==)>(l: DList<E>, x: E) returns (l': DList<E>, b: bool)
    requires Valid(l)
    ensures Valid(l') && l'.items == l.items
    ensures b <==> x in l.items
    ensures b ==> GetElement(l') == Ok(x) && x !in l.items[..l'.pos]
    ensures !b ==> AtEnd(l')
  {
    l' := GoToStart(l);
    while !AtEnd(l')
      invariant Valid(l') && l'.items == l.items
      invariant x !in l.items[..l'.pos]
      decreases |l.items| - l'.pos
    {
      if x == GetElement(l').value {
        return l', true;
      }
      assert l.items[..l'.pos + 1] == l.items[..l'.pos] + [l.items[l'.pos]];
      l' := Next(l');
    }
    assert l.items[..l'.pos] == l.items;
    b := false;
  }
}
