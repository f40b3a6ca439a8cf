/**
 * ArrayList: a list stored in an array that doubles when full, with a
 * cursor `pos` that ranges over 0..size (size means "past the end").
 *
 * The array is a sequence `buf` of length `max`; its first `size` slots are
 * the list, `Items`.  The rest hold whatever a default-constructed or
 * previously used slot holds, and no operation reads them.  Operations
 * return the new list rather than mutating one.
 */
module ArrayList {
  import opened Outcome

  /** The capacity the constructor takes when the caller gives none. */
  const DefaultMax := 1024

  datatype List<E> = List(buf: seq<E>, max: nat, size: nat, pos: nat)

  /** The representation invariant: a non-empty array, size within it, cursor within the list. */
  predicate Valid<E>(a: List<E>) {
    1 <= a.max == |a.buf| && a.size <= a.max && a.pos <= a.size
  }

  /** The list: the occupied prefix of the array. */
  function Items<E>(a: List<E>): (s: seq<E>)
    requires Valid(a)
    ensures |s| == a.size
  {
    a.buf[..a.size]
  }

  /**
   * The constructor: a capacity below 1 fails with "Invalid max size.".
   * `filler` stands for the default-constructed array slots.
   */
  function New<E>(max: int, filler: E): (r: Result<List<E>>)
    ensures r.Err? <==> max < 1
    ensures r.Err? ==> r.msg == "Invalid max size."
    ensures r.Ok? ==> Valid(r.value) && Items(r.value) == [] && r.value.pos == 0 && r.value.max == max
  {
    if max < 1 then Err("Invalid max size.")
    else Ok(List(seq(max, _ => filler), max, 0, 0))
  }

  /** The constructor with its default argument: an empty list of capacity 1024, which cannot fail. */
  function NewDefault<E>(filler: E): (a: List<E>)
    ensures Valid(a) && a.max == DefaultMax && Items(a) == [] && a.pos == 0
    ensures New(DefaultMax, filler) == Ok(a)
  {
    New(DefaultMax, filler).value
  }

  /** expand: copy the list into an array twice as large. */
  method Expand<E>(a: List<E>) returns (b: List<E>)
    requires Valid(a)
    ensures Valid(b) && b.max == 2 * a.max
    ensures Items(b) == Items(a) && b.pos == a.pos
  {
    var spare := a.buf[0];
    var nb := seq(2 * a.max, _ => spare);
    var i := 0;
    while i < a.size
      invariant 0 <= i <= a.size && |nb| == 2 * a.max
      invariant forall j :: 0 <= j < i ==> nb[j] == a.buf[j]
    {
      nb := nb[i := a.buf[i]];
      i := i + 1;
    }
    b := List(nb, 2 * a.max, a.size, a.pos);
    assert forall j :: 0 <= j < a.size ==> Items(b)[j] == Items(a)[j];
  }

  /** insert: the element goes in at the cursor, later elements shift right, the cursor stays; never fails. */
  method Insert<E>(a: List<E>, x: E) returns (b: List<E>)
    requires Valid(a)
    ensures Valid(b) && b.pos == a.pos
    ensures Items(b) == Items(a)[..a.pos] + [x] + Items(a)[a.pos..]
  {
    var c := a;
    if a.size == a.max {
      c := Expand(a);
    }
    var buf := c.buf;
    var i := c.size;
    while i > c.pos
      invariant c.pos <= i <= c.size && |buf| == c.max
      invariant forall j :: 0 <= j <= i && j < c.max ==> buf[j] == c.buf[j]
      invariant forall j :: i < j <= c.size ==> buf[j] == c.buf[j - 1]
    {
      buf := buf[i := buf[i - 1]];
      i := i - 1;
    }
    buf := buf[c.pos := x];
    b := List(buf, c.max, c.size + 1, c.pos);
    assert forall j :: 0 <= j < c.size ==> Items(c)[j] == c.buf[j];
    assert Items(c) == Items(a);
    assert forall j :: 0 <= j < b.size ==>
      Items(b)[j] == (Items(a)[..a.pos] + [x] + Items(a)[a.pos..])[j];
  }

  /** append: the element goes in after the last one; the cursor stays; never fails. */
  method Append<E>(a: List<E>, x: E) returns (b: List<E>)
    requires Valid(a)
    ensures Valid(b) && b.pos == a.pos
    ensures Items(b) == Items(a) + [x]
  {
    var c := a;
    if a.size == a.max {
      c := Expand(a);
    }
    b := List(c.buf[c.size := x], c.max, c.size + 1, c.pos);
    assert forall j :: 0 <= j < b.size ==> Items(b)[j] == (Items(c) + [x])[j];
  }

  /** The common guard of set, remove and getElement. */
  function CheckCurrent<E>(a: List<E>): (r: Result<Unit>)
    requires Valid(a)
    ensures r.Ok? <==> a.pos < a.size
    ensures a.size == 0 ==> r == Err("List is empty.")
    ensures 0 < a.size == a.pos ==> r == Err("No current element.")
  {
    if a.size == 0 then Err("List is empty.")
    else if a.pos == a.size then Err("No current element.")
    else Ok(Unit)
  }

  /** set: overwrite the current element. */
  function Set<E>(a: List<E>, x: E): (r: Result<List<E>>)
    requires Valid(a)
    ensures r.Err? ==> r.msg == (if a.size == 0 then "List is empty." else "No current element.")
    ensures r.Ok? <==> a.pos < a.size
    ensures r.Ok? ==> Valid(r.value) && r.value.pos == a.pos && Items(r.value) == Items(a)[a.pos := x]
  {
    var _ :- CheckCurrent(a);
    var b := List(a.buf[a.pos := x], a.max, a.size, a.pos);
    assert Items(b) == Items(a)[a.pos := x];
    Ok(b)
  }

  /** remove: take out the current element; later elements shift left and the cursor stays. */
  method Remove<E>(a: List<E>) returns (r: Result<(List<E>, E)>)
    requires Valid(a)
    ensures r.Err? ==> r.msg == (if a.size == 0 then "List is empty." else "No current element.")
    ensures r.Ok? <==> a.pos < a.size
    ensures r.Ok? ==> var (b, x) := r.value;
      Valid(b) && b.pos == a.pos && b.max == a.max &&
      x == Items(a)[a.pos] && Items(b) == Items(a)[..a.pos] + Items(a)[a.pos + 1..]
  {
    var ok := CheckCurrent(a);
    if ok.Err? {
      return ok.PropagateFailure();
    }
    var x := a.buf[a.pos];
    var buf := a.buf;
    var i := a.pos + 1;
    while i < a.size
      invariant a.pos + 1 <= i <= a.size && |buf| == a.max
      invariant forall j :: 0 <= j < a.pos ==> buf[j] == a.buf[j]
      invariant forall j :: a.pos <= j < i - 1 ==> buf[j] == a.buf[j + 1]
      invariant forall j :: i - 1 <= j < a.max ==> buf[j] == a.buf[j]
    {
      buf := buf[i - 1 := buf[i]];
      i := i + 1;
    }
    var b := List(buf, a.max, a.size - 1, a.pos);
    assert forall j :: 0 <= j < b.size ==> Items(b)[j] == (Items(a)[..a.pos] + Items(a)[a.pos + 1..])[j];
    r := Ok((b, x));
  }

  /** getElement: the current element. */
  function GetElement<E>(a: List<E>): (r: Result<E>)
    requires Valid(a)
    ensures r.Err? ==> r.msg == (if a.size == 0 then "List is empty." else "No current element.")
    ensures r.Ok? <==> a.pos < a.size
    ensures r.Ok? ==> r.value == Items(a)[a.pos]
  {
    var _ :- CheckCurrent(a);
    Ok(a.buf[a.pos])
  }

  /** clear: no elements, cursor at the start; the array is kept. */
  function Clear<E>(a: List<E>): (b: List<E>)
    requires Valid(a)
    ensures Valid(b) && Items(b) == [] && b.pos == 0 && b.max == a.max
  {
    List(a.buf, a.max, 0, 0)
  }

  // ---------------------------------------------------------------------
  // The cursor
  // ---------------------------------------------------------------------

  function GoToStart<E>(a: List<E>): (b: List<E>)
    requires Valid(a)
    ensures Valid(b) && Items(b) == Items(a) && AtStart(b)
  {
    a.(pos := 0)
  }

  function GoToEnd<E>(a: List<E>): (b: List<E>)
    requires Valid(a)
    ensures Valid(b) && Items(b) == Items(a) && AtEnd(b)
  {
    a.(pos := a.size)
  }

  /** goToPos: any position 0..size, or "Index out of bounds.". */
  function GoToPos<E>(a: List<E>, p: int): (r: Result<List<E>>)
    requires Valid(a)
    ensures r.Ok? <==> 0 <= p <= a.size
    ensures r.Err? ==> r.msg == "Index out of bounds."
    ensures r.Ok? ==> Valid(r.value) && Items(r.value) == Items(a) && GetPos(r.value) == p
  {
    if p < 0 || p > a.size then Err("Index out of bounds.") else Ok(a.(pos := p))
  }

  /** next: one step forward, staying put at the end. */
  function Next<E>(a: List<E>): (b: List<E>)
    requires Valid(a)
    ensures Valid(b) && Items(b) == Items(a) && b.max == a.max
    ensures AtEnd(a) ==> b == a
    ensures !AtEnd(a) ==> GetPos(b) == GetPos(a) + 1
  {
    if a.pos < a.size then a.(pos := a.pos + 1) else a
  }

  /** previous: one step back, staying put at the start. */
  function Previous<E>(a: List<E>): (b: List<E>)
    requires Valid(a)
    ensures Valid(b) && Items(b) == Items(a)
    ensures AtStart(a) ==> b == a
    ensures !AtStart(a) ==> GetPos(b) == GetPos(a) - 1
  {
    if a.pos > 0 then a.(pos := a.pos - 1) else a
  }

  predicate AtStart<E>(a: List<E>) {
    a.pos == 0
  }

  predicate AtEnd<E>(a: List<E>) {
    a.pos == a.size
  }

  function GetPos<E>(a: List<E>): nat {
    a.pos
  }

  function GetSize<E>(a: List<E>): (n: nat)
    requires Valid(a)
    ensures n == |Items(a)|
  {
    a.size
  }

  /** Away from the ends, previous undoes next and next undoes previous. */
  lemma StepsUndo<E>(a: List<E>)
    requires Valid(a)
    ensures !AtEnd(a) ==> Previous(Next(a)) == a
    ensures !AtStart(a) ==> Next(Previous(a)) == a
  {
  }

  // ---------------------------------------------------------------------
  // Searching and reversing
  // ---------------------------------------------------------------------

  /**
   * indexOf: the first index at or after `start` holding the element, or -1.
   * A start outside 0..size-1 fails with "Index out of bounds.".
   */
  method IndexOf<E(==)>(a: List<E>, x: E, start: int) returns (r: Result<int>)
    requires Valid(a)
    ensures r.Err? <==> start < 0 || start >= a.size
    ensures r.Err? ==> r.msg == "Index out of bounds."
    ensures r.Ok? && r.value != -1 ==>
      start <= r.value < a.size && Items(a)[r.value] == x && x !in Items(a)[start..r.value]
    ensures r.Ok? && r.value == -1 ==> x !in Items(a)[start..]
    ensures r.Ok? ==> -1 <= r.value
  {
    if start < 0 || start >= a.size {
      return Err("Index out of bounds.");
    }
    var i := start;
    while i < a.size
      invariant start <= i <= a.size
      invariant x !in Items(a)[start..i]
    {
      if a.buf[i] == x {
        return Ok(i);
      }
      assert Items(a)[start..i + 1] == Items(a)[start..i] + [a.buf[i]];
      i := i + 1;
    }
    r := Ok(-1);
  }

  /** contains: indexOf from 0, so on an empty list it fails with "Index out of bounds.". */
  method Contains<E(==)>(a: List<E>, x: E) returns (r: Result<bool>)
    requires Valid(a)
    ensures r.Err? <==> a.size == 0
    ensures r.Err? ==> r.msg == "Index out of bounds."
    ensures r.Ok? ==> (r.value <==> x in Items(a))
  {
    var i :- IndexOf(a, x, 0);
    assert Items(a)[0..] == Items(a);
    if i != -1 {
      assert x == Items(a)[i];
    }
    r := Ok(i != -1);
  }

  /** reverse: the list backwards into a new array of the same capacity; size and cursor stay. */
  method Reverse<E>(a: List<E>) returns (b: List<E>)
    requires Valid(a)
    ensures Valid(b) && b.size == a.size && b.pos == a.pos && b.max == a.max
    ensures forall i :: 0 <= i < a.size ==> Items(b)[i] == Items(a)[a.size - 1 - i]
  {
    var spare := a.buf[0];
    var nb := seq(a.max, _ => spare);
    var i := 0;
    while i < a.size
      invariant 0 <= i <= a.size && |nb| == a.max
      invariant forall j :: 0 <= j < i ==> nb[j] == a.buf[a.size - j - 1]
    {
      nb := nb[i := a.buf[a.size - i - 1]];
      i := i + 1;
    }
    b := List(nb, a.max, a.size, a.pos);
  }
}
