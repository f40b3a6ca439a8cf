/**
 * CircleList: a singly linked ring reached through `current`, which points
 * at the back element; `current->next` is the front.  The ring is modelled
 * by its elements read from the front, so the back is the last one and the
 * empty ring (current null) is the empty sequence.
 */
module CircleList {
  import opened Outcome
  import opened Sequences

  datatype Ring<E> = Ring(items: seq<E>)

  const EmptyMsg := "List is empty."

  /** The constructor: no node, current null. */
  function New<E>(): Ring<E> {
    Ring([])
  }

  /** A new ring is empty. */
  lemma NewEmpty<E>(r: Ring<E>)
    requires r == New()
    ensures GetSize(r) == 0 && GetFront(r).Err? && GetBack(r).Err?
  {
  }

  /**
   * insert: a new node after `current`, so it becomes the front; into an
   * empty ring, a single node linked to itself.
   */
  function Insert<E>(r: Ring<E>, x: E): (r': Ring<E>)
    ensures GetSize(r') == GetSize(r) + 1
    ensures GetFront(r') == Ok(x)
    ensures r.items == [] ==> GetBack(r') == Ok(x)
    ensures r.items != [] ==> GetBack(r') == GetBack(r)
    ensures r'.items[1..] == r.items
  {
    Ring([x] + r.items)
  }

  /** remove: unlink and return the front; removing the only node leaves the ring empty. */
  function Remove<E>(r: Ring<E>): (res: Result<(Ring<E>, E)>)
    ensures res.Err? <==> r.items == []
    ensures res.Err? ==> res.msg == EmptyMsg
    ensures res.Ok? ==> var (r', x) := res.value;
      GetFront(r) == Ok(x) && GetSize(r') == GetSize(r) - 1 && Insert(r', x) == r
    ensures res.Ok? && GetSize(r) == 1 ==> res.value.0.items == []
  {
    if r.items == [] then Err(EmptyMsg)
    else
      assert [r.items[0]] + r.items[1..] == r.items;
      Ok((Ring(r.items[1..]), r.items[0]))
  }

  /** clear: remove until the size is 0. */
  method Clear<E>(r: Ring<E>) returns (r': Ring<E>)
    ensures GetSize(r') == 0
  {
    r' := r;
    while GetSize(r') > 0
      invariant |r'.items| <= |r.items|
      decreases |r'.items|
    {
      var removed := Remove(r');
      r' := removed.value.0;
    }
  }

  /** getFront: the element after `current`. */
  function GetFront<E>(r: Ring<E>): (res: Result<E>)
    ensures res.Err? <==> r.items == []
    ensures res.Err? ==> res.msg == EmptyMsg
    ensures res.Ok? ==> res.value == r.items[0]
  {
    if r.items == [] then Err(EmptyMsg) else Ok(r.items[0])
  }

  /** getBack: the element at `current`. */
  function GetBack<E>(r: Ring<E>): (res: Result<E>)
    ensures res.Err? <==> r.items == []
    ensures res.Err? ==> res.msg == EmptyMsg
    ensures res.Ok? ==> res.value == r.items[|r.items| - 1]
    ensures GetSize(r) == 1 ==> res == GetFront(r)
  {
    if r.items == [] then Err(EmptyMsg) else Ok(r.items[|r.items| - 1])
  }

  /** next: `current` moves one link on, so the old front becomes the back. */
  function Next<E>(r: Ring<E>): (res: Result<Ring<E>>)
    ensures res.Err? <==> r.items == []
    ensures res.Err? ==> res.msg == EmptyMsg
    ensures res.Ok? ==> GetSize(res.value) == GetSize(r) && GetBack(res.value) == GetFront(r)
    ensures res.Ok? ==> multiset(res.value.items) == multiset(r.items)
    ensures res.Ok? ==> forall i :: 0 <= i < |r.items| - 1 ==> res.value.items[i] == r.items[i + 1]
  {
    if r.items == [] then Err(EmptyMsg)
    else
      assert r.items == [r.items[0]] + r.items[1..];
      Ok(Ring(r.items[1..] + [r.items[0]]))
  }

  /** The ring turned one link backward: the old back becomes the front. */
  function Back<E>(r: Ring<E>): (res: Result<Ring<E>>)
    ensures res.Err? <==> r.items == []
    ensures res.Err? ==> res.msg == EmptyMsg
    ensures res.Ok? ==> GetSize(res.value) == GetSize(r) && GetFront(res.value) == GetBack(r)
    ensures res.Ok? ==> res.value.items[1..] == r.items[..|r.items| - 1]
  {
    if r.items == [] then Err(EmptyMsg)
    else Ok(Ring([r.items[|r.items| - 1]] + r.items[..|r.items| - 1]))
  }

  /**
   * previous: the links only go forward, so walk from `current` round the
   * ring to the node whose next is `current`, and make it current.
   */
  method Previous<E>(r: Ring<E>) returns (res: Result<Ring<E>>)
    ensures res == Back(r)
  {
    if r.items == [] {
      return Err(EmptyMsg);
    }
    var n := |r.items|;
    var cur := n - 1;
    var temp := cur;
    var i := 0;
    while (temp + 1) % n != cur
      invariant 0 <= i <= n - 1
      invariant temp == if i == 0 then n - 1 else i - 1
      decreases n - 1 - i
    {
      temp := (temp + 1) % n;
      i := i + 1;
    }
    assert i == n - 1;
    var turned := r.items[temp + 1..] + r.items[..temp + 1];
    if n == 1 {
      assert turned == r.items == Back(r).value.items;
    } else {
      assert r.items[temp + 1..] == [r.items[n - 1]];
      assert turned == Back(r).value.items;
    }
    res := Ok(Ring(turned));
  }

  /** next and previous are mutual inverses on a non-empty ring. */
  lemma {:induction false} NextBackInverse<E>(r: Ring<E>)
    requires r.items != []
    ensures Back(Next(r).value) == Ok(r)
    ensures Next(Back(r).value) == Ok(r)
  {
    var n := |r.items|;
    var s := Next(r).value.items;
    assert [s[n - 1]] + s[..n - 1] == r.items;
    var t := Back(r).value.items;
    assert t[1..] + [t[0]] == r.items;
  }

  function GetSize<E>(r: Ring<E>): nat {
    |r.items|
  }

  /** indexOf: counted from the front; a start outside 0..size-1 fails. */
  function IndexOf<E(==)>(r: Ring<E>, x: E, start: int): (res: Result<int>)
    ensures res.Err? <==> start < 0 || start >= |r.items|
    ensures res.Err? ==> res.msg == "Index out of bounds."
    ensures res.Ok? && res.value != -1 ==>
      start <= res.value < |r.items| && r.items[res.value] == x &&
      forall j :: start <= j < res.value ==> r.items[j] != x
    ensures res.Ok? && res.value == -1 ==> x !in r.items[start..]
  {
    if start < 0 || start >= |r.items| then Err("Index out of bounds.")
    else Ok(Seek(r.items, x, start))
  }

  /** contains: indexOf from 0, so it fails on an empty ring. */
  function Contains<E(==)>(r: Ring<E>, x: E): (res: Result<bool>)
    ensures res.Err? <==> r.items == []
    ensures res.Err? ==> res.msg == "Index out of bounds."
    ensures res.Ok? ==> (res.value <==> x in r.items)
  {
    var i :- IndexOf(r, x, 0);
    Ok(i != -1)
  }
}
