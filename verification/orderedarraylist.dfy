/**
 * OrderedArrayList: an ordered list by composition.  It wraps an ArrayList
 * `data`; insert and append do the same ordered insert as SortedArrayList on
 * the wrapped list, and every other operation is the ArrayList operation on
 * `data`, unchanged.
 */
module OrderedArrayList {
  import opened Outcome
  import AL = ArrayList
  import SortedArrayList

  datatype Ordered<E> = Ordered(data: AL.List<E>)

  predicate Valid<E>(o: Ordered<E>) {
    AL.Valid(o.data)
  }

  /** The constructor: the wrapped ArrayList's, failing with "Invalid max size." below 1. */
  function New<E>(max: int, filler: E): (r: Result<Ordered<E>>)
    ensures r.Err? <==> max < 1
    ensures r.Err? ==> r.msg == "Invalid max size."
    ensures r.Ok? ==> Valid(r.value) && AL.Items(r.value.data) == []
  {
    var a :- AL.New(max, filler);
    Ok(Ordered(a))
  }

  /** insert: the ordered insert on the wrapped list; the wrapped cursor ends on the new element. */
  method Insert<E>(key: E -> int, o: Ordered<E>, x: E) returns (o': Ordered<E>)
    requires Valid(o)
    ensures Valid(o') && AL.GetElement(o'.data) == Ok(x)
    ensures multiset(AL.Items(o'.data)) == multiset(AL.Items(o.data)) + multiset{x}
    ensures SortedArrayList.Sorted(key, AL.Items(o.data)) ==> SortedArrayList.Sorted(key, AL.Items(o'.data))
  {
    var d := SortedArrayList.Insert(key, o.data, x);
    o' := Ordered(d);
  }

  /** append: the same as insert. */
  method Append<E>(key: E -> int, o: Ordered<E>, x: E) returns (o': Ordered<E>)
    requires Valid(o)
    ensures Valid(o') && AL.GetElement(o'.data) == Ok(x)
    ensures multiset(AL.Items(o'.data)) == multiset(AL.Items(o.data)) + multiset{x}
    ensures SortedArrayList.Sorted(key, AL.Items(o.data)) ==> SortedArrayList.Sorted(key, AL.Items(o'.data))
  {
    o' := Insert(key, o, x);
  }

  /** remove: the wrapped list's remove. */
  method Remove<E>(o: Ordered<E>) returns (r: Result<(Ordered<E>, E)>)
    requires Valid(o)
    ensures r.Ok? <==> o.data.pos < o.data.size
    ensures r.Ok? ==> (Valid(r.value.0) && r.value.1 == AL.Items(o.data)[o.data.pos] &&
      AL.Items(r.value.0.data) == AL.Items(o.data)[..o.data.pos] + AL.Items(o.data)[o.data.pos + 1..])
    ensures r.Err? ==> r.msg == (if o.data.size == 0 then "List is empty." else "No current element.")
  {
    var p :- AL.Remove(o.data);
    r := Ok((Ordered(p.0), p.1));
  }

  /** Removing keeps an ordered list ordered. */
  lemma RemoveKeepsSorted<E>(key: E -> int, s: seq<E>, p: nat)
    requires SortedArrayList.Sorted(key, s) && p < |s|
    ensures SortedArrayList.Sorted(key, s[..p] + s[p + 1..])
  {
    var t := s[..p] + s[p + 1..];
    assert forall j :: 0 <= j < |t| ==> t[j] == s[if j < p then j else j + 1];
  }
}
