/**
 * SortedArrayList: an ArrayList (by inheritance) whose insert keeps the
 * elements in non-decreasing order.  Insert walks the cursor from the start
 * past every element not greater than the new one and inserts there, so
 * equal elements keep their arrival order and the cursor is left on the new
 * element.  Append is the same insert.  Elements are ordered by `key`.
 */
module SortedArrayList {
  import opened Outcome
  import AL = ArrayList
  import opened Sequences

  /** Keys never decrease along the list. */
  ghost predicate Sorted<E>(key: E -> int, s: seq<E>) {
    forall i, j :: 0 <= i < j < |s| ==> key(s[i]) <= key(s[j])
  }

  /** insert: the element goes in after every element whose key is at most its own. */
  method Insert<E>(key: E -> int, a: AL.List<E>, x: E) returns (b: AL.List<E>)
    requires AL.Valid(a)
    ensures AL.Valid(b) && AL.GetElement(b) == Ok(x) && b.pos <= |AL.Items(a)|
    ensures AL.Items(b) == AL.Items(a)[..b.pos] + [x] + AL.Items(a)[b.pos..]
    ensures forall j :: 0 <= j < b.pos ==> key(AL.Items(a)[j]) <= key(x)
    ensures b.pos < |AL.Items(a)| ==> key(x) < key(AL.Items(a)[b.pos])
    ensures multiset(AL.Items(b)) == multiset(AL.Items(a)) + multiset{x}
    ensures Sorted(key, AL.Items(a)) ==> Sorted(key, AL.Items(b))
  {
    var c := AL.GoToStart(a);
    while !AL.AtEnd(c) && key(x) >= key(AL.GetElement(c).value)
      invariant AL.Valid(c) && AL.Items(c) == AL.Items(a)
      invariant forall j :: 0 <= j < c.pos ==> key(AL.Items(a)[j]) <= key(x)
      decreases c.size - c.pos
    {
      c := AL.Next(c);
    }
    b := AL.Insert(c, x);
    var s := AL.Items(a);
    SpliceMultiset(s, c.pos, x);
    if Sorted(key, s) {
      SortedSplice(key, s, c.pos, x);
    }
  }

  /** append: the same ordered insert. */
  method Append<E>(key: E -> int, a: AL.List<E>, x: E) returns (b: AL.List<E>)
    requires AL.Valid(a)
    ensures AL.Valid(b) && AL.GetElement(b) == Ok(x)
    ensures multiset(AL.Items(b)) == multiset(AL.Items(a)) + multiset{x}
    ensures Sorted(key, AL.Items(a)) ==> Sorted(key, AL.Items(b))
  {
    b := Insert(key, a, x);
  }

  /** Putting x where everything before is at most x and the next is greater keeps a sorted list sorted. */
  lemma SortedSplice<E>(key: E -> int, s: seq<E>, p: nat, x: E)
    requires Sorted(key, s) && p <= |s|
    requires forall j :: 0 <= j < p ==> key(s[j]) <= key(x)
    requires p < |s| ==> key(x) < key(s[p])
    ensures Sorted(key, s[..p] + [x] + s[p..])
  {
    var t := s[..p] + [x] + s[p..];
    assert forall j :: 0 <= j < |t| ==> t[j] == if j < p then s[j] else if j == p then x else s[j - 1];
  }
}
