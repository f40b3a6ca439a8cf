/**
 * Sequences: the sequence facts several containers share: a forward
 * search, insertion at a position, reversal, and the uniqueness of a
 * strictly increasing listing.
 */
module Sequences {

  /** The first index at or after i where s holds x, or -1. */
  function Seek<E(==)>(s: seq<E>, x: E, i: nat): (r: int)
    requires i <= |s|
    ensures r == -1 || i <= r < |s|
    ensures r == -1 <==> x !in s[i..]
    ensures i <= r < |s| ==> s[r] == x && forall j :: i <= j < r ==> s[j] != x
    decreases |s| - i
  {
    if i == |s| then -1
    else if s[i] == x then i
    else
      assert s[i..] == [s[i]] + s[i + 1..];
      Seek(s, x, i + 1)
  }

  /** s backwards. */
  function Rev<E>(s: seq<E>): (r: seq<E>)
    ensures |r| == |s|
    ensures forall i :: 0 <= i < |s| ==> r[i] == s[|s| - 1 - i]
  {
    if s == [] then [] else Rev(s[1..]) + [s[0]]
  }

  /** Putting x into s at p adds exactly one x to the elements. */
  lemma SpliceMultiset<E>(s: seq<E>, p: nat, x: E)
    requires p <= |s|
    ensures multiset(s[..p] + [x] + s[p..]) == multiset(s) + multiset{x}
  {
    assert s == s[..p] + s[p..];
  }

  /** Reversing twice gives back the sequence. */
  lemma RevRev<E>(s: seq<E>)
    ensures Rev(Rev(s)) == s
  {
    assert forall i :: 0 <= i < |s| ==> Rev(Rev(s))[i] == s[i];
  }

  /** Strictly increasing integers. */
  predicate Increasing(s: seq<int>) {
    forall i, j :: 0 <= i < j < |s| ==> s[i] < s[j]
  }

  /**
   * Every element of a is in b.  Stated element by element so that a proof
   * about it unfolds one element at a time.
   */
  predicate Within(a: seq<int>, b: seq<int>) {
    a == [] || (a[0] in b && Within(a[1..], b))
  }

  /** Within is membership of every element. */
  lemma {:induction false} WithinAll(a: seq<int>, b: seq<int>)
    ensures Within(a, b) <==> forall i :: 0 <= i < |a| ==> a[i] in b
  {
    if a != [] {
      WithinAll(a[1..], b);
      assert forall i :: 1 <= i < |a| ==> a[i] == a[1..][i - 1];
    }
  }

  /** Leaving out the head of b keeps every element of a that differs from it. */
  lemma {:induction false} WithinDrop(a: seq<int>, b: seq<int>)
    requires b != [] && Within(a, b) && b[0] !in a
    ensures Within(a, b[1..])
  {
    if a != [] {
      assert b == [b[0]] + b[1..];
      assert a[0] in b[1..];
      WithinDrop(a[1..], b);
    }
  }

  /** The head of an increasing sequence does not recur. */
  lemma HeadOnce(a: seq<int>)
    requires Increasing(a) && a != []
    ensures a[0] !in a[1..]
  {
    forall k | 0 <= k < |a| - 1
      ensures a[1..][k] != a[0]
    {
      assert a[0] < a[k + 1];
    }
  }

  /** Dropping the first element keeps a sequence increasing. */
  lemma IncreasingTail(a: seq<int>)
    requires Increasing(a) && a != []
    ensures Increasing(a[1..])
  {
    forall i, j | 0 <= i < j < |a| - 1
      ensures a[1..][i] < a[1..][j]
    {
      assert a[1..][i] == a[i + 1] && a[1..][j] == a[j + 1];
    }
  }

  /** Non-empty increasing sequences each holding the other's head start alike. */
  lemma HeadsAgree(a: seq<int>, b: seq<int>)
    requires Increasing(a) && Increasing(b) && a != [] && b != []
    requires a[0] in b && b[0] in a
    ensures a[0] == b[0]
  {
    var j :| 0 <= j < |b| && b[j] == a[0];
    var i :| 0 <= i < |a| && a[i] == b[0];
    assert a[0] <= a[i] && b[0] <= b[j];
  }

  /** Two strictly increasing sequences with the same members are the same sequence. */
  lemma {:induction false} IncreasingUnique(a: seq<int>, b: seq<int>)
    requires Increasing(a) && Increasing(b) && Within(a, b) && Within(b, a)
    ensures a == b
    decreases |a| + |b|
  {
    if a != [] && b != [] {
      HeadsAgree(a, b);
      HeadOnce(a);
      HeadOnce(b);
      WithinDrop(a[1..], b);
      WithinDrop(b[1..], a);
      IncreasingTail(a);
      IncreasingTail(b);
      IncreasingUnique(a[1..], b[1..]);
      assert a == [a[0]] + a[1..];
      assert b == [b[0]] + b[1..];
    }
  }
}
