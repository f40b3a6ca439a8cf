/**
 * DCircleList: the doubly linked ring.  Its nodes also link backward, which
 * changes only `previous`: one step along the back link instead of a walk
 * round the ring.  Every other operation has the same effect on the ring's
 * elements as in CircleList, whose members model them.
 */
module DCircleList {
  import opened Outcome
  import CL = CircleList

  type DRing<E> = CL.Ring<E>

  /** previous: `current` moves to `current->previous`, so the back becomes the front. */
  function Previous<E>(r: DRing<E>): (res: Result<DRing<E>>)
    ensures res.Err? <==> r.items == []
    ensures res.Err? ==> res.msg == "List is empty."
    ensures res.Ok? ==> CL.GetSize(res.value) == CL.GetSize(r) && CL.GetFront(res.value) == CL.GetBack(r)
    ensures res.Ok? ==> CL.Next(res.value) == Ok(r)
  {
    if r.items == [] then Err("List is empty.")
    else
      CL.NextBackInverse(r);
      CL.Back(r)
  }

  /** previous undoes next, and next undoes previous. */
  lemma StepsUndo<E>(r: DRing<E>)
    requires r.items != []
    ensures Previous(CL.Next(r).value) == Ok(r)
  {
    CL.NextBackInverse(r);
  }

  /** The test program's loop: insert 0, 1, ..., n - 1 into a new ring. */
  function InsertUpTo(n: nat): (r: DRing<int>)
    ensures CL.GetSize(r) == n
  {
    if n == 0 then CL.New() else CL.Insert(InsertUpTo(n - 1), n - 1)
  }

  /** Each insert lands at the front, so the ring reads n - 1 down to 0. */
  lemma {:induction false} InsertUpToDescends(n: nat)
    ensures forall i :: 0 <= i < n ==> InsertUpTo(n).items[i] == n - 1 - i
  {
    if n > 0 {
      InsertUpToDescends(n - 1);
      var prev := InsertUpTo(n - 1).items;
      var r := InsertUpTo(n).items;
      assert r == [n - 1] + prev;
      forall i | 1 <= i < n
        ensures r[i] == n - 1 - i
      {
        assert r[i] == prev[i - 1];
      }
    }
  }

  /** The test program's loop leaves the ring reading 9 down to 0. */
  lemma InsertUpToTen()
    ensures InsertUpTo(10).items == [9, 8, 7, 6, 5, 4, 3, 2, 1, 0]
  {
    assert InsertUpTo(5).items == [4, 3, 2, 1, 0];
  }

  /**
   * The test program: after inserting 0..9, remove returns 9 and leaves
   * 8..0; inserting 100 then puts it at the front.
   */
  lemma TestProgram()
    ensures CL.Remove(InsertUpTo(10)).Ok? &&
      var (r, x) := CL.Remove(InsertUpTo(10)).value;
      x == 9 && r.items == [8, 7, 6, 5, 4, 3, 2, 1, 0] &&
      CL.Insert(r, 100).items == [100, 8, 7, 6, 5, 4, 3, 2, 1, 0]
  {
    InsertUpToTen();
    RemoveThenInsert(InsertUpTo(10));
  }

  /** The test program's remove and insert on a ring reading 9 down to 0. */
  lemma RemoveThenInsert(r: DRing<int>)
    requires r.items == [9, 8, 7, 6, 5, 4, 3, 2, 1, 0]
    ensures CL.Remove(r).Ok? &&
      var (r', x) := CL.Remove(r).value;
      x == 9 && r'.items == [8, 7, 6, 5, 4, 3, 2, 1, 0] &&
      CL.Insert(r', 100).items == [100, 8, 7, 6, 5, 4, 3, 2, 1, 0]
  {
    assert r.items[1..] == [8, 7, 6, 5, 4, 3, 2, 1, 0];
  }
}
