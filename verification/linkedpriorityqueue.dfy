/**
 * LinkedPriorityQueue: one LinkedQueue per priority level 0..priorities-1
 * and a running count of the elements.  Level 0 is served first; within a
 * level the order is first in, first out.
 */
module LinkedPriorityQueue {
  import opened Outcome
  import LQ = LinkedQueue

  datatype PQ<E> = PQ(levels: seq<LQ.Queue<E>>, size: nat)

  const EmptyMsg := "Queue is empty"

  /** The number of elements over all levels. */
  function Total<E>(levels: seq<LQ.Queue<E>>): nat {
    if levels == [] then 0 else LQ.GetSize(levels[0]) + Total(levels[1..])
  }

  /** At least one level, each a well-formed queue, and `size` counts their elements. */
  predicate Valid<E>(q: PQ<E>) {
    |q.levels| >= 1 &&
    (forall i :: 0 <= i < |q.levels| ==> LQ.Valid(q.levels[i])) &&
    q.size == Total(q.levels)
  }

  /** The levels hold nothing exactly when every level is empty. */
  lemma {:induction false} TotalZero<E>(levels: seq<LQ.Queue<E>>)
    ensures Total(levels) == 0 <==> forall i :: 0 <= i < |levels| ==> LQ.IsEmpty(levels[i])
  {
    if levels != [] {
      TotalZero(levels[1..]);
      assert forall i :: 1 <= i < |levels| ==> levels[i] == levels[1..][i - 1];
    }
  }

  /** Replacing one level changes the count by the difference of that level's sizes. */
  lemma {:induction false} TotalUpdate<E>(levels: seq<LQ.Queue<E>>, p: nat, x: LQ.Queue<E>)
    requires p < |levels|
    ensures Total(levels[p := x]) == Total(levels) - LQ.GetSize(levels[p]) + LQ.GetSize(x)
  {
    if p > 0 {
      TotalUpdate(levels[1..], p - 1, x);
      assert levels[p := x][1..] == levels[1..][p - 1 := x];
    } else {
      assert levels[p := x][1..] == levels[1..];
    }
  }

  /** The first non-empty level from i on, or |levels| when there is none. */
  function LowestFrom<E>(levels: seq<LQ.Queue<E>>, i: nat): (j: nat)
    requires i <= |levels|
    ensures i <= j <= |levels|
    ensures forall k :: i <= k < j ==> LQ.IsEmpty(levels[k])
    ensures j < |levels| ==> !LQ.IsEmpty(levels[j])
    decreases |levels| - i
  {
    if i == |levels| || !LQ.IsEmpty(levels[i]) then i else LowestFrom(levels, i + 1)
  }

  /** The level min and removeMin serve: the first non-empty one. */
  function Lowest<E>(levels: seq<LQ.Queue<E>>): (j: nat)
    ensures j <= |levels|
    ensures forall k :: 0 <= k < j ==> LQ.IsEmpty(levels[k])
    ensures j < |levels| ==> !LQ.IsEmpty(levels[j])
  {
    LowestFrom(levels, 0)
  }

  /** A non-empty queue has a level to serve. */
  lemma ServedLevelExists<E>(q: PQ<E>)
    requires Valid(q)
    ensures q.size > 0 ==> Lowest(q.levels) < |q.levels|
  {
    TotalZero(q.levels);
  }

  /** The constructor: `priorities` empty levels; a count below 1 fails with "Invalid number of priorities". */
  function New<E>(priorities: int): Result<PQ<E>> {
    if priorities <= 0 then Err("Invalid number of priorities")
    else Ok(PQ(seq(priorities, _ => LQ.New<E>()), 0))
  }

  /** The constructor fails exactly for a count below 1; otherwise every level is empty. */
  lemma NewEmpty<E>(r: Result<PQ<E>>, priorities: int)
    requires r == New(priorities)
    ensures r.Err? <==> priorities <= 0
    ensures r.Err? ==> r.msg == "Invalid number of priorities"
    ensures r.Ok? ==> Valid(r.value) && |r.value.levels| == priorities && IsEmpty(r.value)
    ensures r.Ok? ==> forall i :: 0 <= i < priorities ==> LQ.IsEmpty(r.value.levels[i])
  {
    if r.Ok? {
      TotalZero(r.value.levels);
    }
  }

  /** insert: enqueue on the element's level; a level outside 0..priorities-1 fails with "Invalid priority". */
  function Insert<E>(q: PQ<E>, e: E, priority: int): (r: Result<PQ<E>>)
    requires Valid(q)
    ensures r.Err? <==> priority < 0 || priority >= |q.levels|
    ensures r.Err? ==> r.msg == "Invalid priority"
    ensures r.Ok? ==> Valid(r.value) && GetSize(r.value) == GetSize(q) + 1
    ensures r.Ok? ==> r.value.levels == q.levels[priority := LQ.Enqueue(q.levels[priority], e)]
  {
    if priority < 0 || priority >= |q.levels| then Err("Invalid priority")
    else
      var level := LQ.Enqueue(q.levels[priority], e);
      TotalUpdate(q.levels, priority, level);
      Ok(PQ(q.levels[priority := level], q.size + 1))
  }

  /**
   * min: the front of the first non-empty level.  An empty queue fails with
   * "Queue is empty"; the source's "Queue not found" after the scan cannot
   * happen while `size` counts the elements, and the scan below needs no
   * such exit.
   */
  method Min<E>(q: PQ<E>) returns (r: Result<E>)
    requires Valid(q)
    ensures r.Err? <==> IsEmpty(q)
    ensures r.Err? ==> r.msg == EmptyMsg
    ensures r.Ok? ==> Lowest(q.levels) < |q.levels| && r == LQ.FrontValue(q.levels[Lowest(q.levels)])
  {
    if q.size == 0 {
      return Err(EmptyMsg);
    }
    ServedLevelExists(q);
    var i := 0;
    while LQ.IsEmpty(q.levels[i])
      invariant i <= Lowest(q.levels) < |q.levels|
      decreases |q.levels| - i
    {
      i := i + 1;
    }
    r := LQ.FrontValue(q.levels[i]);
  }

  /** removeMin: dequeue from the first non-empty level; an empty queue fails with "Queue is empty". */
  method RemoveMin<E>(q: PQ<E>) returns (r: Result<(PQ<E>, E)>)
    requires Valid(q)
    ensures r.Err? <==> IsEmpty(q)
    ensures r.Err? ==> r.msg == EmptyMsg
    ensures r.Ok? ==> var (q', x) := r.value; var i := Lowest(q.levels);
      i < |q.levels| == |q'.levels| && Valid(q') && GetSize(q') == GetSize(q) - 1 &&
      LQ.Dequeue(q.levels[i]) == Ok((q'.levels[i], x)) && q'.levels == q.levels[i := q'.levels[i]]
  {
    if q.size == 0 {
      return Err(EmptyMsg);
    }
    ServedLevelExists(q);
    var i := 0;
    while LQ.IsEmpty(q.levels[i])
      invariant i <= Lowest(q.levels) < |q.levels|
      decreases |q.levels| - i
    {
      i := i + 1;
    }
    var (level, x) := LQ.Dequeue(q.levels[i]).value;
    TotalUpdate(q.levels, i, level);
    r := Ok((PQ(q.levels[i := level], q.size - 1), x));
  }

  /** clear: clear every level, then zero the count. */
  method Clear<E>(q: PQ<E>) returns (q': PQ<E>)
    requires Valid(q)
    ensures Valid(q') && |q'.levels| == |q.levels| && IsEmpty(q')
    ensures forall i :: 0 <= i < |q'.levels| ==> LQ.IsEmpty(q'.levels[i])
  {
    var levels := q.levels;
    var i := 0;
    while i < |levels|
      invariant i <= |levels| == |q.levels|
      invariant forall k :: 0 <= k < |levels| ==> LQ.Valid(levels[k])
      invariant forall k :: 0 <= k < i ==> LQ.IsEmpty(levels[k])
    {
      var level := LQ.Clear(levels[i]);
      levels := levels[i := level];
      i := i + 1;
    }
    TotalZero(levels);
    q' := PQ(levels, 0);
  }

  function GetSize<E>(q: PQ<E>): (n: nat)
    requires Valid(q)
    ensures n == 0 <==> forall i :: 0 <= i < |q.levels| ==> LQ.IsEmpty(q.levels[i])
  {
    TotalZero(q.levels);
    q.size
  }

  predicate IsEmpty<E>(q: PQ<E>) {
    q.size == 0
  }

  /**
   * After an insert at level p the level served is p if every lower level
   * was empty, and the one served before otherwise.
   */
  lemma LowestAfterInsert<E>(q: PQ<E>, e: E, p: nat)
    requires Valid(q) && p < |q.levels|
    ensures Insert(q, e, p).Ok? &&
      var l := Lowest(q.levels);
      Lowest(Insert(q, e, p).value.levels) == if p < l then p else l
  {
    LowestFromAfterUpdate(q.levels, p, LQ.Enqueue(q.levels[p], e), 0);
  }

  /** LowestFrom after one level becomes non-empty. */
  lemma {:induction false} LowestFromAfterUpdate<E>(levels: seq<LQ.Queue<E>>, p: nat, x: LQ.Queue<E>, i: nat)
    requires p < |levels| && i <= |levels| && !LQ.IsEmpty(x)
    ensures var l := LowestFrom(levels, i);
      LowestFrom(levels[p := x], i) == if i <= p < l then p else l
    decreases |levels| - i
  {
    if i < |levels| && i != p && LQ.IsEmpty(levels[i]) {
      LowestFromAfterUpdate(levels, p, x, i + 1);
    }
  }
}
