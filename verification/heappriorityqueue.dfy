/**
 * HeapPriorityQueue: a MinHeap of (priority, element) pairs ordered by the
 * priority, so the smallest priority comes out first.  `filler` stands for
 * the default-constructed pairs of the heap's array.
 */
module HeapPriorityQueue {
  import opened Outcome
  import opened Pairs
  import H = MinHeap

  type PQ<E> = H.Heap<KVPair<E>>

  /** The heap is well formed and ordered by priority. */
  ghost predicate Valid<E>(q: PQ<E>) {
    H.Valid(q) && H.Ordered(PairKey, H.Items(q))
  }

  /** The constructor: an empty heap of the given capacity. */
  function New<E>(max: int, filler: KVPair<E>): (r: Result<PQ<E>>)
    ensures r.Err? <==> max < 1
    ensures r.Err? ==> r.msg == "Invalid max size."
    ensures r.Ok? ==> Valid(r.value) && r.value.max == max && GetSize(r.value) == 0
  {
    H.New(max, filler)
  }

  /** insert: the pair (priority, element) into the heap; a full heap fails with "Heap is full.". */
  function Insert<E>(q: PQ<E>, e: E, priority: int): (r: Result<PQ<E>>)
    requires Valid(q)
    ensures r.Err? <==> GetSize(q) == q.max
    ensures r.Err? ==> r.msg == "Heap is full."
    ensures r.Ok? ==> Valid(r.value) && r.value.max == q.max && GetSize(r.value) == GetSize(q) + 1
    ensures r.Ok? ==> multiset(H.Items(r.value)) == multiset(H.Items(q)) + multiset{KVPair(priority, e)}
  {
    H.Insert(PairKey, q, KVPair(priority, e))
  }

  /** min: the element of the heap's first pair, whose priority is the smallest stored. */
  function Min<E>(q: PQ<E>): (r: Result<E>)
    requires Valid(q)
    ensures r.Err? <==> GetSize(q) == 0
    ensures r.Err? ==> r.msg == "Heap is empty."
    ensures r.Ok? ==> var p := H.Items(q)[0];
      r.value == p.value && forall i :: 0 <= i < GetSize(q) ==> p.key <= H.Items(q)[i].key
  {
    var p :- H.First(PairKey, q);
    Ok(p.value)
  }

  /**
   * removeMin: removeFirst on the heap, returning that pair's element; an
   * empty heap fails with the heap's "Index out of bounds.".
   */
  function RemoveMin<E>(q: PQ<E>): (r: Result<(PQ<E>, E)>)
    requires Valid(q)
    ensures r.Err? <==> GetSize(q) == 0
    ensures r.Err? ==> r.msg == "Index out of bounds."
    ensures r.Ok? ==> var (q', e) := r.value;
      Valid(q') && GetSize(q') == GetSize(q) - 1 && Min(q) == Ok(e) &&
      multiset(H.Items(q')) + multiset{H.Items(q)[0]} == multiset(H.Items(q))
  {
    var (q', p) :- H.RemoveFirst(PairKey, q);
    Ok((q', p.value))
  }

  function Clear<E>(q: PQ<E>): (q': PQ<E>)
    requires Valid(q)
    ensures Valid(q') && q'.max == q.max && IsEmpty(q')
  {
    H.Clear(q)
  }

  function GetSize<E>(q: PQ<E>): (n: nat)
    requires H.Valid(q)
  {
    H.GetSize(q)
  }

  predicate IsEmpty<E>(q: PQ<E>) {
    H.IsEmpty(q)
  }

  /**
   * An element inserted with a priority below every stored one is the next
   * to come out.
   */
  lemma UrgentComesFirst<E>(q: PQ<E>, e: E, priority: int)
    requires Valid(q) && GetSize(q) < q.max
    requires forall i :: 0 <= i < GetSize(q) ==> priority < H.Items(q)[i].key
    ensures Insert(q, e, priority).Ok? &&
      Min(Insert(q, e, priority).value) == Ok(e)
  {
    var q' := Insert(q, e, priority).value;
    var root := H.Items(q')[0];
    assert root in multiset(H.Items(q'));
    assert KVPair(priority, e) in multiset(H.Items(q')) by {
      assert KVPair(priority, e) in multiset{KVPair(priority, e)};
    }
    var k :| 0 <= k < |H.Items(q')| && H.Items(q')[k] == KVPair(priority, e);
    assert Min(q').Ok?;
    assert root.key <= H.Items(q')[k].key;
  }
}
