/**
 * MinHeap: a binary min-heap in a fixed array.  The live elements are the
 * first `size` slots; the node at index i has children 2i+1 and 2i+2.
 * Elements are compared by `key`, the order the element type's `<` and `>`
 * define.  `filler` stands for the default-constructed slots of `new E[max]`.
 */
module MinHeap {
  import opened Outcome

  datatype Heap<E> = Heap(buf: seq<E>, max: nat, size: nat)

  predicate Valid<E>(h: Heap<E>) {
    1 <= h.max == |h.buf| && h.size <= h.max
  }

  /** The live slots. */
  function Items<E>(h: Heap<E>): (s: seq<E>)
    requires Valid(h)
    ensures |s| == h.size
  {
    h.buf[..h.size]
  }

  // ---------------------------------------------------------------------
  // Index arithmetic
  // ---------------------------------------------------------------------

  /** parent: (pos - 1) / 2 in C's truncating division, which is 0 for pos 0. */
  function Parent(pos: nat): (p: nat)
    ensures pos > 0 ==> p < pos
  {
    if pos == 0 then 0 else (pos - 1) / 2
  }

  function LeftChild(pos: nat): nat {
    2 * pos + 1
  }

  function RightChild(pos: nat): nat {
    2 * pos + 2
  }

  /** isLeaf: the left child would lie past the live slots. */
  predicate IsLeaf(size: nat, pos: nat) {
    LeftChild(pos) >= size
  }

  /** Both children of p have p as parent, and every non-root index is a child of its parent. */
  lemma ParentOfChildren(p: nat, c: nat)
    ensures Parent(LeftChild(p)) == p == Parent(RightChild(p))
    ensures c > 0 ==> c == LeftChild(Parent(c)) || c == RightChild(Parent(c))
  {
  }

  /** Every element is at least its parent. */
  ghost predicate Ordered<E>(key: E -> int, a: seq<E>) {
    forall i :: 0 < i < |a| ==> key(a[Parent(i)]) <= key(a[i])
  }

  /** In an ordered heap the root is a minimum. */
  lemma {:induction false} RootIsMin<E>(key: E -> int, a: seq<E>, i: nat)
    requires Ordered(key, a) && i < |a|
    ensures key(a[0]) <= key(a[i])
    decreases i
  {
    if i > 0 {
      RootIsMin(key, a, Parent(i));
    }
  }

  /** The root of an ordered, non-empty heap is at most every element. */
  lemma MinAtRoot<E>(key: E -> int, a: seq<E>)
    ensures Ordered(key, a) && |a| > 0 ==> forall i :: 0 <= i < |a| ==> key(a[0]) <= key(a[i])
  {
    if Ordered(key, a) && |a| > 0 {
      forall i | 0 <= i < |a|
        ensures key(a[0]) <= key(a[i])
      {
        RootIsMin(key, a, i);
      }
    }
  }

  /** swap: exchange two slots. */
  function Swap<E>(a: seq<E>, i: nat, j: nat): (b: seq<E>)
    requires i < |a| && j < |a|
    ensures |b| == |a| && b[i] == a[j] && b[j] == a[i]
    ensures forall k :: 0 <= k < |a| && k != i && k != j ==> b[k] == a[k]
    ensures multiset(b) == multiset(a)
  {
    a[i := a[j]][j := a[i]]
  }

  // ---------------------------------------------------------------------
  // siftUp
  // ---------------------------------------------------------------------

  /**
   * Ordered except that the element at pos may be below its parent; the
   * parent of pos is still at most pos's children.
   */
  ghost predicate BrokenUp<E>(key: E -> int, a: seq<E>, pos: nat) {
    pos < |a| &&
    (forall i :: 0 < i < |a| && i != pos ==> key(a[Parent(i)]) <= key(a[i])) &&
    (0 < pos ==> forall i :: 0 < i < |a| && Parent(i) == pos ==> key(a[Parent(pos)]) <= key(a[i]))
  }

  /** One swap with the parent moves the fault one level up. */
  lemma UpStep<E>(key: E -> int, a: seq<E>, pos: nat)
    requires 0 < pos < |a|
    ensures BrokenUp(key, a, pos) && key(a[pos]) < key(a[Parent(pos)]) ==>
      BrokenUp(key, Swap(a, pos, Parent(pos)), Parent(pos))
  {
    if BrokenUp(key, a, pos) && key(a[pos]) < key(a[Parent(pos)]) {
      var p := Parent(pos);
      var b := Swap(a, pos, p);
      forall i | 0 < i < |b| && i != p
        ensures key(b[Parent(i)]) <= key(b[i])
      {
        if i == pos {
        } else if Parent(i) == pos {
          assert b[i] == a[i];
        } else if Parent(i) == p {
          assert key(a[p]) <= key(a[i]);
        }
      }
      if 0 < p {
        forall i | 0 < i < |b| && Parent(i) == p
          ensures key(b[Parent(p)]) <= key(b[i])
        {
          assert key(a[Parent(p)]) <= key(a[p]);
          if i != pos {
            assert key(a[p]) <= key(a[i]);
          }
        }
      }
    }
  }

  /**
   * siftUp: while pos is not the root and its element is below its
   * parent's, swap them and continue from the parent.
   */
  function SiftUp<E>(key: E -> int, a: seq<E>, pos: nat): (b: seq<E>)
    requires pos < |a|
    ensures |b| == |a| && multiset(b) == multiset(a)
    ensures BrokenUp(key, a, pos) ==> Ordered(key, b)
    decreases pos
  {
    if pos != 0 && key(a[pos]) < key(a[Parent(pos)]) then
      UpStep(key, a, pos);
      SiftUp(key, Swap(a, pos, Parent(pos)), Parent(pos))
    else
      a
  }

  // ---------------------------------------------------------------------
  // siftDown
  // ---------------------------------------------------------------------

  /**
   * minChild: the left child when there is no right one or the left key is
   * strictly smaller; on a tie the right child wins.
   */
  function MinChild<E>(key: E -> int, a: seq<E>, pos: nat): (c: nat)
    requires LeftChild(pos) < |a|
    ensures c == LeftChild(pos) || c == RightChild(pos)
    ensures c < |a| && key(a[c]) <= key(a[LeftChild(pos)])
    ensures RightChild(pos) < |a| ==> key(a[c]) <= key(a[RightChild(pos)])
    ensures RightChild(pos) >= |a| ==> c == LeftChild(pos)
    ensures RightChild(pos) < |a| && key(a[LeftChild(pos)]) == key(a[RightChild(pos)]) ==> c == RightChild(pos)
  {
    if RightChild(pos) >= |a| || key(a[LeftChild(pos)]) < key(a[RightChild(pos)]) then LeftChild(pos)
    else RightChild(pos)
  }

  /**
   * Ordered except that the element at pos may be above its children; the
   * parent of pos is still at most pos's children.
   */
  ghost predicate BrokenDown<E>(key: E -> int, a: seq<E>, pos: nat) {
    pos <= |a| &&
    (forall i :: 0 < i < |a| && Parent(i) != pos ==> key(a[Parent(i)]) <= key(a[i])) &&
    (0 < pos ==> forall i :: 0 < i < |a| && Parent(i) == pos ==> key(a[Parent(pos)]) <= key(a[i]))
  }

  /** One swap with the smaller child moves the fault one level down. */
  lemma DownStep<E>(key: E -> int, a: seq<E>, pos: nat)
    requires LeftChild(pos) < |a|
    ensures var m := MinChild(key, a, pos);
      BrokenDown(key, a, pos) && key(a[pos]) > key(a[m]) ==> BrokenDown(key, Swap(a, pos, m), m)
  {
    var m := MinChild(key, a, pos);
    if BrokenDown(key, a, pos) && key(a[pos]) > key(a[m]) {
      var b := Swap(a, pos, m);
      ParentOfChildren(pos, 0);
      forall i | 0 < i < |b| && Parent(i) != m
        ensures key(b[Parent(i)]) <= key(b[i])
      {
        ParentOfChildren(0, i);
        if i == m {
        } else if Parent(i) == pos {
          assert b[i] == a[i];
        } else if i == pos {
          assert key(a[Parent(pos)]) <= key(a[m]);
        }
      }
      forall i | 0 < i < |b| && Parent(i) == m
        ensures key(b[Parent(m)]) <= key(b[i])
      {
        assert key(a[m]) <= key(a[i]);
      }
    }
  }

  /** Where siftDown stops, the heap is ordered. */
  lemma DownDone<E>(key: E -> int, a: seq<E>, pos: nat)
    requires pos <= |a|
    ensures BrokenDown(key, a, pos) && (IsLeaf(|a|, pos) || key(a[pos]) <= key(a[MinChild(key, a, pos)])) ==>
      Ordered(key, a)
  {
    if BrokenDown(key, a, pos) && (IsLeaf(|a|, pos) || key(a[pos]) <= key(a[MinChild(key, a, pos)])) {
      forall i | 0 < i < |a| && Parent(i) == pos
        ensures key(a[pos]) <= key(a[i])
      {
        ParentOfChildren(0, i);
      }
    }
  }

  /**
   * siftDown: while pos has a child and its element is above the smaller
   * child's, swap them and continue from that child.
   */
  function SiftDown<E>(key: E -> int, a: seq<E>, pos: nat): (b: seq<E>)
    requires pos <= |a|
    ensures |b| == |a| && multiset(b) == multiset(a)
    ensures BrokenDown(key, a, pos) ==> Ordered(key, b)
    decreases |a| - pos
  {
    if !IsLeaf(|a|, pos) && key(a[pos]) > key(a[MinChild(key, a, pos)]) then
      var m := MinChild(key, a, pos);
      DownStep(key, a, pos);
      SiftDown(key, Swap(a, pos, m), m)
    else
      DownDone(key, a, pos);
      a
  }

  // ---------------------------------------------------------------------
  // Public operations
  // ---------------------------------------------------------------------

  /** The constructor: a capacity below 1 fails with "Invalid max size.". */
  function New<E>(max: int, filler: E): (r: Result<Heap<E>>)
    ensures r.Err? <==> max < 1
    ensures r.Err? ==> r.msg == "Invalid max size."
    ensures r.Ok? ==> Valid(r.value) && r.value.max == max && Items(r.value) == []
  {
    if max < 1 then Err("Invalid max size.")
    else Ok(Heap(seq(max, _ => filler), max, 0))
  }

  /** The capacity the constructor takes when the caller gives none. */
  const DefaultMax := 1024

  /** The constructor with its default argument: an empty heap of capacity 1024, which cannot fail. */
  function NewDefault<E>(filler: E): (h: Heap<E>)
    ensures Valid(h) && h.max == DefaultMax && Items(h) == []
    ensures New(DefaultMax, filler) == Ok(h)
  {
    New(DefaultMax, filler).value
  }

  /** A new last element leaves the heap broken at most at that slot. */
  lemma AppendBreaksUp<E>(key: E -> int, s: seq<E>, x: E)
    ensures Ordered(key, s) ==> BrokenUp(key, s + [x], |s|)
  {
    if Ordered(key, s) {
      var a := s + [x];
      forall i | 0 < i < |a| && i != |s|
        ensures key(a[Parent(i)]) <= key(a[i])
      {
        assert a[i] == s[i] && a[Parent(i)] == s[Parent(i)];
      }
    }
  }

  /** insert: into slot `size`, then siftUp; a full heap fails with "Heap is full.". */
  function Insert<E>(key: E -> int, h: Heap<E>, x: E): (r: Result<Heap<E>>)
    requires Valid(h)
    ensures r.Err? <==> GetSize(h) == h.max
    ensures r.Err? ==> r.msg == "Heap is full."
    ensures r.Ok? ==> Valid(r.value) && r.value.max == h.max && GetSize(r.value) == GetSize(h) + 1
    ensures r.Ok? ==> multiset(Items(r.value)) == multiset(Items(h)) + multiset{x}
    ensures r.Ok? && Ordered(key, Items(h)) ==> Ordered(key, Items(r.value))
  {
    if h.size == h.max then Err("Heap is full.")
    else
      var a := Items(h) + [x];
      AppendBreaksUp(key, Items(h), x);
      var b := SiftUp(key, a, h.size);
      var h' := Heap(b + h.buf[h.size + 1..], h.max, h.size + 1);
      assert Items(h') == b;
      Ok(h')
  }

  /** first: the root; on an ordered heap it is a minimum.  An empty heap fails with "Heap is empty.". */
  function First<E>(key: E -> int, h: Heap<E>): (r: Result<E>)
    requires Valid(h)
    ensures r.Err? <==> GetSize(h) == 0
    ensures r.Err? ==> r.msg == "Heap is empty."
    ensures r.Ok? ==> r.value == Items(h)[0]
    ensures r.Ok? && Ordered(key, Items(h)) ==> forall i :: 0 <= i < h.size ==> key(r.value) <= key(Items(h)[i])
  {
    if h.size == 0 then Err("Heap is empty.")
    else
      MinAtRoot(key, Items(h));
      Ok(h.buf[0])
  }

  /** The slot pos refilled from the last slot, when that element is below pos's parent: broken upward. */
  lemma RefillBreaksUp<E>(key: E -> int, s: seq<E>, pos: nat)
    requires pos < |s|
    ensures var rest := Refill(s, pos).0;
      Ordered(key, s) && 0 < pos < |s| - 1 && key(rest[pos]) < key(rest[Parent(pos)]) ==> BrokenUp(key, rest, pos)
  {
    var n := |s| - 1;
    var rest := Refill(s, pos).0;
    if Ordered(key, s) && 0 < pos < n && key(rest[pos]) < key(rest[Parent(pos)]) {
      forall i | 0 < i < n && i != pos
        ensures key(rest[Parent(i)]) <= key(rest[i])
      {
        if Parent(i) == pos {
          assert key(s[Parent(pos)]) <= key(s[pos]) <= key(s[i]);
        }
      }
      forall i | 0 < i < n && Parent(i) == pos
        ensures key(rest[Parent(pos)]) <= key(rest[i])
      {
        assert key(s[Parent(pos)]) <= key(s[pos]) <= key(s[i]);
      }
    }
  }

  /** Otherwise the refilled slot is at least its parent: broken downward at most. */
  lemma RefillBreaksDown<E>(key: E -> int, s: seq<E>, pos: nat)
    requires pos < |s|
    ensures var rest := Refill(s, pos).0;
      Ordered(key, s) && !(0 < pos < |s| - 1 && key(rest[pos]) < key(rest[Parent(pos)])) ==>
      BrokenDown(key, rest, pos)
  {
    var n := |s| - 1;
    var rest := Refill(s, pos).0;
    if Ordered(key, s) && !(0 < pos < n && key(rest[pos]) < key(rest[Parent(pos)])) {
      forall i | 0 < i < n && Parent(i) != pos
        ensures key(rest[Parent(i)]) <= key(rest[i])
      {
      }
      if 0 < pos {
        forall i | 0 < i < n && Parent(i) == pos
          ensures key(rest[Parent(pos)]) <= key(rest[i])
        {
          assert key(s[Parent(pos)]) <= key(s[pos]) <= key(s[i]);
        }
      }
    }
  }

  /**
   * The first steps of remove: the last live element is moved into slot
   * pos and the heap shrinks by one; the element taken out comes back with
   * the shortened contents.
   */
  function Refill<E>(s: seq<E>, pos: nat): (r: (seq<E>, E))
    requires pos < |s|
    ensures |r.0| == |s| - 1 && r.1 == s[pos]
    ensures multiset(r.0) + multiset{r.1} == multiset(s)
    ensures pos < |s| - 1 ==> r.0[pos] == s[|s| - 1]
    ensures forall k :: 0 <= k < |s| - 1 && k != pos ==> r.0[k] == s[k]
  {
    var n := |s| - 1;
    var a := Swap(s, pos, n);
    assert a == a[..n] + [a[n]];
    (a[..n], a[n])
  }

  /** The heap whose live slots are b, with x left in the slot just past them. */
  function Rebuild<E>(h: Heap<E>, b: seq<E>, x: E): (h': Heap<E>)
    requires Valid(h) && |b| + 1 == h.size
    ensures Valid(h') && h'.max == h.max && Items(h') == b && h'.buf[h'.size] == x
  {
    var h' := Heap(b + [x] + h.buf[h.size..], h.max, |b|);
    assert Items(h') == b;
    h'
  }

  /**
   * remove as the library writes it: move the last element into slot pos,
   * shrink, and siftDown from pos.  The element taken out is read from the
   * slot just past the new end.  A position outside 0..size-1 fails with
   * "Index out of bounds.".
   */
  function RemoveAsWritten<E>(key: E -> int, h: Heap<E>, pos: int): (r: Result<(Heap<E>, E)>)
    requires Valid(h)
    ensures r.Err? <==> pos < 0 || pos >= GetSize(h)
    ensures r.Err? ==> r.msg == "Index out of bounds."
    ensures r.Ok? ==> var (h', x) := r.value;
      Valid(h') && h'.max == h.max && GetSize(h') == GetSize(h) - 1 && x == Items(h)[pos] &&
      multiset(Items(h')) + multiset{x} == multiset(Items(h))
  {
    if pos < 0 || pos >= h.size then Err("Index out of bounds.")
    else
      var (rest, x) := Refill(Items(h), pos);
      var h' := Rebuild(h, SiftDown(key, rest, pos), x);
      Ok((h', h'.buf[h'.size]))
  }

  function Id(x: int): int {
    x
  }

  /** The heap [1, 5, 2, 6, 7, 3, 4] of the counterexample, full. */
  function Example(): Heap<int> {
    Heap([1, 5, 2, 6, 7, 3, 4], 7, 7)
  }

  lemma ExampleOrdered()
    ensures Valid(Example()) && Ordered(Id, Items(Example()))
  {
    var s := Items(Example());
    assert s == [1, 5, 2, 6, 7, 3, 4];
    forall i | 0 < i < 7
      ensures Id(s[Parent(i)]) <= Id(s[i])
    {
      assert i == 1 || i == 2 || i == 3 || i == 4 || i == 5 || i == 6;
    }
  }

  /** Slot 3 refilled from the last slot: 4 now sits under 5. */
  lemma ExampleRefill()
    ensures Refill(Items(Example()), 3).0 == [1, 5, 2, 4, 7, 3]
  {
    assert Items(Example()) == [1, 5, 2, 6, 7, 3, 4];
    var rest := Refill(Items(Example()), 3).0;
    assert rest[3] == 4;
  }

  /** Slot 3 of six has no child, so siftDown leaves it. */
  lemma ExampleSiftDown()
    ensures SiftDown(Id, [1, 5, 2, 4, 7, 3], 3) == [1, 5, 2, 4, 7, 3]
  {
    assert IsLeaf(6, 3);
  }

  /**
   * Removing slot 3 of the ordered heap [1, 5, 2, 6, 7, 3, 4] moves 4 under
   * its parent 5, and siftDown, which only looks downward, leaves it there.
   */
  lemma RemoveAsWrittenBreaksOrder()
    ensures Valid(Example()) && Ordered(Id, Items(Example()))
    ensures RemoveAsWritten(Id, Example(), 3).Ok? &&
      Items(RemoveAsWritten(Id, Example(), 3).value.0) == [1, 5, 2, 4, 7, 3]
    ensures !Ordered(Id, [1, 5, 2, 4, 7, 3])
  {
    ExampleOrdered();
    ExampleRefill();
    ExampleSiftDown();
    var t: seq<int> := [1, 5, 2, 4, 7, 3];
    assert Parent(3) == 1 && Id(t[1]) > Id(t[3]);
  }

  /**
   * remove as intended: the element moved into slot pos is sifted up when it
   * is below its parent and down otherwise, so an ordered heap stays ordered.
   */
  function Remove<E>(key: E -> int, h: Heap<E>, pos: int): (r: Result<(Heap<E>, E)>)
    requires Valid(h)
    ensures r.Err? <==> pos < 0 || pos >= GetSize(h)
    ensures r.Err? ==> r.msg == "Index out of bounds."
    ensures r.Ok? ==> var (h', x) := r.value;
      Valid(h') && h'.max == h.max && GetSize(h') == GetSize(h) - 1 && x == Items(h)[pos] &&
      multiset(Items(h')) + multiset{x} == multiset(Items(h))
    ensures r.Ok? && Ordered(key, Items(h)) ==> Ordered(key, Items(r.value.0))
  {
    if pos < 0 || pos >= h.size then Err("Index out of bounds.")
    else
      var (rest, x) := Refill(Items(h), pos);
      RefillBreaksUp(key, Items(h), pos);
      RefillBreaksDown(key, Items(h), pos);
      var b := if 0 < pos < |rest| && key(rest[pos]) < key(rest[Parent(pos)]) then SiftUp(key, rest, pos)
        else SiftDown(key, rest, pos);
      var h' := Rebuild(h, b, x);
      Ok((h', h'.buf[h'.size]))
  }

  /** At the root the two agree: there is no parent to sift up to. */
  lemma RemoveAgreesAtRoot<E>(key: E -> int, h: Heap<E>)
    requires Valid(h)
    ensures Remove(key, h, 0) == RemoveAsWritten(key, h, 0)
  {
  }

  /** removeFirst: remove(0); on an ordered heap the element returned is a minimum. */
  function RemoveFirst<E>(key: E -> int, h: Heap<E>): (r: Result<(Heap<E>, E)>)
    requires Valid(h)
    ensures r.Err? <==> GetSize(h) == 0
    ensures r.Err? ==> r.msg == "Index out of bounds."
    ensures r.Ok? ==> Valid(r.value.0) && r.value.1 == Items(h)[0] && GetSize(r.value.0) == GetSize(h) - 1
    ensures r.Ok? ==> multiset(Items(r.value.0)) + multiset{r.value.1} == multiset(Items(h))
    ensures r.Ok? && Ordered(key, Items(h)) ==>
      Ordered(key, Items(r.value.0)) && First(key, h) == Ok(r.value.1)
  {
    Remove(key, h, 0)
  }

  /** get: the element in slot i, for a live slot. */
  function Get<E>(h: Heap<E>, i: int): (r: Result<E>)
    requires Valid(h)
    ensures r.Err? <==> i < 0 || i >= GetSize(h)
    ensures r.Err? ==> r.msg == "Index out of bounds."
    ensures r.Ok? ==> r.value == Items(h)[i]
  {
    if i < 0 || i >= h.size then Err("Index out of bounds.") else Ok(h.buf[i])
  }

  /** clear: only the size is reset. */
  function Clear<E>(h: Heap<E>): (h': Heap<E>)
    requires Valid(h)
    ensures Valid(h') && h'.max == h.max && Items(h') == [] && IsEmpty(h')
  {
    h.(size := 0)
  }

  predicate IsEmpty<E>(h: Heap<E>) {
    h.size == 0
  }

  function GetSize<E>(h: Heap<E>): (n: nat)
    requires Valid(h)
    ensures n == |Items(h)| <= h.max
    ensures n == 0 <==> IsEmpty(h)
  {
    h.size
  }
}
