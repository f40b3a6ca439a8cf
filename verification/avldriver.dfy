/**
 * The AVL driver program: a fixed run of inserts and removes on an
 * AVLTree<int>.  The run is related to the same operations on the plain set
 * of stored keys, which settles the driver's outcome without computing any
 * tree: no operation throws, and the tree ends with the 14 keys in order.
 */
module AVLDriver {
  import opened Outcome
  import opened BinTree
  import AVLTree
  import opened Sequences

  /** One call the driver makes on the tree. */
  datatype Op = Insert(k: int) | Remove(k: int)

  /** An `int` is its own key. */
  function Id(x: int): int {
    x
  }

  /** One call on the tree; the removed element is dropped, as the driver drops it. */
  function Step(s: AVLTree.AVL<int>, op: Op): (r: Result<AVLTree.AVL<int>>)
    ensures Bst(Id, s.root) ==> (r.Ok? <==> (op.Insert? <==> op.k !in Keys(Id, s.root)))
    ensures Bst(Id, s.root) && r.Ok? ==> Bst(Id, r.value.root)
    ensures r.Err? ==> r.msg == (if op.Insert? then "Duplicated element." else "Element not found.")
    ensures Bst(Id, s.root) && r.Ok? ==>
      Keys(Id, r.value.root) == if op.Insert? then Keys(Id, s.root) + {op.k} else Keys(Id, s.root) - {op.k}
  {
    match op
    case Insert(k) => AVLTree.Insert(Id, s, k)
    case Remove(k) =>
      var p :- AVLTree.Remove(Id, s, k);
      Ok(p.0)
  }

  /** The calls in order; the first exception ends the run. */
  function Run(s: AVLTree.AVL<int>, ops: seq<Op>): Result<AVLTree.AVL<int>>
    decreases |ops|
  {
    if ops == [] then Ok(s)
    else
      var s' :- Step(s, ops[0]);
      Run(s', ops[1..])
  }

  /** The same calls on a set of keys: a set's insert refuses a member, its remove a non-member. */
  function Simulate(keys: set<int>, ops: seq<Op>): Result<set<int>>
    decreases |ops|
  {
    if ops == [] then Ok(keys)
    else
      match ops[0]
      case Insert(k) =>
        if k in keys then Err("Duplicated element.") else Simulate(keys + {k}, ops[1..])
      case Remove(k) =>
        if k !in keys then Err("Element not found.") else Simulate(keys - {k}, ops[1..])
  }

  /**
   * A run on a search tree fails exactly when the run on its key set does,
   * with the same message, and otherwise ends on a search tree holding the
   * keys the set run ends with.
   */
  lemma {:induction false} RunRefines(s: AVLTree.AVL<int>, ops: seq<Op>)
    requires Bst(Id, s.root)
    ensures Run(s, ops).Ok? <==> Simulate(Keys(Id, s.root), ops).Ok?
    ensures Run(s, ops).Err? ==> Run(s, ops).msg == Simulate(Keys(Id, s.root), ops).msg
    ensures Run(s, ops).Ok? ==>
      Bst(Id, Run(s, ops).value.root) && Keys(Id, Run(s, ops).value.root) == Simulate(Keys(Id, s.root), ops).value
    decreases |ops|
  {
    if ops != [] {
      var r := Step(s, ops[0]);
      if r.Ok? {
        RunRefines(r.value, ops[1..]);
      }
    }
  }

  /** Ascending by `Id` is plain increase. */
  lemma AscendingById(s: seq<int>)
    requires Ascending(Id, s)
    ensures Increasing(s)
  {
    forall i, j | 0 <= i < j < |s|
      ensures s[i] < s[j]
    {
      assert Id(s[i]) < Id(s[j]);
    }
  }

  /** The driver's calls, in the driver's order, in eight short stretches. */
  const Calls1: seq<Op> := [Insert(73), Insert(62), Insert(14), Insert(65)]
  const Calls2: seq<Op> := [Insert(12), Insert(72), Insert(91)]
  const Calls3: seq<Op> := [Insert(18), Insert(45), Insert(69), Insert(0)]
  const Calls4: seq<Op> := [Insert(15), Insert(99), Insert(35)]
  const Calls5: seq<Op> := [Remove(15), Remove(14), Insert(95)]
  const Calls6: seq<Op> := [Insert(80), Insert(105), Insert(85)]
  const Calls7: seq<Op> := [Remove(0), Remove(12), Remove(95)]
  const Calls8: seq<Op> := [Insert(63), Insert(64), Remove(45)]
  const DriverOps: seq<Op> := Calls1 + Calls2 + Calls3 + Calls4 + Calls5 + Calls6 + Calls7 + Calls8

  /** The keys the driver leaves, ascending. */
  const Final: seq<int> := [18, 35, 62, 63, 64, 65, 69, 72, 73, 80, 85, 91, 99, 105]

  /** A set run over two stretches of calls is the second run from where the first ends. */
  lemma {:induction false} SimulateAppend(keys: set<int>, a: seq<Op>, b: seq<Op>)
    ensures Simulate(keys, a + b) == match Simulate(keys, a)
      case Ok(k) => Simulate(k, b)
      case Err(m) => Err(m)
    decreases |a|
  {
    if a != [] {
      assert (a + b)[1..] == a[1..] + b;
      match a[0]
      case Insert(k) => if k !in keys { SimulateAppend(keys + {k}, a[1..], b); }
      case Remove(k) => if k in keys { SimulateAppend(keys - {k}, a[1..], b); }
    } else {
      assert a + b == b;
    }
  }

  /** The key sets the set run passes through, one after each stretch of calls. */
  const Keys1: set<int> := {73, 62, 14, 65}
  const Keys2: set<int> := {73, 62, 14, 65, 12, 72, 91}
  const Keys3: set<int> := {73, 62, 14, 65, 12, 72, 91, 18, 45, 69, 0}
  const Keys4: set<int> := {73, 62, 14, 65, 12, 72, 91, 18, 45, 69, 0, 15, 99, 35}
  const Keys5: set<int> := {73, 62, 65, 12, 72, 91, 18, 45, 69, 0, 99, 35, 95}
  const Keys6: set<int> := {73, 62, 65, 12, 72, 91, 18, 45, 69, 0, 99, 35, 95, 80, 105, 85}
  const Keys7: set<int> := {73, 62, 65, 72, 91, 18, 45, 69, 99, 35, 80, 105, 85}
  const Keys8: set<int> := {73, 62, 65, 72, 91, 18, 69, 99, 35, 80, 105, 85, 63, 64}

  lemma Stretch1()
    ensures Simulate({}, Calls1).Ok? && Simulate({}, Calls1).value == Keys1
  {
  }

  lemma Stretch2()
    ensures Simulate(Keys1, Calls2).Ok? && Simulate(Keys1, Calls2).value == Keys2
  {
  }

  lemma Stretch3()
    ensures Simulate(Keys2, Calls3).Ok? && Simulate(Keys2, Calls3).value == Keys3
  {
  }

  lemma Stretch4()
    ensures Simulate(Keys3, Calls4).Ok? && Simulate(Keys3, Calls4).value == Keys4
  {
  }

  lemma Stretch5()
    ensures Simulate(Keys4, Calls5).Ok? && Simulate(Keys4, Calls5).value == Keys5
  {
  }

  lemma Stretch6()
    ensures Simulate(Keys5, Calls6).Ok? && Simulate(Keys5, Calls6).value == Keys6
  {
  }

  lemma Stretch7()
    ensures Simulate(Keys6, Calls7).Ok? && Simulate(Keys6, Calls7).value == Keys7
  {
  }

  lemma Stretch8()
    ensures Simulate(Keys7, Calls8).Ok? && Simulate(Keys7, Calls8).value == Keys8
  {
  }

  /** Final lists exactly the keys the last stretch leaves, in increasing order. */
  lemma FinalListsKeys(f: seq<int>)
    requires f == Final
    ensures Increasing(f) && (set x | x in f) == Keys8
  {
    assert forall i :: 0 <= i < |f| - 1 ==> f[i] < f[i + 1];
    AdjacentIncreasing(f);
  }

  /** A sequence rising at each step is increasing. */
  lemma {:induction false} AdjacentIncreasing(s: seq<int>)
    requires forall i :: 0 <= i < |s| - 1 ==> s[i] < s[i + 1]
    ensures Increasing(s)
    decreases |s|
  {
    if |s| > 1 {
      AdjacentIncreasing(s[1..]);
      forall j | 0 < j < |s|
        ensures s[0] < s[j]
      {
        assert s[1..][0] <= s[1..][j - 1];
      }
    }
  }

  /** On key sets the driver's run never throws and ends with the members of Final. */
  lemma DriverOnSets(keys: set<int>, ops: seq<Op>)
    requires keys == {} && ops == DriverOps
    ensures Simulate(keys, ops).Ok? && Simulate(keys, ops).value == Keys8
  {
    Stretch1();
    Stretch2();
    Stretch3();
    Stretch4();
    Stretch5();
    Stretch6();
    Stretch7();
    Stretch8();
    var p := Calls1;
    SimulateAppend(keys, p, Calls2);
    p := p + Calls2;
    SimulateAppend(keys, p, Calls3);
    p := p + Calls3;
    SimulateAppend(keys, p, Calls4);
    p := p + Calls4;
    SimulateAppend(keys, p, Calls5);
    p := p + Calls5;
    SimulateAppend(keys, p, Calls6);
    p := p + Calls6;
    SimulateAppend(keys, p, Calls7);
    p := p + Calls7;
    SimulateAppend(keys, p, Calls8);
  }

  /** A search tree keyed by the members of an increasing `f` lists `f` and has |f| elements. */
  lemma HoldingSorted(s: AVLTree.AVL<int>, f: seq<int>)
    requires Bst(Id, s.root) && Increasing(f) && Keys(Id, s.root) == set x | x in f
    ensures AVLTree.GetElements(Id, s) == f && AVLTree.GetSize(s) == |f|
  {
    var e := AVLTree.GetElements(Id, s);
    KeysAreKeysOfElems(Id, s.root);
    var inE := set x | x in e;
    var inF := set x | x in f;
    assert inE == inF;
    forall i | 0 <= i < |e|
      ensures e[i] in f
    {
      assert e[i] in inE;
    }
    forall i | 0 <= i < |f|
      ensures f[i] in e
    {
      assert f[i] in inF;
    }
    AscendingById(e);
    WithinAll(e, f);
    WithinAll(f, e);
    IncreasingUnique(e, f);
    SizeIsLength(s.root);
  }

  /** The driver's run from an empty tree, with the literals kept out of the caller's context. */
  lemma DriverRun(s0: AVLTree.AVL<int>, ops: seq<Op>)
    requires s0.root == Nil && ops == DriverOps
    ensures Run(s0, ops).Ok? &&
      AVLTree.GetElements(Id, Run(s0, ops).value) == Final && AVLTree.GetSize(Run(s0, ops).value) == |Final|
  {
    RunRefines(s0, ops);
    DriverOnSets(Keys(Id, s0.root), ops);
    FinalListsKeys(Final);
    HoldingSorted(Run(s0, ops).value, Final);
  }

  /**
   * The driver, whatever its uninitialised rotation counter: no call throws,
   * and the tree ends with 14 elements whose in-order listing is Final.
   */
  lemma Driver(garbage: int)
    ensures Run(AVLTree.New(garbage), DriverOps).Ok? &&
      var s := Run(AVLTree.New(garbage), DriverOps).value;
      AVLTree.GetElements(Id, s) == Final && AVLTree.GetSize(s) == 14
  {
    DriverRun(AVLTree.New(garbage), DriverOps);
  }
}
