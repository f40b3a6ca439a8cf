/**
 * AVLDictionary (legacy edition): a map from keys to values kept as an
 * AVLTree of KVPair, ordered by key.  The legacy AVL tree it includes is not
 * part of this model; the AVLTree model stands in for it.  The tree's
 * rotation counter is carried along and never read.
 */
module AVLDictionary {
  import opened Outcome
  import opened BinTree
  import opened Pairs
  import AVLTree

  type Dict<V> = AVLTree.AVL<KVPair<V>>

  /** The pairs form a search tree by key. */
  ghost predicate Valid<V>(d: Dict<V>) {
    Bst(PairKey, d.root)
  }

  ghost function KeySet<V>(d: Dict<V>): set<int> {
    Keys(PairKey, d.root)
  }

  /** The constructor: no pairs; `garbage` is the tree's uninitialised rotation counter. */
  function New<V>(garbage: int): Dict<V> {
    AVLTree.New(garbage)
  }

  /** A new dictionary is balanced and holds no pairs. */
  lemma NewEmpty<V>(d: Dict<V>, garbage: int)
    requires d == New(garbage)
    ensures Valid(d) && AVLTree.Balanced(d.root) && KeySet(d) == {} && GetSize(d) == 0
  {
  }

  /** insert: a fresh key adds exactly its pair; a stored key fails with "Duplicated element.". */
  function Insert<V>(d: Dict<V>, k: int, v: V): (r: Result<Dict<V>>)
    ensures r.Err? ==> r.msg == "Duplicated element." && k in KeySet(d)
    ensures Valid(d) ==> (r.Ok? <==> k !in KeySet(d))
    ensures r.Ok? ==> Elems(r.value.root) == Elems(d.root) + {KVPair(k, v)}
    ensures r.Ok? ==> KeySet(r.value) == KeySet(d) + {k}
    ensures Valid(d) && r.Ok? ==> Valid(r.value) && GetSize(r.value) == GetSize(d) + 1
    ensures AVLTree.Balanced(d.root) && r.Ok? ==> AVLTree.Balanced(r.value.root)
  {
    var d' :- AVLTree.Insert(PairKey, d, KVPair(k, v));
    Grows(d.root, d'.root, KVPair(k, v));
    Ok(d')
  }

  /** remove: the value stored under k, which is gone afterwards; an absent key fails with "Element not found.". */
  function Remove<V>(d: Dict<V>, k: int): (r: Result<(Dict<V>, V)>)
    ensures r.Err? ==> r.msg == "Element not found."
    ensures Valid(d) ==> (r.Ok? <==> k in KeySet(d))
    ensures Valid(d) && r.Ok? ==>
      var (d', v) := r.value;
      Valid(d') && Maps(d.root, k, v) &&
      Elems(d'.root) == Elems(d.root) - {KVPair(k, v)} && KeySet(d') == KeySet(d) - {k}
  {
    var (d', p) :- AVLTree.Remove(PairKey, d, k);
    Ok((d', p.value))
  }

  /** getValue: the value stored under k, or "Element not found.". */
  function GetValue<V>(d: Dict<V>, k: int): (r: Result<V>)
    ensures r.Ok? ==> Maps(d.root, k, r.value)
    ensures r.Err? ==> r.msg == "Element not found."
    ensures Valid(d) ==> (r.Ok? <==> k in KeySet(d))
  {
    var p :- AVLTree.Find(PairKey, d, k);
    Ok(p.value)
  }

  /**
   * setValue: remove the pair with key k, then insert the new pair.  An
   * absent key makes the removal fail, so nothing is inserted.
   */
  function SetValue<V>(d: Dict<V>, k: int, v: V): (r: Result<Dict<V>>)
    ensures Valid(d) ==> (r.Ok? <==> k in KeySet(d))
    ensures Valid(d) && r.Err? ==> r.msg == "Element not found."
    ensures Valid(d) && r.Ok? ==>
      Valid(r.value) && KeySet(r.value) == KeySet(d) && GetValue(d, k).Ok? &&
      Elems(r.value.root) == Elems(d.root) - {KVPair(k, GetValue(d, k).value)} + {KVPair(k, v)}
  {
    var (d', w) :- Remove(d, k);
    StoredIsFound(d.root, k, w);
    Insert(d', k, v)
  }

  /** contains: true exactly for a stored key. */
  function Contains<V>(d: Dict<V>, k: int): (b: bool)
    ensures b ==> k in KeySet(d)
    ensures Valid(d) ==> (b <==> k in KeySet(d))
  {
    AVLTree.Contains(PairKey, d, k)
  }

  /** getKeys: every key once, in ascending order. */
  method GetKeys<V>(d: Dict<V>) returns (keys: seq<int>)
    ensures |keys| == GetSize(d)
    ensures forall i :: 0 <= i < |keys| ==> keys[i] == InOrder(d.root)[i].key
    ensures KeySet(d) == set i | 0 <= i < |keys| :: keys[i]
    ensures Valid(d) ==> forall i, j :: 0 <= i < j < |keys| ==> keys[i] < keys[j]
  {
    var items := AVLTree.GetElements(PairKey, d);
    KeysAreKeysOfElems(PairKey, d.root);
    keys := KeysOf(items);
    assert forall x :: x in Elems(d.root) <==> x in items;
    assert forall i :: 0 <= i < |keys| ==> keys[i] == items[i].key;
  }

  /** getValues: the values, listed in the order of getKeys. */
  method GetValues<V>(d: Dict<V>) returns (values: seq<V>)
    ensures |values| == GetSize(d)
    ensures forall i :: 0 <= i < |values| ==> InOrder(d.root)[i] == KVPair(InOrder(d.root)[i].key, values[i])
    ensures forall i :: 0 <= i < |values| ==> Maps(d.root, InOrder(d.root)[i].key, values[i])
  {
    var items := AVLTree.GetElements(PairKey, d);
    values := ValuesOf(items);
    ElemsAreInOrder(d.root);
  }

  /** getSize: the number of stored pairs. */
  function GetSize<V>(d: Dict<V>): (n: nat)
    ensures n == |InOrder(d.root)|
    ensures Valid(d) ==> n == |KeySet(d)|
  {
    SizeIsLength(d.root);
    SizeCountsKeys(d.root);
    Size(d.root)
  }

  /** After setValue on a stored key, getValue reads the new value and the size is unchanged. */
  lemma SetThenGet<V>(d: Dict<V>, k: int, v: V)
    requires Valid(d) && k in KeySet(d)
    ensures SetValue(d, k, v).Ok? &&
      GetValue(SetValue(d, k, v).value, k) == Ok(v) &&
      GetSize(SetValue(d, k, v).value) == GetSize(d)
  {
    var d' := SetValue(d, k, v).value;
    var w := GetValue(d', k).value;
    OneValuePerKey(d'.root, k, v, w);
  }

  /** Removing a key just inserted returns its value and gives back the original pairs. */
  lemma InsertThenRemove<V>(d: Dict<V>, k: int, v: V)
    requires Valid(d) && k !in KeySet(d)
    ensures Insert(d, k, v).Ok? &&
      var d' := Insert(d, k, v).value;
      Remove(d', k).Ok? && Remove(d', k).value.1 == v && Elems(Remove(d', k).value.0.root) == Elems(d.root)
  {
    var d' := Insert(d, k, v).value;
    var (d'', w) := Remove(d', k).value;
    OneValuePerKey(d'.root, k, v, w);
    ElemKeysAreKeys(PairKey, d.root);
  }
}
