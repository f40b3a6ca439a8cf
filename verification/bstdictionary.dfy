/**
 * BSTDictionary: a map from keys to values kept as a BSTree of KVPair,
 * ordered by key.  Every lookup probes the tree with a key-only pair, which
 * the model writes as the key itself.
 */
module BSTDictionary {
  import opened Outcome
  import opened BinTree
  import opened Pairs
  import BSTree

  datatype Dict<V> = Dict(pairs: Tree<KVPair<V>>)

  /** The pairs form a search tree by key. */
  ghost predicate Valid<V>(d: Dict<V>) {
    Bst(PairKey, d.pairs)
  }

  ghost function KeySet<V>(d: Dict<V>): set<int> {
    Keys(PairKey, d.pairs)
  }

  /** The constructor: no pairs. */
  function New<V>(): Dict<V> {
    Dict(Nil)
  }

  /** A new dictionary holds no pairs. */
  lemma NewEmpty<V>(d: Dict<V>)
    requires d == New()
    ensures Valid(d) && KeySet(d) == {} && GetSize(d) == 0
  {
  }

  /** insert: a fresh key adds exactly its pair; a stored key fails with "Duplicated element.". */
  function Insert<V>(d: Dict<V>, k: int, v: V): (r: Result<Dict<V>>)
    ensures r.Err? ==> r.msg == "Duplicated element." && k in KeySet(d)
    ensures Valid(d) ==> (r.Ok? <==> k !in KeySet(d))
    ensures r.Ok? ==> Elems(r.value.pairs) == Elems(d.pairs) + {KVPair(k, v)}
    ensures r.Ok? ==> KeySet(r.value) == KeySet(d) + {k}
    ensures Valid(d) && r.Ok? ==> Valid(r.value) && GetSize(r.value) == GetSize(d) + 1
  {
    var t :- BSTree.Insert(PairKey, d.pairs, KVPair(k, v));
    Grows(d.pairs, t, KVPair(k, v));
    Ok(Dict(t))
  }

  /** remove: the value stored under k, which is gone afterwards; an absent key fails with "Element not found.". */
  function Remove<V>(d: Dict<V>, k: int): (r: Result<(Dict<V>, V)>)
    ensures r.Err? ==> r.msg == "Element not found."
    ensures Valid(d) ==> (r.Ok? <==> k in KeySet(d))
    ensures Valid(d) && r.Ok? ==>
      var (d', v) := r.value;
      Valid(d') && Maps(d.pairs, k, v) &&
      Elems(d'.pairs) == Elems(d.pairs) - {KVPair(k, v)} && KeySet(d') == KeySet(d) - {k}
  {
    BSTree.RemoveSpec(PairKey, d.pairs, k);
    var (t, p) :- BSTree.Remove(PairKey, d.pairs, k);
    Ok((Dict(t), p.value))
  }

  /** getValue: the value stored under k, or "Element not found.". */
  function GetValue<V>(d: Dict<V>, k: int): (r: Result<V>)
    ensures r.Ok? ==> Maps(d.pairs, k, r.value)
    ensures r.Err? ==> r.msg == "Element not found."
    ensures Valid(d) ==> (r.Ok? <==> k in KeySet(d))
  {
    var p :- FindAux(PairKey, d.pairs, k);
    Ok(p.value)
  }

  /**
   * setValue: remove the pair with key k, then insert the new pair.  An
   * absent key makes the removal fail, so nothing is inserted.
   */
  function SetValue<V>(d: Dict<V>, k: int, v: V): (r: Result<Dict<V>>)
    ensures Valid(d) ==> (r.Ok? <==> k in KeySet(d))
    ensures Valid(d) && r.Err? ==> r.msg == "Element not found."
    ensures Valid(d) && r.Ok? ==>
      Valid(r.value) && KeySet(r.value) == KeySet(d) && GetValue(d, k).Ok? &&
      Elems(r.value.pairs) == Elems(d.pairs) - {KVPair(k, GetValue(d, k).value)} + {KVPair(k, v)}
  {
    var (d', w) :- Remove(d, k);
    StoredIsFound(d.pairs, k, w);
    Insert(d', k, v)
  }

  /** contains: true exactly for a stored key. */
  function Contains<V>(d: Dict<V>, k: int): (b: bool)
    ensures b ==> k in KeySet(d)
    ensures Valid(d) ==> (b <==> k in KeySet(d))
  {
    ContainsAux(PairKey, d.pairs, k)
  }

  /** getKeys: every key once, in ascending order. */
  method GetKeys<V>(d: Dict<V>) returns (keys: seq<int>)
    ensures |keys| == GetSize(d)
    ensures forall i :: 0 <= i < |keys| ==> keys[i] == InOrder(d.pairs)[i].key
    ensures KeySet(d) == set i | 0 <= i < |keys| :: keys[i]
    ensures Valid(d) ==> forall i, j :: 0 <= i < j < |keys| ==> keys[i] < keys[j]
  {
    var items := BSTree.GetElements(PairKey, d.pairs);
    KeysAreKeysOfElems(PairKey, d.pairs);
    keys := KeysOf(items);
    assert forall x :: x in Elems(d.pairs) <==> x in items;
    assert forall i :: 0 <= i < |keys| ==> keys[i] == items[i].key;
  }

  /** getValues: the values, listed in the order of getKeys. */
  method GetValues<V>(d: Dict<V>) returns (values: seq<V>)
    ensures |values| == GetSize(d)
    ensures forall i :: 0 <= i < |values| ==> InOrder(d.pairs)[i] == KVPair(InOrder(d.pairs)[i].key, values[i])
    ensures forall i :: 0 <= i < |values| ==> Maps(d.pairs, InOrder(d.pairs)[i].key, values[i])
  {
    var items := BSTree.GetElements(PairKey, d.pairs);
    values := ValuesOf(items);
    ElemsAreInOrder(d.pairs);
  }

  /** getSize: the number of stored pairs. */
  function GetSize<V>(d: Dict<V>): (n: nat)
    ensures n == |InOrder(d.pairs)|
    ensures Valid(d) ==> n == |KeySet(d)|
  {
    SizeIsLength(d.pairs);
    SizeCountsKeys(d.pairs);
    Size(d.pairs)
  }

  /** After setValue on a stored key, getValue reads the new value and the size is unchanged. */
  lemma SetThenGet<V>(d: Dict<V>, k: int, v: V)
    requires Valid(d) && k in KeySet(d)
    ensures SetValue(d, k, v).Ok? &&
      GetValue(SetValue(d, k, v).value, k) == Ok(v) &&
      GetSize(SetValue(d, k, v).value) == GetSize(d)
  {
    var d' := SetValue(d, k, v).value;
    var w := GetValue(d', k).value;
    OneValuePerKey(d'.pairs, k, v, w);
  }

  /** Removing a key just inserted returns its value and gives back the original pairs. */
  lemma InsertThenRemove<V>(d: Dict<V>, k: int, v: V)
    requires Valid(d) && k !in KeySet(d)
    ensures Insert(d, k, v).Ok? &&
      var d' := Insert(d, k, v).value;
      Remove(d', k).Ok? && Remove(d', k).value.1 == v && Elems(Remove(d', k).value.0.pairs) == Elems(d.pairs)
  {
    var d' := Insert(d, k, v).value;
    var (d'', w) := Remove(d', k).value;
    OneValuePerKey(d'.pairs, k, v, w);
    ElemKeysAreKeys(PairKey, d.pairs);
  }
}
