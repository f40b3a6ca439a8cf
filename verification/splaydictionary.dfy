/**
 * SplayDictionary: a map from keys to values kept as a SplayTree of KVPair,
 * ordered by key.  Every insert, remove, lookup and membership test splays,
 * so each returns the dictionary's new state along with its result; on a
 * valid dictionary none of them is undefined.
 */
module SplayDictionary {
  import opened Outcome
  import opened BinTree
  import opened Pairs
  import SplayTree

  type Dict<V> = SplayTree.State<KVPair<V>>
  type Step<V, R> = SplayTree.Step<KVPair<V>, R>

  /** A search tree by key whose `last` pointer names a node of it, or nothing. */
  ghost predicate Valid<V>(d: Dict<V>) {
    SplayTree.Valid(PairKey, d)
  }

  ghost function KeySet<V>(d: Dict<V>): set<int> {
    Keys(PairKey, d.root)
  }

  /** The constructor: no pairs. */
  function New<V>(): Dict<V> {
    SplayTree.New(PairKey)
  }

  /** A new dictionary holds no pairs. */
  lemma NewEmpty<V>(d: Dict<V>)
    requires d == New()
    ensures Valid(d) && KeySet(d) == {} && GetSize(d) == 0
  {
  }

  /** insert: a fresh key adds exactly its pair, splayed to the root; a stored key fails with "Duplicated element.". */
  function Insert<V>(d: Dict<V>, k: int, v: V): (r: Step<V, Unit>)
    ensures r.Done? && SplayTree.LastAtRoot(r.state) && r.state.root.Node?
    ensures Valid(d) ==> Valid(r.state) && (r.out.Ok? <==> k !in KeySet(d))
    ensures r.out.Err? ==> r.out.msg == "Duplicated element." && k in KeySet(d) && KeySet(r.state) == KeySet(d)
    ensures r.out.Err? ==> GetSize(r.state) == GetSize(d) && r.state.root.elem.key == k
    ensures r.out.Ok? ==> Elems(r.state.root) == Elems(d.root) + {KVPair(k, v)} && r.state.root.elem == KVPair(k, v)
    ensures Valid(d) && r.out.Ok? ==> GetSize(r.state) == GetSize(d) + 1 && KeySet(r.state) == KeySet(d) + {k}
  {
    var r := SplayTree.Insert(PairKey, SplayTree.Current, d, KVPair(k, v));
    Recounted(d.root, r.state.root);
    Added(d.root, r.state.root, KVPair(k, v));
    r
  }

  /** Two trees with the same in-order sequence have the same keys and size. */
  lemma Recounted<V>(t: Tree<KVPair<V>>, t': Tree<KVPair<V>>)
    ensures InOrder(t) == InOrder(t') ==> Keys(PairKey, t) == Keys(PairKey, t') && Size(t) == Size(t')
  {
    if InOrder(t) == InOrder(t') {
      SameInOrder(PairKey, t, t');
      SizeIsLength(t);
      SizeIsLength(t');
    }
  }

  /** Adding a pair with a fresh key to a search tree adds its key and one node. */
  lemma Added<V>(t: Tree<KVPair<V>>, t': Tree<KVPair<V>>, p: KVPair<V>)
    ensures (Bst(PairKey, t) && Bst(PairKey, t') && Elems(t') == Elems(t) + {p} && p.key !in Keys(PairKey, t))
      ==> Size(t') == Size(t) + 1 && Keys(PairKey, t') == Keys(PairKey, t) + {p.key}
  {
    if Bst(PairKey, t) && Bst(PairKey, t') && Elems(t') == Elems(t) + {p} && p.key !in Keys(PairKey, t) {
      ElemKeysAreKeys(PairKey, t);
      AddedSize(t, t', p);
      AddedKeys(t, t', p);
    }
  }

  lemma AddedSize<V>(t: Tree<KVPair<V>>, t': Tree<KVPair<V>>, p: KVPair<V>)
    requires Bst(PairKey, t) && Bst(PairKey, t') && Elems(t') == Elems(t) + {p} && p !in Elems(t)
    ensures Size(t') == Size(t) + 1
  {
    SizeIsCardinality(PairKey, t);
    SizeIsCardinality(PairKey, t');
  }

  lemma AddedKeys<V>(t: Tree<KVPair<V>>, t': Tree<KVPair<V>>, p: KVPair<V>)
    requires Elems(t') == Elems(t) + {p}
    ensures Keys(PairKey, t') == Keys(PairKey, t) + {p.key}
  {
    KeysAreKeysOfElems(PairKey, t);
    KeysAreKeysOfElems(PairKey, t');
    KeysOfAdded(Elems(t), p);
  }

  /** The keys of a set of pairs with one pair added are the old keys and the new pair's key. */
  lemma KeysOfAdded<V>(e: set<KVPair<V>>, p: KVPair<V>)
    ensures (set x | x in e + {p} :: PairKey(x)) == (set x | x in e :: PairKey(x)) + {PairKey(p)}
  {
  }

  /** The value part of a step that produced a pair. */
  function ValueOf<V>(r: Step<V, KVPair<V>>): (r': Step<V, V>)
    ensures r'.Undefined? <==> r.Undefined?
    ensures r'.Done? ==> r'.state == r.state && (r'.out.Ok? <==> r.out.Ok?)
    ensures r'.Done? && r.out.Ok? ==> r.out.value == KVPair(r.out.value.key, r'.out.value)
    ensures r'.Done? && r.out.Err? ==> r'.out.msg == r.out.msg
  {
    match r
    case Undefined => SplayTree.Undefined
    case Done(s, o) => SplayTree.Done(s, if o.Ok? then Ok(o.value.value) else Err(o.msg))
  }

  /** remove: the value stored under k, which is gone afterwards; an absent key fails with "Element not found.". */
  function Remove<V>(d: Dict<V>, k: int): (r: Step<V, V>)
    ensures Valid(d) ==> r.Done? && Valid(r.state) && SplayTree.LastAtRoot(r.state)
    ensures Valid(d) ==> (r.out.Ok? <==> k in KeySet(d))
    ensures Valid(d) && r.out.Ok? ==>
      Maps(d.root, k, r.out.value) && Elems(r.state.root) == Elems(d.root) - {KVPair(k, r.out.value)} &&
      KeySet(r.state) == KeySet(d) - {k}
    ensures Valid(d) && r.out.Err? ==>
      r.out.msg == "Element not found." && InOrder(r.state.root) == InOrder(d.root)
  {
    var r := SplayTree.Remove(PairKey, SplayTree.Current, d, k);
    DropsKey(d, r);
    ValueOf(r)
  }

  /** A removal that takes out one pair takes out its key. */
  lemma DropsKey<V>(d: Dict<V>, r: Step<V, KVPair<V>>)
    ensures (Bst(PairKey, d.root) && r.Done? && r.out.Ok? && r.out.value in Elems(d.root) &&
             Elems(r.state.root) == Elems(d.root) - {r.out.value})
      ==> KeySet(r.state) == KeySet(d) - {r.out.value.key}
  {
    if Bst(PairKey, d.root) && r.Done? && r.out.Ok? && r.out.value in Elems(d.root) &&
       Elems(r.state.root) == Elems(d.root) - {r.out.value} {
      RemovedKeyGone(d.root, r.state.root, r.out.value);
    }
  }

  /** getValue: the value stored under k, whose pair is splayed to the root; otherwise "Element not found.". */
  function GetValue<V>(d: Dict<V>, k: int): (r: Step<V, V>)
    ensures Valid(d) ==> r.Done? && Valid(r.state) && SplayTree.LastAtRoot(r.state)
    ensures Valid(d) ==> (r.out.Ok? <==> k in KeySet(d)) && InOrder(r.state.root) == InOrder(d.root)
    ensures Valid(d) && r.out.Ok? ==>
      Maps(d.root, k, r.out.value) && r.state.root.Node? && r.state.root.elem == KVPair(k, r.out.value)
    ensures Valid(d) && r.out.Err? ==> r.out.msg == "Element not found."
  {
    ValueOf(SplayTree.Find(PairKey, SplayTree.Current, d, k))
  }

  /**
   * setValue: remove the pair with key k, then insert the new pair.  An
   * absent key makes the removal fail, so nothing is inserted.
   */
  function SetValue<V>(d: Dict<V>, k: int, v: V): (r: Step<V, Unit>)
    ensures Valid(d) ==> r.Done? && Valid(r.state) && (r.out.Ok? <==> k in KeySet(d))
    ensures Valid(d) && r.out.Err? ==> r.out.msg == "Element not found." && InOrder(r.state.root) == InOrder(d.root)
    ensures Valid(d) && r.out.Ok? ==>
      KeySet(r.state) == KeySet(d) && GetSize(r.state) == GetSize(d) &&
      r.state.root.Node? && r.state.root.elem == KVPair(k, v) &&
      var w := Remove(d, k).out.value;
      Maps(d.root, k, w) && Elems(r.state.root) == Elems(d.root) - {KVPair(k, w)} + {KVPair(k, v)}
  {
    match Remove(d, k)
    case Undefined => SplayTree.Undefined
    case Done(s, o) =>
      if o.Err? then SplayTree.Done(s, Err(o.msg))
      else
        var r := Insert(s, k, v);
        ReplacedIfStored(d, s, k, o.value, v, r.state);
        r
  }

  /**
   * setValue on a stored key: once the pair (k, w) is out, a reinsertion that
   * adds (k, v) restores the key set and the size and swaps the old pair for the new one.
   */
  lemma Replaced<V>(d: Dict<V>, s: Dict<V>, k: int, w: V, v: V, r: Dict<V>)
    requires Valid(d) && Maps(d.root, k, w) && Bst(PairKey, s.root)
    requires Elems(s.root) == Elems(d.root) - {KVPair(k, w)} && KeySet(s) == KeySet(d) - {k}
    requires Elems(r.root) == Elems(s.root) + {KVPair(k, v)}
    requires GetSize(r) == GetSize(s) + 1 && KeySet(r) == KeySet(s) + {k}
    ensures k in KeySet(d) && KeySet(r) == KeySet(d) && GetSize(r) == GetSize(d)
    ensures Elems(r.root) == Elems(d.root) - {KVPair(k, w)} + {KVPair(k, v)}
  {
    SetCounts(d, s, k, w);
    ElemKeysAreKeys(PairKey, d.root);
  }

  /** Replaced, for a caller that does not know its premises hold. */
  lemma ReplacedIfStored<V>(d: Dict<V>, s: Dict<V>, k: int, w: V, v: V, r: Dict<V>)
    ensures (Valid(d) && Maps(d.root, k, w) && Bst(PairKey, s.root) &&
             Elems(s.root) == Elems(d.root) - {KVPair(k, w)} && KeySet(s) == KeySet(d) - {k} &&
             Elems(r.root) == Elems(s.root) + {KVPair(k, v)} &&
             GetSize(r) == GetSize(s) + 1 && KeySet(r) == KeySet(s) + {k})
      ==> k in KeySet(d) && KeySet(r) == KeySet(d) && GetSize(r) == GetSize(d) &&
          Elems(r.root) == Elems(d.root) - {KVPair(k, w)} + {KVPair(k, v)}
  {
    if Valid(d) && Maps(d.root, k, w) && Bst(PairKey, s.root) &&
       Elems(s.root) == Elems(d.root) - {KVPair(k, w)} && KeySet(s) == KeySet(d) - {k} &&
       Elems(r.root) == Elems(s.root) + {KVPair(k, v)} &&
       GetSize(r) == GetSize(s) + 1 && KeySet(r) == KeySet(s) + {k} {
      Replaced(d, s, k, w, v, r);
    }
  }

  /** The size bookkeeping of setValue: one pair out, one pair with the same key back in. */
  lemma SetCounts<V>(d: Dict<V>, s: Dict<V>, k: int, w: V)
    ensures (Valid(d) && Maps(d.root, k, w) && Bst(PairKey, s.root) && Elems(s.root) == Elems(d.root) - {KVPair(k, w)})
      ==> Size(s.root) + 1 == Size(d.root)
  {
    if Valid(d) && Maps(d.root, k, w) && Bst(PairKey, s.root) && Elems(s.root) == Elems(d.root) - {KVPair(k, w)} {
      SizeIsCardinality(PairKey, d.root);
      SizeIsCardinality(PairKey, s.root);
    }
  }

  /** contains: never fails; true exactly for a stored key, and the last node visited is splayed. */
  function Contains<V>(d: Dict<V>, k: int): (r: Step<V, bool>)
    ensures Valid(d) ==> r.Done? && Valid(r.state) && r.out.Ok? && (r.out.value <==> k in KeySet(d))
    ensures Valid(d) ==> InOrder(r.state.root) == InOrder(d.root) && SplayTree.LastAtRoot(r.state)
  {
    SplayTree.Contains(PairKey, SplayTree.Current, d, k)
  }

  /** getKeys: every key once, in ascending order; the tree is not splayed. */
  method GetKeys<V>(d: Dict<V>) returns (keys: seq<int>)
    ensures |keys| == GetSize(d)
    ensures forall i :: 0 <= i < |keys| ==> keys[i] == InOrder(d.root)[i].key
    ensures KeySet(d) == set i | 0 <= i < |keys| :: keys[i]
    ensures Valid(d) ==> forall i, j :: 0 <= i < j < |keys| ==> keys[i] < keys[j]
  {
    var items := SplayTree.GetElements(PairKey, d);
    KeysAreKeysOfElems(PairKey, d.root);
    keys := KeysOf(items);
    assert forall x :: x in Elems(d.root) <==> x in items;
    assert forall i :: 0 <= i < |keys| ==> keys[i] == items[i].key;
  }

  /** getValues: the values, listed in the order of getKeys; the tree is not splayed. */
  method GetValues<V>(d: Dict<V>) returns (values: seq<V>)
    ensures |values| == GetSize(d)
    ensures forall i :: 0 <= i < |values| ==> InOrder(d.root)[i] == KVPair(InOrder(d.root)[i].key, values[i])
    ensures forall i :: 0 <= i < |values| ==> Maps(d.root, InOrder(d.root)[i].key, values[i])
  {
    var items := SplayTree.GetElements(PairKey, d);
    values := ValuesOf(items);
    ElemsAreInOrder(d.root);
  }

  /** getSize: the number of stored pairs. */
  function GetSize<V>(d: Dict<V>): (n: nat)
    ensures n == |InOrder(d.root)|
    ensures Valid(d) ==> n == |KeySet(d)|
  {
    SizeCountsKeys(d.root);
    SplayTree.GetSize(PairKey, d)
  }

  /** After setValue on a stored key, getValue reads the new value, and finds it at the root. */
  lemma SetThenGet<V>(d: Dict<V>, k: int, v: V)
    requires Valid(d) && k in KeySet(d)
    ensures SetValue(d, k, v).Done? && SetValue(d, k, v).out.Ok?
    ensures var g := GetValue(SetValue(d, k, v).state, k);
      g.Done? && g.out == Ok(v) && g.state.root.elem == KVPair(k, v)
  {
    var s := SetValue(d, k, v).state;
    var g := GetValue(s, k);
    OneValuePerKey(s.root, k, v, g.out.value);
  }

  /** Removing a key just inserted returns its value and gives back the original pairs. */
  lemma InsertThenRemove<V>(d: Dict<V>, k: int, v: V)
    requires Valid(d) && k !in KeySet(d)
    ensures Insert(d, k, v).out.Ok?
    ensures var s := Insert(d, k, v).state;
      Remove(s, k).Done? && Remove(s, k).out == Ok(v) && Elems(Remove(s, k).state.root) == Elems(d.root)
  {
    var s := Insert(d, k, v).state;
    var r := Remove(s, k);
    OneValuePerKey(s.root, k, v, r.out.value);
    ElemKeysAreKeys(PairKey, d.root);
  }
}
