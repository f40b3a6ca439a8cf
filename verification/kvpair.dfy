/**
 * Pairs: the key/value pair every dictionary stores, and the views of a
 * collection of pairs that the dictionaries share.
 *
 * Equality and the order operators of a pair look at the key alone, so a
 * tree of pairs is a tree ordered by `PairKey`, and a pair built from a key
 * alone finds the stored pair with that key whatever its value.  Keys are
 * modelled as integers, which stand for any totally ordered key type.
 */
module Pairs {
  import opened Outcome
  import opened BinTree

  datatype KVPair<V> = KVPair(key: int, value: V)

  /** The projection the ordered containers compare pairs by. */
  function PairKey<V>(p: KVPair<V>): int {
    p.key
  }

  /**
   * The key-only constructor.  Its value is default-constructed; `filler`
   * stands for that default, which no dictionary ever reads.
   */
  function Probe<V>(k: int, filler: V): (p: KVPair<V>)
    ensures PairKey(p) == k
  {
    KVPair(k, filler)
  }

  // ---------------------------------------------------------------------
  // Comparison operators: keys only
  // ---------------------------------------------------------------------

  predicate Equal<V>(p: KVPair<V>, q: KVPair<V>) {
    p.key == q.key
  }

  predicate NotEqual<V>(p: KVPair<V>, q: KVPair<V>) {
    p.key != q.key
  }

  predicate Less<V>(p: KVPair<V>, q: KVPair<V>) {
    p.key < q.key
  }

  predicate LessEq<V>(p: KVPair<V>, q: KVPair<V>) {
    p.key <= q.key
  }

  predicate Greater<V>(p: KVPair<V>, q: KVPair<V>) {
    p.key > q.key
  }

  predicate GreaterEq<V>(p: KVPair<V>, q: KVPair<V>) {
    p.key >= q.key
  }

  /** `!=` is the negation of `==`, and the values never take part in any comparison. */
  lemma ValuesIgnored<V>(k1: int, v1: V, w1: V, k2: int, v2: V, w2: V)
    ensures var p, q, p', q' := KVPair(k1, v1), KVPair(k2, v2), KVPair(k1, w1), KVPair(k2, w2);
      (NotEqual(p, q) <==> !Equal(p, q)) &&
      (Equal(p, q) <==> Equal(p', q')) && (Less(p, q) <==> Less(p', q')) &&
      (LessEq(p, q) <==> LessEq(p', q')) && (Greater(p, q) <==> Greater(p', q')) &&
      (GreaterEq(p, q) <==> GreaterEq(p', q'))
  {
  }

  /** Exactly one of `<`, `==`, `>` holds, and `<=`, `>=` are their unions. */
  lemma Trichotomy<V>(p: KVPair<V>, q: KVPair<V>)
    ensures Less(p, q) || Equal(p, q) || Greater(p, q)
    ensures !(Less(p, q) && Equal(p, q)) && !(Less(p, q) && Greater(p, q)) && !(Equal(p, q) && Greater(p, q))
    ensures LessEq(p, q) <==> Less(p, q) || Equal(p, q)
    ensures GreaterEq(p, q) <==> Greater(p, q) || Equal(p, q)
  {
  }

  /** A key-only probe is `==` to every pair with its key, whatever the value. */
  lemma ProbeMatches<V>(k: int, filler: V, v: V)
    ensures Equal(Probe(k, filler), KVPair(k, v))
    ensures forall j :: j != k ==> NotEqual(Probe(k, filler), KVPair(j, v))
  {
  }

  // ---------------------------------------------------------------------
  // A tree of pairs seen as a map
  // ---------------------------------------------------------------------

  /** The tree stores value v under key k. */
  ghost predicate Maps<V>(t: Tree<KVPair<V>>, k: int, v: V) {
    KVPair(k, v) in Elems(t)
  }

  /** In a search tree of pairs a key has at most one value: the pairs form a map. */
  lemma OneValuePerKey<V>(t: Tree<KVPair<V>>, k: int, v: V, w: V)
    requires Bst(PairKey, t) && Maps(t, k, v) && Maps(t, k, w)
    ensures v == w
  {
    KeyIdentifies(PairKey, t, KVPair(k, v), KVPair(k, w));
  }

  /** In a search tree the search for a stored pair's key finds that pair. */
  lemma StoredIsFound<V>(t: Tree<KVPair<V>>, k: int, v: V)
    ensures Bst(PairKey, t) && Maps(t, k, v) ==> FindAux(PairKey, t, k) == Ok(KVPair(k, v))
  {
    if Bst(PairKey, t) && Maps(t, k, v) {
      ElemKeysAreKeys(PairKey, t);
      KeyIdentifies(PairKey, t, FindAux(PairKey, t, k).value, KVPair(k, v));
    }
  }

  /** Taking one pair out of a search tree of pairs takes out exactly its key. */
  lemma RemovedKeyGone<V>(t: Tree<KVPair<V>>, t': Tree<KVPair<V>>, x: KVPair<V>)
    requires Bst(PairKey, t) && x in Elems(t) && Elems(t') == Elems(t) - {x}
    ensures Keys(PairKey, t') == Keys(PairKey, t) - {x.key}
  {
    KeysAreKeysOfElems(PairKey, t);
    KeysAreKeysOfElems(PairKey, t');
    forall y | y in Elems(t) && y.key == x.key
      ensures y == x
    {
      KeyIdentifies(PairKey, t, x, y);
    }
  }

  /** A stored key has a value. */
  lemma {:induction false} KeyHasValue<V>(t: Tree<KVPair<V>>, k: int) returns (v: V)
    requires k in Keys(PairKey, t)
    ensures Maps(t, k, v)
  {
    match t
    case Node(l, p, r) =>
      if k == p.key {
        v := p.value;
      } else if k in Keys(PairKey, l) {
        v := KeyHasValue(l, k);
      } else {
        v := KeyHasValue(r, k);
      }
  }

  /** In a search tree of pairs, the node count is the number of keys. */
  lemma SizeCountsKeys<V>(t: Tree<KVPair<V>>)
    ensures Bst(PairKey, t) ==> Size(t) == |Keys(PairKey, t)|
  {
    if Bst(PairKey, t) {
      SizeIsCardinality(PairKey, t);
    }
  }

  /** Adding one element with a fresh key to a search tree adds one node. */
  lemma Grows<V>(t: Tree<KVPair<V>>, t': Tree<KVPair<V>>, p: KVPair<V>)
    ensures (Bst(PairKey, t) && Bst(PairKey, t') && Elems(t') == Elems(t) + {p} && p.key !in Keys(PairKey, t))
      ==> Size(t') == Size(t) + 1
  {
    if Bst(PairKey, t) && Bst(PairKey, t') && Elems(t') == Elems(t) + {p} && p.key !in Keys(PairKey, t) {
      SizeIsCardinality(PairKey, t);
      SizeIsCardinality(PairKey, t');
      ElemKeysAreKeys(PairKey, t);
    }
  }

  // ---------------------------------------------------------------------
  // getKeys and getValues: walk the pairs and copy one field
  // ---------------------------------------------------------------------

  /** The keys of a sequence of pairs, in the same order. */
  method KeysOf<V>(items: seq<KVPair<V>>) returns (keys: seq<int>)
    ensures |keys| == |items|
    ensures forall i :: 0 <= i < |items| ==> keys[i] == PairKey(items[i])
    ensures Ascending(PairKey, items) ==> forall i, j :: 0 <= i < j < |keys| ==> keys[i] < keys[j]
  {
    keys := [];
    var i := 0;
    while i < |items|
      invariant 0 <= i <= |items| && |keys| == i
      invariant forall j :: 0 <= j < i ==> keys[j] == items[j].key
    {
      keys := keys + [items[i].key];
      i := i + 1;
    }
  }

  /** The values of a sequence of pairs, in the same order. */
  method ValuesOf<V>(items: seq<KVPair<V>>) returns (values: seq<V>)
    ensures |values| == |items|
    ensures forall i :: 0 <= i < |items| ==> items[i] == KVPair(items[i].key, values[i])
  {
    values := [];
    var i := 0;
    while i < |items|
      invariant 0 <= i <= |items| && |values| == i
      invariant forall j :: 0 <= j < i ==> values[j] == items[j].value
    {
      values := values + [items[i].value];
      i := i + 1;
    }
  }
}
