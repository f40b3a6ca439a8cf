/**
 * UnsortedArrayDictionary: a map from keys to values kept as an ArrayList of
 * KVPair in insertion order, searched linearly.  The searches walk the
 * list's cursor, so every operation, lookups included, returns the list with
 * its cursor moved.  The current and the legacy edition of the class are the
 * same code and share this model.
 */
module UnsortedArrayDictionary {
  import opened Outcome
  import opened Pairs
  import AL = ArrayList

  datatype Dict<V> = Dict(pairs: AL.List<KVPair<V>>)

  predicate Valid<V>(d: Dict<V>) {
    AL.Valid(d.pairs)
  }

  /** The stored pairs, oldest first. */
  function Items<V>(d: Dict<V>): seq<KVPair<V>>
    requires Valid(d)
  {
    AL.Items(d.pairs)
  }

  ghost function KeysIn<V>(s: seq<KVPair<V>>): set<int> {
    set i | 0 <= i < |s| :: s[i].key
  }

  ghost function KeySet<V>(d: Dict<V>): set<int>
    requires Valid(d)
  {
    KeysIn(Items(d))
  }

  /** No key is stored twice: what insert's duplicate check keeps true. */
  ghost predicate UniqueKeys<V>(s: seq<KVPair<V>>) {
    forall i, j :: 0 <= i < j < |s| ==> s[i].key != s[j].key
  }

  /** Where the linear search for k stops: the first pair with that key. */
  ghost function FirstWithKey<V>(s: seq<KVPair<V>>, k: int): (i: nat)
    requires k in KeysIn(s)
    ensures i < |s| && s[i].key == k
    ensures forall j :: 0 <= j < i ==> s[j].key != k
  {
    if s[0].key == k then 0
    else
      assert k in KeysIn(s[1..]) by {
        var i :| 0 <= i < |s| && s[i].key == k;
        assert s[1..][i - 1].key == k;
      }
      1 + FirstWithKey(s[1..], k)
  }

  /** The constructor: an ArrayList of capacity `max`, which fails with "Invalid max size." below 1. */
  function New<V>(max: int, filler: KVPair<V>): (r: Result<Dict<V>>)
    ensures r.Err? <==> max < 1
    ensures r.Err? ==> r.msg == "Invalid max size."
    ensures r.Ok? ==> Valid(r.value) && Items(r.value) == [] && UniqueKeys(Items(r.value))
  {
    var a :- AL.New(max, filler);
    Ok(Dict(a))
  }

  /**
   * The scan shared by checkNotExisting, checkExisting and contains: from
   * the start, advance the cursor until a pair with key k or the end.
   */
  method Scan<V>(d: Dict<V>, k: int) returns (d': Dict<V>, found: bool)
    requires Valid(d)
    ensures Valid(d') && Items(d') == Items(d)
    ensures found <==> k in KeySet(d)
    ensures found ==> d'.pairs.pos == FirstWithKey(Items(d), k)
    ensures !found ==> AL.AtEnd(d'.pairs)
  {
    var a := AL.GoToStart(d.pairs);
    while !AL.AtEnd(a)
      invariant AL.Valid(a) && AL.Items(a) == Items(d)
      invariant forall j :: 0 <= j < a.pos ==> Items(d)[j].key != k
      decreases a.size - a.pos
    {
      var p := AL.GetElement(a).value;
      if Equal(Probe(k, p.value), p) {
        return Dict(a), true;
      }
      a := AL.Next(a);
    }
    return Dict(a), false;
  }

  /** checkNotExisting: "Duplicated key." when k is stored. */
  method CheckNotExisting<V>(d: Dict<V>, k: int) returns (d': Dict<V>, r: Result<Unit>)
    requires Valid(d)
    ensures Valid(d') && Items(d') == Items(d)
    ensures r.Ok? <==> k !in KeySet(d)
    ensures r.Err? ==> r.msg == "Duplicated key."
  {
    var found;
    d', found := Scan(d, k);
    r := if found then Err("Duplicated key.") else Ok(Unit);
  }

  /** checkExisting: "Key not found." unless k is stored; on success the cursor rests on its pair. */
  method CheckExisting<V>(d: Dict<V>, k: int) returns (d': Dict<V>, r: Result<Unit>)
    requires Valid(d)
    ensures Valid(d') && Items(d') == Items(d)
    ensures r.Ok? <==> k in KeySet(d)
    ensures r.Err? ==> r.msg == "Key not found."
    ensures r.Ok? ==> d'.pairs.pos == FirstWithKey(Items(d), k)
  {
    var found;
    d', found := Scan(d, k);
    r := if found then Ok(Unit) else Err("Key not found.");
  }

  /** insert: a fresh key's pair goes after every stored pair; a stored key fails with "Duplicated key.". */
  method Insert<V>(d: Dict<V>, k: int, v: V) returns (d': Dict<V>, r: Result<Unit>)
    requires Valid(d)
    ensures Valid(d')
    ensures r.Ok? <==> k !in KeySet(d)
    ensures r.Err? ==> r.msg == "Duplicated key." && Items(d') == Items(d)
    ensures r.Ok? ==> Items(d') == Items(d) + [KVPair(k, v)] && KeySet(d') == KeySet(d) + {k}
    ensures UniqueKeys(Items(d)) ==> UniqueKeys(Items(d'))
  {
    d', r := CheckNotExisting(d, k);
    if r.Ok? {
      var a := AL.Append(d'.pairs, KVPair(k, v));
      d' := Dict(a);
      KeysInAppend(Items(d), KVPair(k, v));
    }
  }

  lemma KeysInAppend<V>(s: seq<KVPair<V>>, p: KVPair<V>)
    ensures KeysIn(s + [p]) == KeysIn(s) + {p.key}
  {
    assert forall i :: 0 <= i < |s| ==> (s + [p])[i] == s[i];
    assert (s + [p])[|s|] == p;
  }

  /** remove: the value of the pair with key k; that pair is taken out and the rest keep their order. */
  method Remove<V>(d: Dict<V>, k: int) returns (d': Dict<V>, r: Result<V>)
    requires Valid(d)
    ensures Valid(d')
    ensures r.Ok? <==> k in KeySet(d)
    ensures r.Err? ==> r.msg == "Key not found." && Items(d') == Items(d)
    ensures r.Ok? ==> var i := FirstWithKey(Items(d), k);
      Items(d)[i] == KVPair(k, r.value) && Items(d') == Items(d)[..i] + Items(d)[i + 1..]
    ensures r.Ok? && UniqueKeys(Items(d)) ==> UniqueKeys(Items(d')) && KeySet(d') == KeySet(d) - {k}
  {
    var ok;
    d', ok := CheckExisting(d, k);
    if ok.Err? {
      return d', ok.PropagateFailure();
    }
    var removed := AL.Remove(d'.pairs);
    var (a, p) := removed.value;
    d' := Dict(a);
    r := Ok(p.value);
    if UniqueKeys(Items(d)) {
      RemoveKeys(Items(d), FirstWithKey(Items(d), k));
    }
  }

  /** Taking one pair out of a list without repeated keys takes out exactly its key. */
  lemma RemoveKeys<V>(s: seq<KVPair<V>>, i: nat)
    requires UniqueKeys(s) && i < |s|
    ensures UniqueKeys(s[..i] + s[i + 1..])
    ensures KeysIn(s[..i] + s[i + 1..]) == KeysIn(s) - {s[i].key}
  {
    var t := s[..i] + s[i + 1..];
    assert forall j :: 0 <= j < |t| ==> t[j] == s[if j < i then j else j + 1];
    forall x | x in KeysIn(s) - {s[i].key}
      ensures x in KeysIn(t)
    {
      var j :| 0 <= j < |s| && s[j].key == x;
      assert t[if j < i then j else j - 1] == s[j];
    }
  }

  /** getValue: the value stored under k; the cursor is left on its pair. */
  method GetValue<V>(d: Dict<V>, k: int) returns (d': Dict<V>, r: Result<V>)
    requires Valid(d)
    ensures Valid(d') && Items(d') == Items(d)
    ensures r.Ok? <==> k in KeySet(d)
    ensures r.Err? ==> r.msg == "Key not found."
    ensures r.Ok? ==> KVPair(k, r.value) in Items(d) && Items(d)[FirstWithKey(Items(d), k)].value == r.value
  {
    var ok;
    d', ok := CheckExisting(d, k);
    if ok.Err? {
      return d', ok.PropagateFailure();
    }
    var p := AL.GetElement(d'.pairs).value;
    r := Ok(p.value);
  }

  /** setValue: the pair with key k gets value v in place: same position, same size. */
  method SetValue<V>(d: Dict<V>, k: int, v: V) returns (d': Dict<V>, r: Result<Unit>)
    requires Valid(d)
    ensures Valid(d')
    ensures r.Ok? <==> k in KeySet(d)
    ensures r.Err? ==> r.msg == "Key not found." && Items(d') == Items(d)
    ensures r.Ok? ==> Items(d') == Items(d)[FirstWithKey(Items(d), k) := KVPair(k, v)]
    ensures r.Ok? ==> KeySet(d') == KeySet(d) && (UniqueKeys(Items(d)) ==> UniqueKeys(Items(d')))
  {
    d', r := CheckExisting(d, k);
    if r.Ok? {
      var i := d'.pairs.pos;
      var a := AL.Set(d'.pairs, KVPair(k, v)).value;
      d' := Dict(a);
      assert forall j :: 0 <= j < |Items(d)| ==> Items(d')[j].key == Items(d)[j].key;
      assert forall x :: x in KeySet(d') <==> x in KeySet(d) by {
        forall x | x in KeySet(d) ensures x in KeySet(d') {
          var j :| 0 <= j < |Items(d)| && Items(d)[j].key == x;
          assert Items(d')[j].key == x;
        }
      }
    }
  }

  /** contains: true exactly when some pair has key k; never fails. */
  method Contains<V>(d: Dict<V>, k: int) returns (d': Dict<V>, b: bool)
    requires Valid(d)
    ensures Valid(d') && Items(d') == Items(d)
    ensures b <==> k in KeySet(d)
  {
    d', b := Scan(d, k);
  }

  /** getKeys: the keys in insertion order, walking the cursor to the end. */
  method GetKeys<V>(d: Dict<V>) returns (d': Dict<V>, keys: seq<int>)
    requires Valid(d)
    ensures Valid(d') && Items(d') == Items(d) && AL.AtEnd(d'.pairs)
    ensures |keys| == GetSize(d)
    ensures forall i :: 0 <= i < |keys| ==> keys[i] == Items(d)[i].key
    ensures UniqueKeys(Items(d)) ==> forall i, j :: 0 <= i < j < |keys| ==> keys[i] != keys[j]
  {
    var a := AL.GoToStart(d.pairs);
    keys := [];
    while !AL.AtEnd(a)
      invariant AL.Valid(a) && AL.Items(a) == Items(d) && |keys| == a.pos
      invariant forall i :: 0 <= i < a.pos ==> keys[i] == Items(d)[i].key
      decreases a.size - a.pos
    {
      var p := AL.GetElement(a).value;
      keys := keys + [p.key];
      a := AL.Next(a);
    }
    d' := Dict(a);
  }

  /** getValues: the values in insertion order, aligned with getKeys. */
  method GetValues<V>(d: Dict<V>) returns (d': Dict<V>, values: seq<V>)
    requires Valid(d)
    ensures Valid(d') && Items(d') == Items(d) && AL.AtEnd(d'.pairs)
    ensures |values| == GetSize(d)
    ensures forall i :: 0 <= i < |values| ==> Items(d)[i] == KVPair(Items(d)[i].key, values[i])
  {
    var a := AL.GoToStart(d.pairs);
    values := [];
    while !AL.AtEnd(a)
      invariant AL.Valid(a) && AL.Items(a) == Items(d) && |values| == a.pos
      invariant forall i :: 0 <= i < a.pos ==> values[i] == Items(d)[i].value
      decreases a.size - a.pos
    {
      var p := AL.GetElement(a).value;
      values := values + [p.value];
      a := AL.Next(a);
    }
    d' := Dict(a);
  }

  /** getSize: the number of stored pairs, which is the number of keys when none repeats. */
  function GetSize<V>(d: Dict<V>): (n: nat)
    requires Valid(d)
    ensures n == |Items(d)|
    ensures UniqueKeys(Items(d)) ==> n == |KeySet(d)|
  {
    DistinctKeysCount(Items(d));
    AL.GetSize(d.pairs)
  }

  lemma {:induction false} DistinctKeysCount<V>(s: seq<KVPair<V>>)
    ensures UniqueKeys(s) ==> |KeysIn(s)| == |s|
  {
    if UniqueKeys(s) && s != [] {
      var t := s[..|s| - 1];
      assert s == t + [s[|s| - 1]];
      assert UniqueKeys(t);
      DistinctKeysCount(t);
      KeysInAppend(t, s[|s| - 1]);
      assert s[|s| - 1].key !in KeysIn(t);
    }
  }
}
