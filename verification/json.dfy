/** The value tree `json.load` produces and `json.dump` consumes, and the two
    Python operations the loader applies to it: `value[key]` and `for x in value`.
    The text encoding itself is not modelled. */
module JsonValue {
  import opened Wrappers
  import opened Errors

  /** A decoded JSON value. An object keeps its entries in insertion order, as a
      Python dict does; integers and other numbers are distinct, as `json.load`
      returns `int` for integer literals and `float` otherwise. */
  datatype Json =
    | JNull
    | JBool(b: bool)
    | JInt(i: int)
    | JFloat(x: real)
    | JString(s: string)
    | JArray(items: seq<Json>)
    | JObject(fields: seq<(string, Json)>)

  /** Key `key` is bound at position `i` and at no later position. */
  predicate LastBindingAt(fields: seq<(string, Json)>, key: string, i: int) {
    0 <= i < |fields| && fields[i].0 == key &&
    forall j :: i < j < |fields| ==> fields[j].0 != key
  }

  /** The value bound to `key`; when a key is repeated the last binding wins,
      as it does when `json.load` builds a dict. */
  function Binding(fields: seq<(string, Json)>, key: string): (r: Option<Json>)
    ensures r.Some? <==> exists i :: 0 <= i < |fields| && fields[i].0 == key
    ensures r.Some? ==> exists i :: LastBindingAt(fields, key, i) && fields[i].1 == r.value
  {
    BindingBelow(fields, key, |fields|)
  }

  /** The last binding of `key` among the first `n` entries. */
  function BindingBelow(fields: seq<(string, Json)>, key: string, n: nat): (r: Option<Json>)
    requires n <= |fields|
    ensures r.Some? <==> exists i :: 0 <= i < n && fields[i].0 == key
    ensures r.Some? ==> exists i :: 0 <= i < n && fields[i].0 == key && fields[i].1 == r.value
                                 && forall j :: i < j < n ==> fields[j].0 != key
  {
    if n == 0 then None
    else if fields[n - 1].0 == key then Some(fields[n - 1].1)
    else BindingBelow(fields, key, n - 1)
  }

  /** A key whose last binding is at `i` is looked up to that binding. */
  lemma GetLastBinding(fields: seq<(string, Json)>, key: string, i: int)
    requires LastBindingAt(fields, key, i)
    ensures Get(JObject(fields), key) == Success(fields[i].1)
  {
    var r := Binding(fields, key);
    var i' :| LastBindingAt(fields, key, i') && fields[i'].1 == r.value;
    assert i == i';
  }

  predicate HasKey(j: Json, key: string) {
    j.JObject? && Binding(j.fields, key).Some?
  }

  /** Python's `j[key]` for a string key: a dict lookup that raises KeyError when
      the key is absent, and a TypeError on every other kind of value. */
  function Get(j: Json, key: string): (r: Result<Json, Error>)
    ensures r.Success? <==> HasKey(j, key)
    ensures r.Success? ==> exists i :: LastBindingAt(j.fields, key, i) && j.fields[i].1 == r.value
    ensures j.JObject? && !HasKey(j, key) ==> r == Failure(KeyError(key))
    ensures !j.JObject? ==> r == Failure(TypeError(NotSubscriptable))
  {
    match j
    case JObject(fields) =>
      (match Binding(fields, key)
       case Some(v) => Success(v)
       case None => Failure(KeyError(key)))
    case _ => Failure(TypeError(NotSubscriptable))
  }

  /** Entry `i` holds the first binding of its key. */
  predicate IsFirst<K(==), V>(fields: seq<(K, V)>, i: int) {
    0 <= i < |fields| && forall j :: 0 <= j < i ==> fields[j].0 != fields[i].0
  }

  /** `key` has a first binding in `fields`. */
  ghost predicate FirstBound<K, V>(fields: seq<(K, V)>, key: K) {
    exists i :: IsFirst(fields, i) && fields[i].0 == key
  }

  /** The first binding of `x` comes before the first binding of `y`. */
  ghost predicate FirstBoundBefore<K, V>(fields: seq<(K, V)>, x: K, y: K) {
    exists i, j :: i < j && IsFirst(fields, i) && fields[i].0 == x && IsFirst(fields, j) && fields[j].0 == y
  }

  /** The positions of first bindings among the first `n` entries, in increasing order. */
  function FirstBindings<K(==), V>(fields: seq<(K, V)>, n: nat): (r: seq<nat>)
    requires n <= |fields|
    ensures forall k :: 0 <= k < |r| ==> r[k] < n && IsFirst(fields, r[k])
    ensures forall i :: 0 <= i < n && IsFirst(fields, i) ==> i in r
    ensures forall a, b :: 0 <= a < b < |r| ==> r[a] < r[b]
  {
    if n == 0 then []
    else
      var rest := FirstBindings(fields, n - 1);
      if IsFirst(fields, n - 1) then rest + [n - 1] else rest
  }

  /** Every key is bound first at or before any of its bindings. */
  lemma {:induction false} FirstBindingExists<K, V>(fields: seq<(K, V)>, i: int)
    requires 0 <= i < |fields|
    ensures exists f :: 0 <= f <= i && IsFirst(fields, f) && fields[f].0 == fields[i].0
    decreases i
  {
    if !IsFirst(fields, i) {
      var j :| 0 <= j < i && fields[j].0 == fields[i].0;
      FirstBindingExists(fields, j);
    }
  }

  /** The keys of a dict built from `fields`: each distinct key once, in the
      order of its first binding, as `json.load` inserts them. */
  function Keys<K(==), V>(fields: seq<(K, V)>): (r: seq<K>)
    ensures forall a, b :: 0 <= a < b < |r| ==> r[a] != r[b]
    ensures forall i :: 0 <= i < |fields| ==> fields[i].0 in r
    ensures forall a :: 0 <= a < |r| ==> FirstBound(fields, r[a])
    ensures forall a, b :: 0 <= a < b < |r| ==> FirstBoundBefore(fields, r[a], r[b])
  {
    KeysOfFirsts(fields, FirstBindings(fields, |fields|), KeysAt(fields, FirstBindings(fields, |fields|)));
    KeysAt(fields, FirstBindings(fields, |fields|))
  }

  /** The keys of the entries at the given positions, in order. */
  function KeysAt<K(==), V>(fields: seq<(K, V)>, positions: seq<nat>): (r: seq<K>)
    requires forall k :: 0 <= k < |positions| ==> positions[k] < |fields|
    ensures |r| == |positions| && forall k :: 0 <= k < |r| ==> r[k] == fields[positions[k]].0
  {
    if positions == [] then [] else [fields[positions[0]].0] + KeysAt(fields, positions[1..])
  }

  /** The keys read off the first bindings, in order, have every property `Keys` promises. */
  lemma KeysOfFirsts<K, V>(fields: seq<(K, V)>, firsts: seq<nat>, r: seq<K>)
    requires firsts == FirstBindings(fields, |fields|)
    requires |r| == |firsts| && forall k :: 0 <= k < |r| ==> r[k] == fields[firsts[k]].0
    ensures forall a, b :: 0 <= a < b < |r| ==> r[a] != r[b]
    ensures forall i :: 0 <= i < |fields| ==> fields[i].0 in r
    ensures forall a :: 0 <= a < |r| ==> FirstBound(fields, r[a])
    ensures forall a, b :: 0 <= a < b < |r| ==> FirstBoundBefore(fields, r[a], r[b])
  {
    forall a, b | 0 <= a < b < |r|
      ensures r[a] != r[b]
    {
      assert firsts[a] < firsts[b] && IsFirst(fields, firsts[b]);
    }
    forall a | 0 <= a < |r|
      ensures FirstBound(fields, r[a])
    {
      assert IsFirst(fields, firsts[a]) && fields[firsts[a]].0 == r[a];
    }
    KeysCoverEntries(fields, firsts, r);
    KeysInFirstOrder(fields, firsts, r);
  }

  /** Reading the keys off the first bindings misses no entry's key. */
  lemma KeysCoverEntries<K, V>(fields: seq<(K, V)>, firsts: seq<nat>, r: seq<K>)
    requires firsts == FirstBindings(fields, |fields|)
    requires |r| == |firsts| && forall k :: 0 <= k < |r| ==> r[k] == fields[firsts[k]].0
    ensures forall i :: 0 <= i < |fields| ==> fields[i].0 in r
  {
    forall i | 0 <= i < |fields|
      ensures fields[i].0 in r
    {
      FirstBindingExists(fields, i);
      var f :| 0 <= f <= i && IsFirst(fields, f) && fields[f].0 == fields[i].0;
      var k :| 0 <= k < |firsts| && firsts[k] == f;
      assert r[k] == fields[i].0;
    }
  }

  /** Keys read off the first bindings come in the order of those bindings. */
  lemma KeysInFirstOrder<K, V>(fields: seq<(K, V)>, firsts: seq<nat>, r: seq<K>)
    requires forall k :: 0 <= k < |firsts| ==> firsts[k] < |fields| && IsFirst(fields, firsts[k])
    requires forall a, b :: 0 <= a < b < |firsts| ==> firsts[a] < firsts[b]
    requires |r| == |firsts| && forall k :: 0 <= k < |r| ==> r[k] == fields[firsts[k]].0
    ensures forall a, b :: 0 <= a < b < |r| ==> FirstBoundBefore(fields, r[a], r[b])
  {
    forall a, b | 0 <= a < b < |r|
      ensures FirstBoundBefore(fields, r[a], r[b])
    {
      var i, j := firsts[a], firsts[b];
      assert i < j && IsFirst(fields, i) && fields[i].0 == r[a] && IsFirst(fields, j) && fields[j].0 == r[b];
    }
  }

  /** With no key bound twice, every entry is a first binding. */
  lemma {:induction false} FirstBindingsAll<K, V>(fields: seq<(K, V)>, n: nat)
    requires n <= |fields|
    requires forall a, b :: 0 <= a < b < |fields| ==> fields[a].0 != fields[b].0
    ensures |FirstBindings(fields, n)| == n
    ensures forall k :: 0 <= k < n ==> FirstBindings(fields, n)[k] == k
  {
    if n > 0 {
      FirstBindingsAll(fields, n - 1);
      assert IsFirst(fields, n - 1);
    }
  }

  /** With no key bound twice, the keys are the entries' keys in entry order. */
  lemma KeysOfDistinct<K, V>(fields: seq<(K, V)>)
    requires forall a, b :: 0 <= a < b < |fields| ==> fields[a].0 != fields[b].0
    ensures |Keys(fields)| == |fields|
    ensures forall k :: 0 <= k < |fields| ==> Keys(fields)[k] == fields[k].0
  {
    FirstBindingsAll(fields, |fields|);
  }

  /** The keys of an object written with two different keys. */
  lemma KeysOfTwo<K, V>(k0: K, k1: K, v0: V, v1: V)
    requires k0 != k1
    ensures Keys([(k0, v0), (k1, v1)]) == [k0, k1]
  {
    var fields := [(k0, v0), (k1, v1)];
    assert fields[0].0 != fields[1].0;
    KeysOfDistinct(fields);
    var r := Keys(fields);
    assert |r| == 2 && r[0] == k0 && r[1] == k1;
  }

  /** The keys of an object written with three different keys. */
  lemma KeysOfThree<K, V>(k0: K, k1: K, k2: K, v0: V, v1: V, v2: V)
    requires k0 != k1 && k0 != k2 && k1 != k2
    ensures Keys([(k0, v0), (k1, v1), (k2, v2)]) == [k0, k1, k2]
  {
    var fields := [(k0, v0), (k1, v1), (k2, v2)];
    assert fields[0].0 != fields[1].0 && fields[0].0 != fields[2].0 && fields[1].0 != fields[2].0;
    KeysOfDistinct(fields);
    var r := Keys(fields);
    assert |r| == 3 && r[0] == k0 && r[1] == k1 && r[2] == k2;
  }

  /** The elements `for x in j` visits: an array's items, a string's characters
      (each a one-character string) or a dict's distinct keys. Other values are
      not iterable. */
  function Iterate(j: Json): (r: Result<seq<Json>, Error>)
    ensures r.Success? <==> (j.JArray? || j.JString? || j.JObject?)
    ensures j.JArray? ==> r == Success(j.items)
    ensures r.Success? && !j.JArray? ==> forall k :: 0 <= k < |r.value| ==> r.value[k].JString?
    ensures j.JString? ==> |r.value| == |j.s| && forall k :: 0 <= k < |j.s| ==> r.value[k] == JString([j.s[k]])
    ensures j.JObject? ==> |r.value| == |Keys(j.fields)|
    ensures j.JObject? ==> forall k :: 0 <= k < |r.value| ==> r.value[k] == JString(Keys(j.fields)[k])
  {
    match j
    case JArray(items) => Success(items)
    case JString(s) => Success(seq(|s|, k requires 0 <= k < |s| => JString([s[k]])))
    case JObject(fields) =>
      var keys := Keys(fields);
      Success(seq(|keys|, k requires 0 <= k < |keys| => JString(keys[k])))
    case _ => Failure(TypeError(NotIterable))
  }

  /** A key bound twice is visited once. */
  lemma IterateRepeatedKey()
    ensures Iterate(JObject([("a", JInt(1)), ("a", JInt(2))])) == Success([JString("a")])
  {
    var fields := [("a", JInt(1)), ("a", JInt(2))];
    var keys := Keys(fields);
    assert fields[0].0 in keys;
    assert keys == ["a"];
    var r := Iterate(JObject(fields));
    assert |r.value| == 1 && r.value[0] == JString("a");
    assert r.value == [JString("a")];
  }
}
