/**
 A plain JavaScript object used as a dictionary. Its keys are iterated
 (`for ... in`, `Object.keys`, `Object.values`) in first-insertion order,
 so the model keeps that order next to the key/value map.
 */
module JsObject {
  import opened Wrappers

  datatype Obj<K(!new), V> = Obj(order: seq<K>, entries: map<K, V>) {

    /** Every key is listed exactly once in `order`, and `order` lists exactly the keys. */
    ghost predicate Valid() {
      && (forall i, j :: 0 <= i < j < |order| ==> order[i] != order[j])
      && (forall k :: k in entries <==> k in order)
    }

    /** `obj[k]`, with `None` for `undefined`. */
    function Get(k: K): Option<V> {
      if k in entries then Some(entries[k]) else None
    }

    /** `obj[k] = v`: an existing key keeps its place, a new key goes last. */
    function Put(k: K, v: V): (o: Obj<K, V>)
      requires Valid()
      ensures o.Valid()
      ensures o.entries == entries[k := v]
      ensures k in entries ==> o.order == order
      ensures k !in entries ==> o.order == order + [k]
    {
      if k in entries then Obj(order, entries[k := v]) else Obj(order + [k], entries[k := v])
    }
  }

  /** `{}` */
  function Empty<K(!new), V>(): (o: Obj<K, V>)
    ensures o.Valid() && o.order == [] && o.entries == map[]
  {
    Obj([], map[])
  }

  /** `Object.values(obj)`: the values in key order. */
  function Values<K(!new), V(==)>(o: Obj<K, V>): (vs: seq<V>)
    requires o.Valid()
    ensures forall k :: k in o.entries ==> exists i :: 0 <= i < |vs| && vs[i] == o.entries[k]
    ensures forall i :: 0 <= i < |vs| ==> vs[i] in o.entries.Values
  {
    var vs := seq(|o.order|, i requires 0 <= i < |o.order| => o.entries[o.order[i]]);
    assert forall k :: k in o.entries ==> exists i :: 0 <= i < |vs| && vs[i] == o.entries[k] by {
      forall k | k in o.entries ensures exists i :: 0 <= i < |vs| && vs[i] == o.entries[k] {
        var i :| 0 <= i < |o.order| && o.order[i] == k;
        assert vs[i] == o.entries[k];
      }
    }
    vs
  }

  /** The `i`-th value is the value under the `i`-th key. */
  lemma ValuesInOrder<K(!new), V>(o: Obj<K, V>, i: int)
    requires o.Valid() && 0 <= i < |o.order|
    ensures i < |Values(o)| && Values(o)[i] == o.entries[o.order[i]]
  {
  }
}
