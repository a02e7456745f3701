/** A Python `dict` with string keys. Besides the key/value map it keeps the
    keys in insertion order, which is the order `dict.items()` iterates in;
    re-assigning an existing key keeps that key's place. */
module PyDict {

  datatype Dict<V> = Dict(order: seq<string>, entries: map<string, V>)

  predicate Distinct(s: seq<string>) {
    forall i, j :: 0 <= i < j < |s| ==> s[i] != s[j]
  }

  /** The representation invariant: every key is listed once, and only keys are listed. */
  predicate Valid<V>(d: Dict<V>) {
    && Distinct(d.order)
    && (forall k :: k in d.entries ==> k in d.order)
    && (forall k :: k in d.order ==> k in d.entries)
  }

  /** `{}` */
  function Empty<V>(): (d: Dict<V>)
    ensures Valid(d) && |d.entries| == 0 && |d.order| == 0
  {
    Dict([], map[])
  }

  /** `d[k] = v`: a new key goes to the end of the order, an existing one stays put. */
  function Put<V>(d: Dict<V>, k: string, v: V): (r: Dict<V>)
    requires Valid(d)
    ensures Valid(r)
    ensures r.entries.Keys == d.entries.Keys + {k} && r.entries[k] == v
    ensures forall j :: j in d.entries && j != k ==> r.entries[j] == d.entries[j]
    ensures k in d.entries ==> r.order == d.order
    ensures k !in d.entries ==> r.order == d.order + [k]
  {
    if k in d.entries then Dict(d.order, d.entries[k := v])
    else Dict(d.order + [k], d.entries[k := v])
  }

  /** `len(d)`: the number of entries equals the number of keys iterated over. */
  lemma {:induction false} LenIsOrderLength<V>(d: Dict<V>)
    requires Valid(d)
    ensures |d.entries| == |d.order|
    decreases |d.order|
  {
    if d.order != [] {
      var last := d.order[|d.order| - 1];
      var rest := Dict(d.order[..|d.order| - 1], d.entries - {last});
      DropLastValid(d);
      LenIsOrderLength(rest);
      assert last in d.entries;
      assert |d.entries - {last}| == |d.entries| - 1;
    }
  }

  /** Removing the most recently inserted key leaves a valid dictionary. */
  lemma DropLastValid<V>(d: Dict<V>)
    requires Valid(d) && d.order != []
    ensures Valid(Dict(d.order[..|d.order| - 1], d.entries - {d.order[|d.order| - 1]}))
  {
    var last := d.order[|d.order| - 1];
    var rest := Dict(d.order[..|d.order| - 1], d.entries - {last});
    forall k ensures k in rest.entries <==> k in rest.order {
      if k in rest.order {
        var i :| 0 <= i < |rest.order| && rest.order[i] == k;
        assert d.order[i] == k;
      }
      if k in d.order && k != last {
        var i :| 0 <= i < |d.order| && d.order[i] == k;
        assert i < |d.order| - 1;
        assert rest.order[i] == k;
      }
    }
  }
}
