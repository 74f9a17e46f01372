/** A JavaScript object with string keys, as the server uses it: a dictionary
    whose own keys are enumerated (`for ... in`, `Object.entries`) in the order
    they were first inserted. */
module Objects {
  import opened Wrappers
  import opened Seqs

  datatype Object<V> = Object(keys: seq<string>, fields: map<string, V>) {

    /** Each key is listed once, and exactly the keys with a value are listed. */
    ghost predicate Valid() {
      && NoDuplicates(keys)
      && forall k :: k in fields <==> k in keys
    }

    /** Property read `o[k]`: `None` is `undefined`. */
    function Get(k: string): (r: Option<V>)
      ensures r.Some? <==> k in fields
      ensures r.Some? ==> r.value == fields[k]
    {
      if k in fields then Some(fields[k]) else None
    }

    /** Property write `o[k] = v`: an existing key keeps its place in the
        enumeration order, a new key goes last. */
    function Put(k: string, v: V): (o: Object<V>)
      ensures o.Get(k) == Some(v)
      ensures forall k' :: k' != k ==> o.Get(k') == Get(k')
      ensures k in fields ==> o.keys == keys
      ensures k !in fields ==> o.keys == keys + [k]
      ensures Valid() ==> o.Valid()
    {
      Object(if k in fields then keys else keys + [k], fields[k := v])
    }

    /** `Object.entries(o)`: the key/value pairs in enumeration order. */
    function Entries(): (r: seq<(string, V)>)
      requires Valid()
      ensures |r| == |keys|
      ensures forall i :: 0 <= i < |r| ==> r[i].0 == keys[i] && r[i].0 in fields && r[i].1 == fields[keys[i]]
    {
      seq(|keys|, i requires 0 <= i < |keys| => (keys[i], fields[keys[i]]))
    }
  }

  /** The object literal `{}`. */
  function Empty<V>(): (o: Object<V>)
    ensures o.Valid() && o.keys == [] && o.fields == map[]
  {
    Object([], map[])
  }
}
