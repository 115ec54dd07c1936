/**
 * param_hash_map_impl: the unordered map behind param_hash_map (a Dafny map under key equality),
 * the key/value pair objects its iterator hands out, and that iterator.
 */
module ParamHashMaps {
  import opened Wrappers
  import opened Exceptions
  import opened IterableObjects

  /** param_pair_impl: a key and a value, read back unchanged. */
  datatype Pair<K, V> = Pair(key: K, value: V)

  /**
   * The map an initializer list builds: each pair is inserted in turn, so the first pair with a
   * key decides its value and later ones are ignored.
   */
  function FromPairs<K, V>(list: seq<Pair<K, V>>): map<K, V>
  {
    if list == [] then map[]
    else
      var m := FromPairs(list[..|list| - 1]);
      var last := list[|list| - 1];
      if last.key in m then m else m[last.key := last.value]
  }

  /** The keys of the built map are the keys of the list, each mapped to the value of its first pair. */
  lemma {:induction false} FromPairsSpec<K, V>(list: seq<Pair<K, V>>, k: K)
    ensures k in FromPairs(list) <==> exists i :: 0 <= i < |list| && list[i].key == k
    ensures k in FromPairs(list) ==> exists i ::
      0 <= i < |list| && list[i].key == k && FromPairs(list)[k] == list[i].value &&
      forall j :: 0 <= j < i ==> list[j].key != k
  {
    if list != [] {
      var front := list[..|list| - 1];
      FromPairsSpec(front, k);
      if k in FromPairs(front) {
        var i :| 0 <= i < |front| && front[i].key == k && FromPairs(front)[k] == front[i].value &&
          forall j :: 0 <= j < i ==> front[j].key != k;
        assert list[i] == front[i];
      } else if list[|list| - 1].key == k {
        assert forall j :: 0 <= j < |list| - 1 ==> list[j] == front[j];
      } else {
        assert forall j :: 0 <= j < |list| - 1 ==> list[j] == front[j];
      }
    }
  }

  /** An enumeration of a map: every entry once, as a pair carrying the stored key and value. */
  ghost predicate Enumerates<K, V>(entries: seq<Pair<K, V>>, m: map<K, V>)
  {
    && |entries| == |m|
    && (forall i :: 0 <= i < |entries| ==> entries[i].key in m && m[entries[i].key] == entries[i].value)
    && (forall i, j :: 0 <= i < j < |entries| ==> entries[i].key != entries[j].key)
    && (forall k :: k in m ==> exists i :: 0 <= i < |entries| && entries[i].key == k)
  }

  /** An enumeration extended by a pair whose key is new enumerates the extended map. */
  lemma EnumeratesExtend<K, V>(entries: seq<Pair<K, V>>, sub: map<K, V>, k: K, v: V)
    requires Enumerates(entries, sub) && k !in sub
    ensures Enumerates(entries + [Pair(k, v)], sub[k := v])
  {
    var longer := entries + [Pair(k, v)];
    forall key | key == k || key in sub
      ensures exists i :: 0 <= i < |longer| && longer[i].key == key
    {
      if key == k {
        assert longer[|entries|].key == key;
      } else {
        var i :| 0 <= i < |entries| && entries[i].key == key;
        assert longer[i].key == key;
      }
    }
  }

  /**
   * The order the iterator walks the buckets in: some enumeration of the map (the bucket order
   * of std::unordered_map is not specified, so any order may come out).
   */
  method Enumerate<K, V>(m: map<K, V>) returns (entries: seq<Pair<K, V>>)
    ensures Enumerates(entries, m)
  {
    entries := [];
    var rest := m;
    ghost var done: map<K, V> := map[];
    while rest != map[]
      invariant Enumerates(entries, done)
      invariant forall k :: k in done ==> k in m && done[k] == m[k] && k !in rest
      invariant forall k :: k in rest ==> k in m && rest[k] == m[k]
      invariant forall k :: k in m ==> k in done || k in rest
      decreases |rest|
    {
      var k :| k in rest;
      EnumeratesExtend(entries, done, k, rest[k]);
      entries := entries + [Pair(k, rest[k])];
      done := done[k := rest[k]];
      assert rest.Keys - {k} == (rest - {k}).Keys;
      rest := rest - {k};
    }
    assert done == m;
  }

  /** param_hash_map_impl: its buffer. */
  class ParamHashMap<K(==), V(==)> {
    var buffer: map<K, V>

    /** The default constructor: no entries. */
    constructor ()
      ensures buffer == map[]
    {
      buffer := map[];
    }

    /** The initializer-list constructor: the map FromPairs builds. */
    constructor FromList(list: seq<Pair<K, V>>)
      ensures buffer == FromPairs(list)
    {
      buffer := FromPairs(list);
    }

    /** empty: no keys. */
    predicate Empty()
      reads this
      ensures Empty() <==> |buffer| == 0
    {
      buffer == map[]
    }

    /** size: the number of keys. */
    function Size(): (r: nat)
      reads this
      ensures r == |buffer.Keys|
    {
      |buffer|
    }

    /** get_value: the stored value, or abi_key_not_found. */
    function GetValue(key: K): (r: Raising<V>)
      reads this
      ensures r.Returned? <==> key in buffer
      ensures r.Returned? ==> r.value == buffer[key]
      ensures r.Raised? ==> r.error == KeyNotFound
    {
      if key in buffer then Returned(buffer[key]) else Raised(KeyNotFound)
    }

    /** try_get_value: whether the key is present, and the output: the stored value, or the output left as it was. */
    function TryGetValue(key: K, output: V): (r: (bool, V))
      reads this
      ensures r.0 <==> key in buffer
      ensures r.0 ==> r.1 == buffer[key]
      ensures !r.0 ==> r.1 == output
    {
      if key in buffer then (true, buffer[key]) else (false, output)
    }

    /** The vtable's try_get_value: the output starts as the null value, so a missing key writes that. */
    function AbiTryGetValue(key: K, nullValue: V): (r: (bool, V))
      reads this
      ensures r.0 <==> key in buffer
      ensures r.1 == if key in buffer then buffer[key] else nullValue
    {
      TryGetValue(key, nullValue)
    }

    /** contains: the key is present. */
    predicate Contains(key: K)
      reads this
      ensures Contains(key) <==> GetValue(key).Returned?
    {
      key in buffer
    }

    /** add_or_update (insert_or_assign): the key maps to the value; no other key changes. */
    method AddOrUpdate(key: K, value: V)
      modifies this
      ensures buffer == old(buffer)[key := value]
      ensures |buffer| == if key in old(buffer) then |old(buffer)| else |old(buffer)| + 1
    {
      buffer := buffer[key := value];
    }

    /** remove: the key is erased if present; otherwise nothing happens. */
    method Remove(key: K)
      modifies this
      ensures buffer == old(buffer) - {key}
      ensures key !in old(buffer) ==> buffer == old(buffer)
    {
      buffer := buffer - {key};
    }

    /** clear: no entries. */
    method Clear()
      modifies this
      ensures buffer == map[]
    {
      buffer := map[];
    }
  }

  /** After add_or_update the value reads back; every other key reads as before. */
  lemma AddOrUpdateReadsBack<K, V>(m: map<K, V>, key: K, value: V, other: K)
    ensures key in m[key := value] && m[key := value][key] == value
    ensures other != key ==> (other in m[key := value] <==> other in m)
    ensures other != key && other in m ==> m[key := value][other] == m[other]
    ensures |m[key := value]| == if key in m then |m| else |m| + 1
  {
  }

  /**
   * get_iterator: an object_iterator_impl that starts at begin() of the buffer and walks the
   * entries in bucket order, handing out each as a key/value pair.
   */
  method GetIterator<K(==), V(==)>(m: ParamHashMap<K, V>) returns (it: Cursor<Pair<K, V>>)
    ensures fresh(it) && it.index == 0
    ensures Enumerates(it.items, m.buffer)
  {
    var entries := Enumerate(m.buffer);
    it := new Cursor(entries);
  }

  /** A range-for over the map produces every entry exactly once. */
  method ForEachEntry<K(==), V(==)>(m: ParamHashMap<K, V>) returns (produced: seq<Pair<K, V>>)
    ensures Enumerates(produced, m.buffer)
  {
    var it := GetIterator(m);
    produced := ForEach(it);
  }
}
