/** The dictionary the extension methods work on: unique keys, enumerated in
    insertion order. An update overwrites a value where it stands, a new key
    is appended at the end, and entries are only ever removed all at once
    (`Clear`), so the order of `entries` is the enumeration order. */
module OrderedDictionary {

  /** No key occurs twice. */
  predicate DistinctKeys<K(==), V>(entries: seq<(K, V)>) {
    forall i, j :: 0 <= i < j < |entries| ==> entries[i].0 != entries[j].0
  }

  /** `ContainsKey`. */
  predicate HasKey<K(==), V>(entries: seq<(K, V)>, key: K) {
    exists i :: 0 <= i < |entries| && entries[i].0 == key
  }

  /** The position of `key`, or -1 when it is absent. */
  function IndexOf<K(==), V>(entries: seq<(K, V)>, key: K): (i: int)
    ensures -1 <= i < |entries|
    ensures i >= 0 <==> HasKey(entries, key)
    ensures i >= 0 ==> entries[i].0 == key
    decreases |entries|
  {
    if |entries| == 0 then -1
    else if entries[|entries| - 1].0 == key then |entries| - 1
    else IndexOf(entries[..|entries| - 1], key)
  }

  /** The entries after `dictionary[key] = value`: the value of a present key
      is overwritten in place, an absent key is appended. */
  function Put<K(==), V>(entries: seq<(K, V)>, key: K, value: V): seq<(K, V)> {
    var i := IndexOf(entries, key);
    if i >= 0 then entries[i := (key, value)] else entries + [(key, value)]
  }

  /** Storing under a key keeps the keys distinct and stores the value. A
      present key keeps its position and every other entry is untouched; an
      absent key is appended after the unchanged entries. */
  lemma PutSpec<K, V>(entries: seq<(K, V)>, key: K, value: V)
    requires DistinctKeys(entries)
    ensures DistinctKeys(Put(entries, key, value))
    ensures (key, value) in Put(entries, key, value)
    ensures HasKey(entries, key) ==>
      |Put(entries, key, value)| == |entries| &&
      forall i :: 0 <= i < |entries| ==>
        Put(entries, key, value)[i] == (if entries[i].0 == key then (key, value) else entries[i])
    ensures !HasKey(entries, key) ==>
      |Put(entries, key, value)| == |entries| + 1 &&
      Put(entries, key, value)[..|entries|] == entries &&
      Put(entries, key, value)[|entries|] == (key, value)
  {
    var r := Put(entries, key, value);
    var i := IndexOf(entries, key);
    if i >= 0 {
      assert r[i] == (key, value);
    } else {
      assert r[|entries|] == (key, value);
    }
  }

  /** Appending a key that is absent keeps the keys distinct. */
  lemma AppendKeepsDistinct<K, V>(entries: seq<(K, V)>, key: K, value: V)
    requires DistinctKeys(entries) && !HasKey(entries, key)
    ensures DistinctKeys(entries + [(key, value)])
  {
  }

  /** A mutable `Dictionary<TKey, TValue>`. */
  class Dictionary<K(==), V> {
    var entries: seq<(K, V)>

    ghost predicate Valid()
      reads this
    {
      DistinctKeys(entries)
    }

    /** `new Dictionary<TKey, TValue>()`. */
    constructor ()
      ensures Valid() && entries == []
    {
      entries := [];
    }

    /** `new Dictionary<TKey, TValue>(source)`: a copy in the source's order. */
    constructor Copy(source: seq<(K, V)>)
      requires DistinctKeys(source)
      ensures Valid() && entries == source
    {
      entries := source;
    }

    function Count(): nat
      reads this
    {
      |entries|
    }

    predicate ContainsKey(key: K)
      reads this
    {
      HasKey(entries, key)
    }

    /** `Add(key, value)` on a key that is not present. */
    method Add(key: K, value: V)
      requires Valid() && !HasKey(entries, key)
      modifies this
      ensures Valid()
      ensures entries == old(entries) + [(key, value)]
    {
      AppendKeepsDistinct(entries, key, value);
      entries := entries + [(key, value)];
    }

    /** `TryAdd(key, value)`: adds only an absent key. */
    method TryAdd(key: K, value: V) returns (added: bool)
      requires Valid()
      modifies this
      ensures Valid()
      ensures added <==> !HasKey(old(entries), key)
      ensures entries == if added then old(entries) + [(key, value)] else old(entries)
    {
      added := !ContainsKey(key);
      if added {
        Add(key, value);
      }
    }

    /** The indexer setter `this[key] = value`. */
    method SetItem(key: K, value: V)
      requires Valid()
      modifies this
      ensures Valid()
      ensures entries == Put(old(entries), key, value)
    {
      PutSpec(entries, key, value);
      entries := Put(entries, key, value);
    }

    /** `Clear()`. */
    method Clear()
      modifies this
      ensures Valid() && entries == []
    {
      entries := [];
    }
  }
}
