/**
 * Python's `dict` with string keys: a finite map together with the insertion
 * order of its keys, which `dict.items()` and `dict.values()` follow.
 */
module Dicts {
  import opened Seqs

  datatype DictRep<V> = DictRep(keys: seq<string>, entries: map<string, V>)

  /** Each key is listed once, and exactly the keys of the map are listed. */
  predicate Ordered<V>(d: DictRep<V>) {
    && Distinct(d.keys)
    && (forall k :: k in d.keys ==> k in d.entries)
    && (forall k :: k in d.entries ==> k in d.keys)
  }

  type Dict<V> = d: DictRep<V> | Ordered(d) witness DictRep([], map[])

  /** `{}` */
  function Empty<V>(): (d: Dict<V>)
    ensures d.keys == [] && d.entries == map[]
  {
    DictRep([], map[])
  }

  /** `d[key] = value`: an existing key keeps its place, a new key goes last. */
  function Assign<V>(d: Dict<V>, key: string, value: V): (r: Dict<V>)
    ensures r.entries == d.entries[key := value]
    ensures key in d.entries ==> r.keys == d.keys
    ensures key !in d.entries ==> r.keys == d.keys + [key]
  {
    var keys := if key in d.entries then d.keys else d.keys + [key];
    DistinctSnoc(d.keys, key);
    DictRep(keys, d.entries[key := value])
  }

  /** The position of a key in the key order. */
  lemma KeyIndex<V>(d: Dict<V>, k: string) returns (j: nat)
    requires k in d.entries
    ensures j < |d.keys| && d.keys[j] == k
  {
    j :| 0 <= j < |d.keys| && d.keys[j] == k;
  }

  /** `list(d.values())`, in key order. */
  function Values<V>(d: Dict<V>): (vs: seq<V>)
    ensures |vs| == |d.keys|
    ensures forall i :: 0 <= i < |d.keys| ==> d.keys[i] in d.entries && vs[i] == d.entries[d.keys[i]]
  {
    seq(|d.keys|, i requires 0 <= i < |d.keys| => d.entries[d.keys[i]])
  }

  /** A key's value is one of `values()`, and every value belongs to some key. */
  lemma ValuesAreEntries<V>(d: Dict<V>)
    ensures forall k :: k in d.entries ==> d.entries[k] in Values(d)
    ensures forall v :: v in Values(d) ==> exists k :: k in d.entries && d.entries[k] == v
  {
    var vs := Values(d);
    forall k | k in d.entries ensures d.entries[k] in vs {
      var i :| 0 <= i < |d.keys| && d.keys[i] == k;
      assert vs[i] == d.entries[k];
    }
  }
}
