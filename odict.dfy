/**
  Python dictionaries keyed by strings, with the one property of theirs the
  comment tool depends on: iteration follows insertion order, and assigning to
  a key that is already present replaces its value in place, keeping its
  position.
 */
module OrderedMaps {

  datatype Option<T> = None | Some(value: T)

  datatype Entry<V> = Entry(key: string, value: V)

  /** A dictionary as the sequence of its items in iteration order. */
  type ODict<V> = seq<Entry<V>>

  function Keys<V>(d: ODict<V>): (ks: seq<string>)
    ensures |ks| == |d|
    ensures forall i :: 0 <= i < |d| ==> ks[i] == d[i].key
  {
    if d == [] then [] else [d[0].key] + Keys(d[1..])
  }

  /** Every key occurs once, as in a real dictionary. */
  predicate NoDupKeys<V>(d: ODict<V>) {
    forall i, j :: 0 <= i < j < |d| ==> d[i].key != d[j].key
  }

  /** `d.get(k)`: the value stored under `k`, if any. */
  function Lookup<V>(d: ODict<V>, k: string): (r: Option<V>)
    ensures r.None? <==> k !in Keys(d)
    ensures r.Some? ==> exists i :: 0 <= i < |d| && d[i] == Entry(k, r.value)
  {
    if d == [] then None
    else if d[0].key == k then Some(d[0].value)
    else Lookup(d[1..], k)
  }

  /** `d[k] = v`. */
  function Put<V>(d: ODict<V>, k: string, v: V): (r: ODict<V>)
  {
    if d == [] then [Entry(k, v)]
    else if d[0].key == k then [Entry(k, v)] + d[1..]
    else [d[0]] + Put(d[1..], k, v)
  }

  /** After `d[k] = v`, `k` maps to `v` and every other key keeps its value. */
  lemma {:induction false} PutLookup<V>(d: ODict<V>, k: string, v: V, k': string)
    ensures Lookup(Put(d, k, v), k') == if k' == k then Some(v) else Lookup(d, k')
  {
    if d != [] && d[0].key != k {
      PutLookup(d[1..], k, v, k');
    }
  }

  /** Assignment keeps the iteration order: an existing key stays where it
      was, a new key goes last. */
  lemma {:induction false} PutKeys<V>(d: ODict<V>, k: string, v: V)
    ensures Keys(Put(d, k, v)) == if k in Keys(d) then Keys(d) else Keys(d) + [k]
  {
    if d != [] && d[0].key != k {
      PutKeys(d[1..], k, v);
      assert Keys(d) == [d[0].key] + Keys(d[1..]);
      assert (k in Keys(d)) == (k in Keys(d[1..]));
    }
  }

  /** Assignment never duplicates a key. */
  lemma {:induction false} PutNoDup<V>(d: ODict<V>, k: string, v: V)
    requires NoDupKeys(d)
    ensures NoDupKeys(Put(d, k, v))
  {
    var d' := Put(d, k, v);
    PutKeys(d, k, v);
    var ks, ks' := Keys(d), Keys(d');
    forall i, j | 0 <= i < j < |d'| ensures d'[i].key != d'[j].key {
      assert ks'[i] == d'[i].key && ks'[j] == d'[j].key;
      if k !in ks && j == |d| {
        assert ks'[i] == ks[i] == d[i].key;
      } else {
        assert ks'[i] == d[i].key && ks'[j] == d[j].key;
      }
    }
  }

  /** Every item after `d[k] = v` is the new one or an item `d` already had. */
  lemma {:induction false} PutItems<V>(d: ODict<V>, k: string, v: V, e: Entry<V>)
    requires e in Put(d, k, v)
    ensures e == Entry(k, v) || e in d
  {
    if d != [] && d[0].key != k && e != d[0] {
      PutItems(d[1..], k, v, e);
    }
  }
}
