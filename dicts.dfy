/**
 * A Python dict from str to str as the clients fill it: a list of entries in
 * insertion order, each key at most once. Assigning to a present key replaces
 * its value where it stands; assigning to a new key appends an entry.
 */
module Dicts {
  import opened Wrappers

  type Dict = seq<(string, string)>

  /** The keys of d, in insertion order. */
  function Keys(d: Dict): (ks: seq<string>)
    ensures |ks| == |d|
    ensures forall i :: 0 <= i < |d| ==> ks[i] == d[i].0
  {
    if d == [] then [] else [d[0].0] + Keys(d[1..])
  }

  predicate UniqueKeys(d: Dict) {
    var ks := Keys(d);
    forall i, j :: 0 <= i < j < |ks| ==> ks[i] != ks[j]
  }

  /** d.get(k). */
  function Lookup(d: Dict, k: string): (r: Option<string>)
    ensures r.None? <==> k !in Keys(d)
  {
    if d == [] then None else if d[0].0 == k then Some(d[0].1) else Lookup(d[1..], k)
  }

  /** d[k] = v: the first entry for k gets the value v; without one, (k, v) is appended. */
  function Put(d: Dict, k: string, v: string): Dict {
    if d == [] then [(k, v)]
    else if d[0].0 == k then [(k, v)] + d[1..]
    else [d[0]] + Put(d[1..], k, v)
  }

  /** Assignment keeps the keys in insertion order and puts a new key last. */
  lemma {:induction false} PutKeys(d: Dict, k: string, v: string)
    ensures Keys(Put(d, k, v)) == if k in Keys(d) then Keys(d) else Keys(d) + [k]
  {
    if d != [] && d[0].0 != k {
      PutKeys(d[1..], k, v);
      assert Keys(d) == [d[0].0] + Keys(d[1..]);
      assert Keys(Put(d, k, v)) == [d[0].0] + Keys(Put(d[1..], k, v));
    }
  }

  /** After d[k] = v, k maps to v and every other key to what it mapped to before. */
  lemma {:induction false} PutLookup(d: Dict, k: string, v: string, key: string)
    ensures Lookup(Put(d, k, v), key) == if key == k then Some(v) else Lookup(d, key)
  {
    if d != [] && d[0].0 != k {
      PutLookup(d[1..], k, v, key);
    }
  }

  /** Assignment never duplicates a key. */
  lemma PutUnique(d: Dict, k: string, v: string)
    requires UniqueKeys(d)
    ensures UniqueKeys(Put(d, k, v))
  {
    PutKeys(d, k, v);
  }
}
