/**
  A JavaScript plain object used as a dictionary with string keys
  (`{ [playerId: string]: V }`). Its entries are kept in insertion order:
  assigning to a key that is present keeps the entry where it is, assigning
  to a new key appends an entry, and `delete` removes the entry. This is the
  order in which `Object.entries` lists them.
*/
module Dict {
  import opened Wrappers

  type Key = string

  type Dict<V> = seq<(Key, V)>

  /** The set of keys that have an entry. */
  function Keys<V>(d: Dict<V>): set<Key>
  {
    if d == [] then {} else {d[0].0} + Keys(d[1..])
  }

  /** No key has two entries: what a JavaScript object always satisfies. */
  predicate DistinctKeys<V>(d: Dict<V>)
  {
    d == [] || (d[0].0 !in Keys(d[1..]) && DistinctKeys(d[1..]))
  }

  /** `d[k]`: the value of the entry for `k`, or `None` (`undefined`). */
  function Get<V>(d: Dict<V>, k: Key): (r: Option<V>)
    ensures r.Some? <==> k in Keys(d)
  {
    if d == [] then None
    else if d[0].0 == k then Some(d[0].1)
    else Get(d[1..], k)
  }

  /** `d[k] = v`. */
  function Put<V>(d: Dict<V>, k: Key, v: V): (r: Dict<V>)
    ensures Keys(r) == Keys(d) + {k}
    ensures forall k' :: Get(r, k') == if k' == k then Some(v) else Get(d, k')
    ensures DistinctKeys(d) ==> DistinctKeys(r)
    ensures k !in Keys(d) ==> r == d + [(k, v)]
    ensures k in Keys(d) ==> |r| == |d| && forall i :: 0 <= i < |d| ==> r[i].0 == d[i].0
  {
    if d == [] then [(k, v)]
    else if d[0].0 == k then [(k, v)] + d[1..]
    else [d[0]] + Put(d[1..], k, v)
  }

  /** `delete d[k]`. */
  function Remove<V>(d: Dict<V>, k: Key): (r: Dict<V>)
    ensures Keys(r) == Keys(d) - {k}
    ensures DistinctKeys(d) ==> DistinctKeys(r)
    ensures forall k' :: Get(r, k') == if k' == k then None else Get(d, k')
    ensures k !in Keys(d) ==> r == d
  {
    if d == [] then []
    else if d[0].0 == k then Remove(d[1..], k)
    else
      assert d == [d[0]] + d[1..];
      [d[0]] + Remove(d[1..], k)
  }

  /** The position of the first entry of `k`. */
  function IndexOf<V>(d: Dict<V>, k: Key): (i: nat)
    requires k in Keys(d)
    ensures i < |d| && d[i].0 == k
  {
    if d[0].0 == k then 0 else 1 + IndexOf(d[1..], k)
  }

  /** `delete d[k]` takes out the one entry of `k` and leaves the other entries in their order. */
  lemma {:induction false} RemoveKeepsOrder<V>(d: Dict<V>, k: Key)
    requires DistinctKeys(d) && k in Keys(d)
    ensures Remove(d, k) == d[..IndexOf(d, k)] + d[IndexOf(d, k) + 1..]
    decreases |d|
  {
    var tail := d[1..];
    if d[0].0 == k {
      assert Remove(d, k) == tail;
    } else {
      assert k in Keys(tail) && DistinctKeys(tail);
      RemoveKeepsOrder(tail, k);
      var j := IndexOf(tail, k);
      assert IndexOf(d, k) == j + 1;
      assert d[..j + 1] == [d[0]] + tail[..j];
      assert d[j + 2..] == tail[j + 1..];
    }
  }

  /** With one entry per key, every entry is what a lookup of its key finds. */
  lemma {:induction false} GetEntry<V>(d: Dict<V>, i: nat)
    requires DistinctKeys(d) && i < |d|
    ensures Get(d, d[i].0) == Some(d[i].1)
    decreases i
  {
    if i > 0 {
      GetEntry(d[1..], i - 1);
      assert d[1..][i - 1] == d[i];
      assert d[i].0 in Keys(d[1..]);
    }
  }

  /** With one entry per key, there are as many entries as keys. */
  lemma {:induction false} KeysCount<V>(d: Dict<V>)
    requires DistinctKeys(d)
    ensures |Keys(d)| == |d|
    decreases |d|
  {
    if d != [] {
      KeysCount(d[1..]);
    }
  }
}
