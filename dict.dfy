/**
 * A Python `dict` with string keys, which keeps its keys in insertion order:
 * a sequence of key/value entries. Assigning to a present key replaces its
 * value where it stands; assigning to a new key appends it.
 */
module Dict {
  import opened Optional

  datatype Entry<V> = Entry(key: string, value: V)

  /** The keys, in insertion order (`list(d)`). */
  function Keys<V>(d: seq<Entry<V>>): (ks: seq<string>)
    ensures |ks| == |d| && forall i :: 0 <= i < |d| ==> ks[i] == d[i].key
  {
    seq(|d|, i requires 0 <= i < |d| => d[i].key)
  }

  /** No key is stored twice, as in every Python dict. */
  predicate DistinctKeys<V>(d: seq<Entry<V>>) {
    forall i, j :: 0 <= i < j < |d| ==> d[i].key != d[j].key
  }

  /** The position of `k`: the first entry holding it, or `|d|` when `k` is absent. */
  function IndexOf<V>(d: seq<Entry<V>>, k: string): (i: nat)
    ensures i <= |d|
    ensures i < |d| ==> d[i].key == k
    ensures forall j :: 0 <= j < i ==> d[j].key != k
  {
    if d == [] then 0 else if d[0].key == k then 0 else 1 + IndexOf(d[1..], k)
  }

  /** `d.get(k)` */
  function Get<V>(d: seq<Entry<V>>, k: string): (r: Option<V>)
    ensures r.None? <==> forall i :: 0 <= i < |d| ==> d[i].key != k
    ensures r.Some? ==> exists i :: 0 <= i < |d| && d[i] == Entry(k, r.value)
  {
    var i := IndexOf(d, k);
    if i < |d| then Some(d[i].value) else None
  }

  /** Two dicts whose keys agree position by position place every present key at the same index. */
  lemma IndexOfSameKeys<V>(d: seq<Entry<V>>, e: seq<Entry<V>>, k: string)
    requires |d| <= |e|
    requires forall i :: 0 <= i < |d| ==> d[i].key == e[i].key
    requires IndexOf(d, k) < |d|
    ensures IndexOf(e, k) == IndexOf(d, k)
  {
  }

  /** The entry sequence that `d[k] = v` leaves behind. */
  function Assign<V>(d: seq<Entry<V>>, k: string, v: V): seq<Entry<V>>
  {
    var i := IndexOf(d, k);
    if i < |d| then d[i := Entry(k, v)] else d + [Entry(k, v)]
  }

  lemma AssignGet<V>(d: seq<Entry<V>>, k: string, v: V, k': string)
    ensures Get(Assign(d, k, v), k') == if k' == k then Some(v) else Get(d, k')
  {
    var r := Assign(d, k, v);
    var i := IndexOf(d, k);
    var j := IndexOf(d, k');
    if j < |d| {
      IndexOfSameKeys(d, r, k');
    } else if k' == k {
      assert r[i].key == k;
    }
  }

  /**
   * `d[k] = v`: afterwards `k` holds `v`, every other key keeps its value, the
   * key order is unchanged when `k` was present and gains `k` at the end when
   * it was not, and distinct keys stay distinct.
   */
  function Set<V>(d: seq<Entry<V>>, k: string, v: V): (r: seq<Entry<V>>)
    ensures Get(r, k) == Some(v)
    ensures forall k' :: k' != k ==> Get(r, k') == Get(d, k')
    ensures Get(d, k).Some? ==> Keys(r) == Keys(d)
    ensures Get(d, k).None? ==> Keys(r) == Keys(d) + [k]
    ensures DistinctKeys(d) ==> DistinctKeys(r)
  {
    var r := Assign(d, k, v);
    AssignGet(d, k, v, k);
    forall k' | k' != k
      ensures Get(r, k') == Get(d, k')
    {
      AssignGet(d, k, v, k');
    }
    r
  }
}
