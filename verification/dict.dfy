/**
 * Python's `dict`: a mapping that remembers the order in which its keys were
 * first inserted.  Assigning to a key already present replaces its value in
 * place, so the key keeps its original position.  The row batcher's insert
 * buffer and the SQL compiler's placeholder map both depend on that order.
 */
module Dict {
  import opened Base

  predicate DistinctKeys<K(==), V>(e: seq<(K, V)>)
  {
    forall i, j :: 0 <= i < j < |e| ==> e[i].0 != e[j].0
  }

  /** The items of a dict, in insertion order. */
  type Dict<K(==), V> = e: seq<(K, V)> | DistinctKeys(e) witness []

  /** `list(d.keys())` */
  function Keys<K(==), V>(d: Dict<K, V>): (ks: seq<K>)
    ensures |ks| == |d|
    ensures forall i :: 0 <= i < |d| ==> ks[i] == d[i].0
  {
    seq(|d|, i requires 0 <= i < |d| => d[i].0)
  }

  /** `list(d.values())` */
  function Values<K(==), V>(d: Dict<K, V>): (vs: seq<V>)
    ensures |vs| == |d|
    ensures forall i :: 0 <= i < |d| ==> vs[i] == d[i].1
  {
    seq(|d|, i requires 0 <= i < |d| => d[i].1)
  }

  /** The position of `k` among the keys, if it is one. */
  function IndexOf<K(==), V>(d: Dict<K, V>, k: K): (r: Option<nat>)
    ensures r.Some? ==> r.value < |d| && d[r.value].0 == k
    ensures r.None? <==> k !in Keys(d)
  {
    if |d| == 0 then None
    else if d[|d| - 1].0 == k then Some(|d| - 1)
    else
      var r := IndexOf(d[..|d| - 1], k);
      assert Keys(d) == Keys(d[..|d| - 1]) + [d[|d| - 1].0];
      r
  }

  /** `d.get(k)` */
  function Get<K(==), V>(d: Dict<K, V>, k: K): (r: Option<V>)
    ensures r.Some? <==> k in Keys(d)
    ensures forall i :: 0 <= i < |d| && d[i].0 == k ==> r == Some(d[i].1)
  {
    match IndexOf(d, k)
    case None => None
    case Some(i) => Some(d[i].1)
  }

  /** `d[k] = v` */
  function Put<K(==,!new), V>(d: Dict<K, V>, k: K, v: V): (r: Dict<K, V>)
    ensures Get(r, k) == Some(v)
    ensures forall k' :: k' != k ==> Get(r, k') == Get(d, k')
    ensures k in Keys(d) ==> Keys(r) == Keys(d)
    ensures k !in Keys(d) ==> Keys(r) == Keys(d) + [k]
    ensures k !in Keys(d) ==> r == d + [(k, v)]
  {
    match IndexOf(d, k)
    case Some(i) =>
      var r := d[i := (k, v)];
      assert Keys(r) == Keys(d);
      r
    case None =>
      var r := d + [(k, v)];
      assert Keys(r) == Keys(d) + [k];
      r
  }

  /**
   * `{v: k for k, v in d.items()}`: the later of two keys that share a value
   * wins, at the position where that value first appeared.
   */
  function Invert<K(==), V(==,!new)>(d: Dict<K, V>): (r: Dict<V, K>)
    ensures forall v :: v in Keys(r) <==> v in Values(d)
  {
    if |d| == 0 then []
    else
      var prefix := d[..|d| - 1];
      assert Values(d) == Values(prefix) + [d[|d| - 1].1];
      Put(Invert(prefix), d[|d| - 1].1, d[|d| - 1].0)
  }

  predicate DistinctValues<K(==), V(==)>(d: Dict<K, V>)
  {
    forall i, j :: 0 <= i < j < |d| ==> d[i].1 != d[j].1
  }

  /** Each value maps back to the last key that holds it. */
  lemma {:induction false} InvertGet<K, V(!new)>(d: Dict<K, V>, i: nat)
    requires i < |d|
    requires forall j :: i < j < |d| ==> d[j].1 != d[i].1
    ensures Get(Invert(d), d[i].1) == Some(d[i].0)
  {
    if i < |d| - 1 {
      InvertGet(d[..|d| - 1], i);
    }
  }

  /** With distinct values, inverting swaps every item and keeps the order. */
  lemma {:induction false} InvertSwaps<K(!new), V(!new)>(d: Dict<K, V>)
    requires DistinctValues(d)
    ensures |Invert(d)| == |d|
    ensures forall i :: 0 <= i < |d| ==> Invert(d)[i] == (d[i].1, d[i].0)
  {
    if |d| > 0 {
      var prefix := d[..|d| - 1];
      assert DistinctValues(prefix);
      InvertSwaps(prefix);
      LastValueIsNew(d);
      InvertSnoc(d);
      PutNewKey(Invert(prefix), d[|d| - 1].1, d[|d| - 1].0);
      SwappedSnoc(prefix, Invert(prefix), d[|d| - 1]);
      assert prefix + [d[|d| - 1]] == d;
    }
  }

  lemma LastValueIsNew<K, V>(d: Dict<K, V>)
    requires |d| > 0 && DistinctValues(d)
    ensures d[|d| - 1].1 !in Values(d[..|d| - 1])
  {
    var prefix := d[..|d| - 1];
    forall i | 0 <= i < |prefix|
      ensures prefix[i].1 != d[|d| - 1].1
    {
      assert prefix[i] == d[i];
    }
  }

  /** The inverse of a dict with one more item is the inverse so far with that item's value put. */
  lemma InvertSnoc<K, V(!new)>(d: Dict<K, V>)
    requires |d| > 0
    ensures Invert(d) == Put(Invert(d[..|d| - 1]), d[|d| - 1].1, d[|d| - 1].0)
  {
  }

  lemma PutNewKey<K(!new), V>(d: Dict<K, V>, k: K, v: V)
    requires k !in Keys(d)
    ensures Put(d, k, v) == d + [(k, v)]
  {
  }

  lemma SwappedSnoc<K, V>(d: Dict<K, V>, r: Dict<V, K>, item: (K, V))
    requires |r| == |d| && forall i :: 0 <= i < |d| ==> r[i] == (d[i].1, d[i].0)
    ensures var d' := d + [item]; var r' := r + [(item.1, item.0)];
            |r'| == |d'| && forall i :: 0 <= i < |d'| ==> r'[i] == (d'[i].1, d'[i].0)
  {
  }

  /** No later entry holds the value of entry `i`. */
  predicate LastWithValue<K, V(==)>(d: Dict<K, V>, i: nat)
    requires i < |d|
  {
    forall j :: i < j < |d| ==> d[j].1 != d[i].1
  }

  /** Every value maps back to the last key that holds it. */
  lemma InvertGetAll<K, V(!new)>(d: Dict<K, V>)
    ensures forall i :: 0 <= i < |d| && LastWithValue(d, i) ==> Get(Invert(d), d[i].1) == Some(d[i].0)
  {
    forall i | 0 <= i < |d| && LastWithValue(d, i)
      ensures Get(Invert(d), d[i].1) == Some(d[i].0)
    {
      InvertGet(d, i);
    }
  }

  /** Inverting twice gives back a dict whose values were distinct. */
  lemma InvertInvolution<K(!new), V(!new)>(d: Dict<K, V>)
    requires DistinctValues(d)
    ensures Invert(Invert(d)) == d
  {
    InvertSwaps(d);
    var r := Invert(d);
    assert DistinctValues(r);
    InvertSwaps(r);
  }
}
