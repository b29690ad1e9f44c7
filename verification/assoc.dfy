/** Python `dict` with its insertion order: a list of key/value pairs with
    distinct keys. Assigning to an existing key keeps its position;
    assigning to a new key appends it. */
module Assoc {
  import opened Wrappers
  import opened Seqs

  function Keys<K, V>(a: seq<(K, V)>): (r: seq<K>)
    ensures |r| == |a| && forall i :: 0 <= i < |a| ==> r[i] == a[i].0
  {
    seq(|a|, i requires 0 <= i < |a| => a[i].0)
  }

  /** `d.get(k)`: the value of the first pair with key `k`. */
  function Get<K(==), V(==)>(a: seq<(K, V)>, k: K): (r: Option<V>)
    ensures r.None? <==> k !in Keys(a)
    ensures r.Some? ==> exists i :: 0 <= i < |a| && a[i].0 == k && a[i].1 == r.value
  {
    if |a| == 0 then None
    else if a[0].0 == k then Some(a[0].1)
    else
      var r := Get(a[1..], k);
      assert Keys(a) == [a[0].0] + Keys(a[1..]);
      if r.Some? then
        var i :| 0 <= i < |a[1..]| && a[1..][i].0 == k && a[1..][i].1 == r.value;
        assert a[i + 1].0 == k && a[i + 1].1 == r.value;
        r
      else r
  }

  lemma KeysCons<K, V>(x: (K, V), s: seq<(K, V)>)
    ensures Keys([x] + s) == [x.0] + Keys(s)
  {
  }

  /** `d[k] = v` */
  function Put<K(==), V(==)>(a: seq<(K, V)>, k: K, v: V): (r: seq<(K, V)>)
    ensures Keys(r) == if k in Keys(a) then Keys(a) else Keys(a) + [k]
    ensures forall i :: 0 <= i < |a| && a[i].0 != k ==> r[i] == a[i]
  {
    if |a| == 0 then [(k, v)]
    else if a[0].0 == k then
      assert a == [a[0]] + a[1..];
      KeysCons(a[0], a[1..]);
      KeysCons((k, v), a[1..]);
      [(k, v)] + a[1..]
    else
      var rest := Put(a[1..], k, v);
      PutStepKeys(a, k, rest);
      PutStepKeeps(a, k, rest);
      [a[0]] + rest
  }

  lemma KeysHead<K, V>(a: seq<(K, V)>)
    requires |a| > 0
    ensures Keys(a) == [a[0].0] + Keys(a[1..])
  {
  }

  /** The keys after assigning past a head whose key differs. */
  lemma PutStepKeys<K, V>(a: seq<(K, V)>, k: K, rest: seq<(K, V)>)
    requires |a| > 0 && a[0].0 != k
    requires Keys(rest) == if k in Keys(a[1..]) then Keys(a[1..]) else Keys(a[1..]) + [k]
    ensures Keys([a[0]] + rest) == if k in Keys(a) then Keys(a) else Keys(a) + [k]
  {
    KeysHead(a);
    KeysCons(a[0], rest);
    if k !in Keys(a[1..]) {
      assert [a[0].0] + (Keys(a[1..]) + [k]) == ([a[0].0] + Keys(a[1..])) + [k];
    }
  }

  /** Pairs with other keys keep their places after assigning past the head. */
  lemma PutStepKeeps<K, V>(a: seq<(K, V)>, k: K, rest: seq<(K, V)>)
    requires |a| > 0 && |rest| >= |a| - 1
    requires forall i :: 0 <= i < |a| - 1 && a[1..][i].0 != k ==> rest[i] == a[1..][i]
    ensures forall i :: 1 <= i < |a| && a[i].0 != k ==> ([a[0]] + rest)[i] == a[i]
  {
    forall i | 1 <= i < |a| && a[i].0 != k
      ensures ([a[0]] + rest)[i] == a[i]
    {
      assert a[1..][i - 1] == a[i];
    }
  }

  lemma {:induction false} GetPut<K, V>(a: seq<(K, V)>, k: K, v: V, k2: K)
    ensures Get(Put(a, k, v), k2) == if k2 == k then Some(v) else Get(a, k2)
    decreases |a|
  {
    if |a| > 0 && a[0].0 != k {
      GetPut(a[1..], k, v, k2);
      assert Put(a, k, v)[1..] == Put(a[1..], k, v);
    }
  }

  /** Keys stay distinct under assignment. */
  lemma PutDistinct<K, V>(a: seq<(K, V)>, k: K, v: V)
    requires Distinct(Keys(a))
    ensures Distinct(Keys(Put(a, k, v)))
  {
  }
}
