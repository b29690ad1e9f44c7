/** Python's `sorted(xs, key=...)` for keys that compare as pairs of
    integers. The sort is stable: elements with equal keys keep their
    relative order, which matters whenever equal-key elements differ. */
module Sorting {

  type Key = (int, int)

  /** Tuple comparison `a <= b`. */
  predicate KeyLe(a: Key, b: Key)
  {
    a.0 < b.0 || (a.0 == b.0 && a.1 <= b.1)
  }

  predicate SortedBy<T>(s: seq<T>, key: T -> Key)
  {
    forall i, j :: 0 <= i < j < |s| ==> KeyLe(key(s[i]), key(s[j]))
  }

  /** Places `x` before the first element whose key is not below its own. */
  function Insert<T(==)>(x: T, s: seq<T>, key: T -> Key): (r: seq<T>)
    requires SortedBy(s, key)
    ensures SortedBy(r, key)
    ensures multiset(r) == multiset(s) + multiset{x}
    ensures |r| == |s| + 1 && (r[0] == x || (|s| > 0 && r[0] == s[0]))
    decreases |s|
  {
    if |s| == 0 then [x]
    else if KeyLe(key(x), key(s[0])) then [x] + s
    else
      assert s == [s[0]] + s[1..];
      var rest := Insert(x, s[1..], key);
      assert KeyLe(key(s[0]), key(rest[0]));
      [s[0]] + rest
  }

  function SortBy<T(==)>(s: seq<T>, key: T -> Key): (r: seq<T>)
    ensures SortedBy(r, key)
    ensures multiset(r) == multiset(s)
    decreases |s|
  {
    if |s| == 0 then []
    else
      assert s == [s[0]] + s[1..];
      Insert(s[0], SortBy(s[1..], key), key)
  }

  /** The elements of `s` whose key is `k`, in order. */
  function WithKey<T>(s: seq<T>, key: T -> Key, k: Key): seq<T>
  {
    if |s| == 0 then []
    else (if key(s[0]) == k then [s[0]] else []) + WithKey(s[1..], key, k)
  }

  lemma {:induction false} InsertWithKey<T>(x: T, s: seq<T>, key: T -> Key, k: Key)
    requires SortedBy(s, key)
    ensures WithKey(Insert(x, s, key), key, k) == (if key(x) == k then [x] else []) + WithKey(s, key, k)
    decreases |s|
  {
    if |s| > 0 && !KeyLe(key(x), key(s[0])) {
      var rest := Insert(x, s[1..], key);
      assert Insert(x, s, key) == [s[0]] + rest;
      assert ([s[0]] + rest)[1..] == rest;
      InsertWithKey(x, s[1..], key, k);
      assert key(s[0]) != key(x);
      assert WithKey(s, key, k) == (if key(s[0]) == k then [s[0]] else []) + WithKey(s[1..], key, k);
    } else if |s| > 0 {
      assert ([x] + s)[1..] == s;
    }
  }

  /** Stability: sorting never reorders elements with equal keys. */
  lemma {:induction false} SortByStable<T>(s: seq<T>, key: T -> Key, k: Key)
    ensures WithKey(SortBy(s, key), key, k) == WithKey(s, key, k)
    decreases |s|
  {
    if |s| > 0 {
      SortByStable(s[1..], key, k);
      InsertWithKey(s[0], SortBy(s[1..], key), key, k);
    }
  }
}
