/** Python list and bytes operations on sequences: clamped slicing,
    `count`, `[x] * n`, `list.remove`, and sums of integer sequences. */
module Seqs {

  function Min(a: int, b: int): int { if a <= b then a else b }

  function Max(a: int, b: int): int { if a <= b then b else a }

  /** `s[i:j]` for non-negative bounds: clamped to the sequence, and empty
      when `j <= i`. */
  function Slice<T>(s: seq<T>, i: nat, j: nat): (r: seq<T>)
    ensures |r| == (if i < j && i < |s| then Min(j, |s|) - i else 0)
    ensures forall k :: 0 <= k < |r| ==> r[k] == s[i + k]
  {
    if j <= i || |s| <= i then [] else s[i..Min(j, |s|)]
  }

  lemma SliceInRange<T>(s: seq<T>, i: nat, j: nat)
    requires i <= j <= |s|
    ensures Slice(s, i, j) == s[i..j]
  {
  }

  /** `s.count(x)` */
  function Count<T(==)>(s: seq<T>, x: T): nat
  {
    if |s| == 0 then 0 else (if s[0] == x then 1 else 0) + Count(s[1..], x)
  }

  lemma {:induction false} CountConcat<T>(a: seq<T>, b: seq<T>, x: T)
    ensures Count(a + b, x) == Count(a, x) + Count(b, x)
    decreases |a|
  {
    if |a| == 0 {
      assert a + b == b;
    } else {
      assert (a + b)[1..] == a[1..] + b;
      CountConcat(a[1..], b, x);
    }
  }

  /** An element that does not occur is counted zero times. */
  lemma {:induction false} CountAbsent<T>(s: seq<T>, x: T)
    requires x !in s
    ensures Count(s, x) == 0
    decreases |s|
  {
    if |s| > 0 {
      CountAbsent(s[1..], x);
    }
  }

  /** `[x] * n`: empty when `n` is not positive. */
  function Repeat<T>(x: T, n: int): (r: seq<T>)
    ensures |r| == Max(n, 0)
    ensures forall k :: 0 <= k < |r| ==> r[k] == x
    decreases n
  {
    if n <= 0 then [] else [x] + Repeat(x, n - 1)
  }

  lemma {:induction false} CountRepeat<T>(x: T, n: nat)
    ensures Count(Repeat(x, n), x) == n
    decreases n
  {
    if n > 0 {
      assert Repeat(x, n)[1..] == Repeat(x, n - 1);
      CountRepeat(x, n - 1);
    }
  }

  /** In a two-valued sequence every element is one or the other. */
  lemma {:induction false} CountBoth(s: seq<bool>)
    ensures Count(s, true) + Count(s, false) == |s|
    decreases |s|
  {
    if |s| > 0 {
      CountBoth(s[1..]);
      assert Count(s, true) == (if s[0] then 1 else 0) + Count(s[1..], true);
      assert Count(s, false) == (if s[0] then 0 else 1) + Count(s[1..], false);
    }
  }

  /** `s.remove(x)`: drops the first element equal to `x`. */
  function RemoveFirst<T(==)>(s: seq<T>, x: T): (r: seq<T>)
    requires x in s
    ensures multiset(r) == multiset(s) - multiset{x}
    ensures |r| == |s| - 1
  {
    if s[0] == x then
      assert s == [s[0]] + s[1..];
      s[1..]
    else
      assert s == [s[0]] + s[1..];
      [s[0]] + RemoveFirst(s[1..], x)
  }

  function Sum(s: seq<int>): int
  {
    if |s| == 0 then 0 else s[0] + Sum(s[1..])
  }

  /** `a` is `b` with some elements dropped: every element of `a` lies in
      `b`, in the same order. */
  predicate IsSubsequence<T(==)>(a: seq<T>, b: seq<T>)
    decreases |b|
  {
    |a| == 0 || (|b| > 0 && ((a[0] == b[0] && IsSubsequence(a[1..], b[1..])) || IsSubsequence(a, b[1..])))
  }

  /** No element occurs twice. */
  predicate Distinct<T(==)>(s: seq<T>)
  {
    forall i, j :: 0 <= i < j < |s| ==> s[i] != s[j]
  }

  function Elements<T>(s: seq<T>): set<T>
  {
    set x | x in s
  }

  function Below(n: nat): (r: set<nat>)
    ensures forall i: nat :: i in r <==> i < n
    ensures |r| == n
  {
    if n == 0 then {} else Below(n - 1) + {n - 1}
  }

  lemma DistinctCons<T>(x: T, s: seq<T>)
    requires Distinct(s) && x !in s
    ensures Distinct([x] + s)
  {
    forall i, j | 0 <= i < j < |[x] + s|
      ensures ([x] + s)[i] != ([x] + s)[j]
    {
      if i > 0 {
        assert ([x] + s)[i] == s[i - 1];
      }
      assert ([x] + s)[j] == s[j - 1];
    }
  }

  lemma {:induction false} SubsetCard<T>(a: set<T>, b: set<T>)
    requires a <= b
    ensures |a| <= |b|
    decreases |a|
  {
    if a != {} {
      var x :| x in a;
      SubsetCard(a - {x}, b - {x});
    }
  }

  lemma {:induction false} DistinctCard<T>(s: seq<T>)
    requires Distinct(s)
    ensures |Elements(s)| == |s|
    decreases |s|
  {
    if |s| > 0 {
      DistinctCard(s[1..]);
      assert Elements(s) == {s[0]} + Elements(s[1..]);
      assert s[0] !in Elements(s[1..]);
    }
  }

  /** Fewer than `n` distinct indices below `n` leave some index out. */
  lemma MissingIndex(chosen: seq<nat>, n: nat)
    requires Distinct(chosen) && |chosen| < n
    ensures exists i :: 0 <= i < n && i !in chosen
  {
    if forall i :: 0 <= i < n ==> i in chosen {
      assert Below(n) <= Elements(chosen);
      SubsetCard(Below(n), Elements(chosen));
      DistinctCard(chosen);
    }
  }

  /** Two members of a multiset that differ, or one member occurring twice,
      sit at two different positions. */
  lemma TwoPositions<T>(s: seq<T>, a: T, b: T) returns (p: nat, q: nat)
    requires a in multiset(s) && b in multiset(s) && (a != b || multiset(s)[a] > 1)
    ensures p < |s| && q < |s| && p != q && s[p] == a && s[q] == b
  {
    p :| 0 <= p < |s| && s[p] == a;
    var rest := s[..p] + s[p + 1..];
    assert s == s[..p] + [s[p]] + s[p + 1..];
    assert b in multiset(rest);
    var r :| 0 <= r < |rest| && rest[r] == b;
    q := if r < p then r else r + 1;
  }

  /** Distinctness depends only on the multiset of elements. */
  lemma DistinctByMultiset<T>(s: seq<T>)
    ensures Distinct(s) <==> forall x :: multiset(s)[x] <= 1
  {
    if !Distinct(s) {
      var i, j :| 0 <= i < j < |s| && s[i] == s[j];
      assert s == s[..i] + [s[i]] + s[i + 1..j] + [s[j]] + s[j + 1..];
      assert multiset(s)[s[i]] > 1;
    }
    if exists x :: multiset(s)[x] > 1 {
      var x :| multiset(s)[x] > 1;
      var p, q := TwoPositions(s, x, x);
    }
  }

  lemma DistinctPermutation<T>(a: seq<T>, b: seq<T>)
    requires multiset(a) == multiset(b) && Distinct(a)
    ensures Distinct(b)
  {
    DistinctByMultiset(a);
    DistinctByMultiset(b);
  }
}
