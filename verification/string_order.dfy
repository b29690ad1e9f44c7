/** Python's ordering of `str` values (code point by code point, a proper
    prefix first) and `sorted` over lists of strings. Because the order is
    total, a sorted permutation is unique, so the result does not depend on
    the sorting algorithm. */
module StringOrder {

  /** `a < b` */
  predicate Less(a: string, b: string)
    decreases |a|
  {
    |b| > 0 && (|a| == 0 || a[0] < b[0] || (a[0] == b[0] && Less(a[1..], b[1..])))
  }

  /** `a <= b` */
  predicate AtMost(a: string, b: string)
  {
    a == b || Less(a, b)
  }

  predicate Sorted(s: seq<string>)
  {
    forall i, j :: 0 <= i < j < |s| ==> AtMost(s[i], s[j])
  }

  lemma {:induction false} LessAsymmetric(a: string, b: string)
    ensures !(Less(a, b) && Less(b, a))
    decreases |a|
  {
    if |a| > 0 && |b| > 0 && a[0] == b[0] {
      LessAsymmetric(a[1..], b[1..]);
    }
  }

  lemma {:induction false} LessTransitive(a: string, b: string, c: string)
    requires Less(a, b) && Less(b, c)
    ensures Less(a, c)
    decreases |a|
  {
    if |a| > 0 && a[0] == b[0] && b[0] == c[0] {
      LessTransitive(a[1..], b[1..], c[1..]);
    }
  }

  /** Any two different strings are ordered one way or the other. */
  lemma {:induction false} LessTotal(a: string, b: string)
    ensures a == b || Less(a, b) || Less(b, a)
    decreases |a|
  {
    if |a| > 0 && |b| > 0 && a[0] == b[0] {
      LessTotal(a[1..], b[1..]);
      if a[1..] == b[1..] {
        assert a == [a[0]] + a[1..] && b == [b[0]] + b[1..];
      }
    }
  }

  lemma AtMostTransitive(a: string, b: string, c: string)
    requires AtMost(a, b) && AtMost(b, c)
    ensures AtMost(a, c)
  {
    if a != b && b != c {
      LessTransitive(a, b, c);
    }
  }

  lemma AtMostAntisymmetric(a: string, b: string)
    requires AtMost(a, b) && AtMost(b, a)
    ensures a == b
  {
    LessAsymmetric(a, b);
  }

  /** Places `x` before the first element it does not exceed. */
  function Insert(x: string, s: seq<string>): (r: seq<string>)
    requires Sorted(s)
    ensures Sorted(r)
    ensures multiset(r) == multiset(s) + multiset{x}
    ensures |r| == |s| + 1
    decreases |s|
  {
    if |s| == 0 || AtMost(x, s[0]) then
      SortedCons(x, s);
      [x] + s
    else
      assert s == [s[0]] + s[1..];
      var rest := Insert(x, s[1..]);
      LessTotal(x, s[0]);
      SortedAfterHead(x, s, rest);
      [s[0]] + rest
  }

  /** An element no greater than the head of a sorted list can go first. */
  lemma SortedCons(x: string, s: seq<string>)
    requires Sorted(s) && (|s| == 0 || AtMost(x, s[0]))
    ensures Sorted([x] + s)
  {
    forall i, j | 0 <= i < j < |[x] + s|
      ensures AtMost(([x] + s)[i], ([x] + s)[j])
    {
      assert ([x] + s)[j] == s[j - 1];
      if i > 0 {
        assert ([x] + s)[i] == s[i - 1];
      } else if j > 1 {
        AtMostTransitive(x, s[0], s[j - 1]);
      }
    }
  }

  /** The head of a sorted list stays first when `x`, greater than it, is
      inserted among the others. */
  lemma SortedAfterHead(x: string, s: seq<string>, rest: seq<string>)
    requires Sorted(s) && |s| > 0 && AtMost(s[0], x)
    requires Sorted(rest) && multiset(rest) == multiset(s[1..]) + multiset{x}
    ensures Sorted([s[0]] + rest)
  {
    forall j | 0 <= j < |rest|
      ensures AtMost(s[0], rest[j])
    {
      assert rest[j] in multiset(rest);
      if rest[j] != x {
        assert rest[j] in multiset(s[1..]);
        var k :| 0 <= k < |s[1..]| && s[1..][k] == rest[j];
        assert s[k + 1] == rest[j];
      }
    }
    forall i, j | 0 <= i < j < |[s[0]] + rest|
      ensures AtMost(([s[0]] + rest)[i], ([s[0]] + rest)[j])
    {
      if i > 0 {
        assert ([s[0]] + rest)[i] == rest[i - 1];
      }
      assert ([s[0]] + rest)[j] == rest[j - 1];
    }
  }

  /** `sorted(s)` */
  function Sort(s: seq<string>): (r: seq<string>)
    ensures Sorted(r) && multiset(r) == multiset(s) && |r| == |s|
    decreases |s|
  {
    if |s| == 0 then []
    else
      assert s == [s[0]] + s[1..];
      Insert(s[0], Sort(s[1..]))
  }

  /** The first element of a non-empty sorted list is its least element. */
  lemma HeadIsLeast(s: seq<string>, x: string)
    requires Sorted(s) && x in multiset(s)
    ensures |s| > 0 && AtMost(s[0], x)
  {
    var k :| 0 <= k < |s| && s[k] == x;
  }

  /** Two sorted lists with the same elements start alike. */
  lemma SortedHeads(a: seq<string>, b: seq<string>)
    requires Sorted(a) && Sorted(b) && multiset(a) == multiset(b) && |a| > 0
    ensures |b| > 0 && a[0] == b[0]
    ensures multiset(a[1..]) == multiset(b[1..])
  {
    assert a[0] in multiset(b);
    HeadIsLeast(b, a[0]);
    assert b[0] in multiset(a);
    HeadIsLeast(a, b[0]);
    AtMostAntisymmetric(a[0], b[0]);
    assert a == [a[0]] + a[1..] && b == [b[0]] + b[1..];
    assert multiset(a[1..]) == multiset(a) - multiset{a[0]};
    assert multiset(b[1..]) == multiset(b) - multiset{a[0]};
  }

  /** Two sorted lists with the same elements are the same list. */
  lemma {:induction false} SortedUnique(a: seq<string>, b: seq<string>)
    requires Sorted(a) && Sorted(b) && multiset(a) == multiset(b)
    ensures a == b
    decreases |a|
  {
    if |a| == 0 {
      assert |multiset(b)| == 0;
    } else {
      SortedHeads(a, b);
      SortedUnique(a[1..], b[1..]);
      assert a == [a[0]] + a[1..] && b == [b[0]] + b[1..];
    }
  }

  /** `sorted` depends only on the elements, not on their order. */
  lemma SortByElements(a: seq<string>, b: seq<string>)
    requires multiset(a) == multiset(b)
    ensures Sort(a) == Sort(b)
  {
    SortedUnique(Sort(a), Sort(b));
  }
}
