/** Python `str` operations the modelled code relies on: `replace`, `split`,
    `join`, the `in` substring test, and conversion between naturals
    and digit strings (`str(n)` and `int(s, base)`). Each is defined the way
    CPython scans: left to right, leftmost non-overlapping occurrence first. */
module Strings {

  /** `s.replace(pat, rep)` */
  function ReplaceAll(s: string, pat: string, rep: string): string
    requires |pat| > 0
    decreases |s|
  {
    if |s| < |pat| then s
    else if s[..|pat|] == pat then rep + ReplaceAll(s[|pat|..], pat, rep)
    else [s[0]] + ReplaceAll(s[1..], pat, rep)
  }

  /** `t in s` */
  predicate Contains(s: string, t: string)
    decreases |s|
  {
    |s| >= |t| && (s[..|t|] == t || (|s| > 0 && Contains(s[1..], t)))
  }

  /** `sep.join(xs)` */
  function Join(xs: seq<string>, sep: string): string
    decreases |xs|
  {
    if |xs| == 0 then ""
    else if |xs| == 1 then xs[0]
    else xs[0] + sep + Join(xs[1..], sep)
  }

  /** `s.split(sep)`, with `cur` the piece collected so far. */
  function SplitFrom(s: string, sep: string, cur: string): (r: seq<string>)
    requires |sep| > 0
    ensures |r| > 0
    decreases |s|
  {
    if |s| < |sep| then [cur + s]
    else if s[..|sep|] == sep then [cur] + SplitFrom(s[|sep|..], sep, [])
    else SplitFrom(s[1..], sep, cur + [s[0]])
  }

  function Split(s: string, sep: string): (r: seq<string>)
    requires |sep| > 0
    ensures |r| > 0
  {
    SplitFrom(s, sep, [])
  }

  predicate Lacks(s: string, c: char)
  {
    forall i :: 0 <= i < |s| ==> s[i] != c
  }

  // ---------------------------------------------------------------- lemmas

  /** Text free of the first character of `pat` is copied unchanged, and
      no occurrence of `pat` can start inside it. */
  lemma {:induction false} ReplaceAllSkipsPrefix(x: string, t: string, pat: string, rep: string)
    requires |pat| > 0 && Lacks(x, pat[0])
    ensures ReplaceAll(x + t, pat, rep) == x + ReplaceAll(t, pat, rep)
    decreases |x|
  {
    if |x| > 0 {
      var s := x + t;
      assert s[1..] == x[1..] + t;
      ReplaceAllSkipsPrefix(x[1..], t, pat, rep);
      if |s| >= |pat| {
        assert s[..|pat|][0] == x[0];
      }
    } else {
      assert x + t == t;
    }
  }

  lemma ReplaceAllAbsent(x: string, pat: string, rep: string)
    requires |pat| > 0 && Lacks(x, pat[0])
    ensures ReplaceAll(x, pat, rep) == x
  {
    ReplaceAllSkipsPrefix(x, "", pat, rep);
    assert x + "" == x;
  }

  /** Replacing a single character distributes over concatenation. */
  lemma {:induction false} ReplaceCharConcat(a: string, b: string, c: char, rep: string)
    ensures ReplaceAll(a + b, [c], rep) == ReplaceAll(a, [c], rep) + ReplaceAll(b, [c], rep)
    decreases |a|
  {
    if |a| == 0 {
      assert a + b == b;
    } else {
      var s := a + b;
      assert s[1..] == a[1..] + b;
      assert s[..1] == [a[0]];
      assert a[..1] == [a[0]];
      ReplaceCharConcat(a[1..], b, c, rep);
    }
  }

  lemma {:induction false} ReplaceCharJoin(xs: seq<string>, sep: string, c: char, rep: string)
    requires Lacks(sep, c)
    ensures ReplaceAll(Join(xs, sep), [c], rep) == Join(ReplaceEach(xs, c, rep), sep)
    decreases |xs|
  {
    if |xs| > 1 {
      ReplaceCharConcat(xs[0] + sep, Join(xs[1..], sep), c, rep);
      ReplaceCharConcat(xs[0], sep, c, rep);
      ReplaceAllAbsent(sep, [c], rep);
      ReplaceCharJoin(xs[1..], sep, c, rep);
      assert ReplaceEach(xs, c, rep)[1..] == ReplaceEach(xs[1..], c, rep);
      assert xs[0] + sep + Join(xs[1..], sep) == (xs[0] + sep) + Join(xs[1..], sep);
    }
  }

  function ReplaceEach(xs: seq<string>, c: char, rep: string): (r: seq<string>)
    ensures |r| == |xs|
    ensures forall i :: 0 <= i < |xs| ==> r[i] == ReplaceAll(xs[i], [c], rep)
  {
    seq(|xs|, i requires 0 <= i < |xs| => ReplaceAll(xs[i], [c], rep))
  }

  lemma {:induction false} SplitFromLacking(x: string, sep: string, cur: string)
    requires |sep| > 0 && Lacks(x, sep[0])
    ensures SplitFrom(x, sep, cur) == [cur + x]
    decreases |x|
  {
    if |x| >= |sep| {
      assert x[..|sep|][0] == x[0];
      SplitFromLacking(x[1..], sep, cur + [x[0]]);
      assert cur + [x[0]] + x[1..] == cur + x;
    }
  }

  lemma {:induction false} SplitFromPiece(x: string, sep: string, t: string, cur: string)
    requires |sep| > 0 && Lacks(x, sep[0])
    ensures SplitFrom(x + sep + t, sep, cur) == [cur + x] + SplitFrom(t, sep, [])
    decreases |x|
  {
    var s := x + sep + t;
    if |x| == 0 {
      assert s == sep + t;
      assert s[..|sep|] == sep;
      assert s[|sep|..] == t;
      assert cur + x == cur;
    } else {
      assert s[..|sep|][0] == x[0];
      assert s[1..] == x[1..] + sep + t;
      SplitFromPiece(x[1..], sep, t, cur + [x[0]]);
      assert cur + [x[0]] + x[1..] == cur + x;
    }
  }

  /** `sep.join(xs).split(sep) == xs` when no piece holds the separator's
      first character. */
  lemma {:induction false} SplitJoin(xs: seq<string>, sep: string)
    requires |sep| > 0 && |xs| > 0
    requires forall i :: 0 <= i < |xs| ==> Lacks(xs[i], sep[0])
    ensures Split(Join(xs, sep), sep) == xs
    decreases |xs|
  {
    if |xs| == 1 {
      SplitFromLacking(xs[0], sep, []);
      assert [] + xs[0] == xs[0];
    } else {
      SplitFromPiece(xs[0], sep, Join(xs[1..], sep), []);
      SplitJoin(xs[1..], sep);
      assert [] + xs[0] == xs[0];
      assert xs == [xs[0]] + xs[1..];
    }
  }

  lemma {:induction false} NotContainsLacking(s: string, t: string)
    requires |t| > 0 && Lacks(s, t[0])
    ensures !Contains(s, t)
    decreases |s|
  {
    if |s| >= |t| {
      assert s[..|t|][0] == s[0];
      NotContainsLacking(s[1..], t);
    }
  }

  lemma {:induction false} ContainsMiddle(a: string, t: string, b: string)
    ensures Contains(a + t + b, t)
    decreases |a|
  {
    var s := a + t + b;
    if |a| == 0 {
      assert s[..|t|] == t;
    } else {
      assert s[1..] == a[1..] + t + b;
      ContainsMiddle(a[1..], t, b);
    }
  }

  /** `pat` occurs in `s` starting at `k`. */
  predicate MatchAt(s: string, k: nat, pat: string)
  {
    k + |pat| <= |s| && s[k..k + |pat|] == pat
  }

  /** `s.find(t, k)`: the first position from `k` on where `t` starts, or -1. */
  function FindFrom(s: string, t: string, k: nat): (r: int)
    ensures r == -1 || (k <= r && MatchAt(s, r, t))
    ensures r == -1 ==> forall j :: k <= j ==> !MatchAt(s, j, t)
    ensures r >= 0 ==> forall j :: k <= j < r ==> !MatchAt(s, j, t)
    decreases |s| - k
  {
    if k + |t| > |s| then -1
    else if s[k..k + |t|] == t then k
    else FindFrom(s, t, k + 1)
  }

  /** `s.find(t)` */
  function Find(s: string, t: string): (r: int)
    ensures r == -1 || (0 <= r && MatchAt(s, r, t))
  {
    FindFrom(s, t, 0)
  }

  /** A prefix at none of whose positions `pat` starts is copied as it is. */
  lemma {:induction false} ReplaceAllNoMatchPrefix(x: string, t: string, pat: string, rep: string)
    requires |pat| > 0 && forall k :: 0 <= k < |x| ==> !MatchAt(x + t, k, pat)
    ensures ReplaceAll(x + t, pat, rep) == x + ReplaceAll(t, pat, rep)
    decreases |x|
  {
    var s := x + t;
    if |x| == 0 {
      assert s == t;
    } else {
      assert !MatchAt(s, 0, pat);
      assert s[1..] == x[1..] + t;
      forall k | 0 <= k < |x| - 1
        ensures !MatchAt(x[1..] + t, k, pat)
      {
        assert !MatchAt(s, k + 1, pat);
        if k + |pat| <= |x[1..] + t| {
          assert s[k + 1..k + 1 + |pat|] == (x[1..] + t)[k..k + |pat|];
        }
      }
      ReplaceAllNoMatchPrefix(x[1..], t, pat, rep);
      if |s| < |pat| {
        ReplaceAllShort(t, pat, rep);
        ReplaceAllShort(x[1..] + t, pat, rep);
      }
    }
  }

  /** `t in s` fails when `t` starts at no position of `s`. */
  lemma {:induction false} NotContainsNoMatch(s: string, t: string)
    requires |t| > 0 && forall k :: 0 <= k < |s| ==> !MatchAt(s, k, t)
    ensures !Contains(s, t)
    decreases |s|
  {
    if |s| >= |t| {
      assert !MatchAt(s, 0, t);
      forall k | 0 <= k < |s| - 1
        ensures !MatchAt(s[1..], k, t)
      {
        assert !MatchAt(s, k + 1, t);
        if k + |t| <= |s| - 1 {
          assert s[k + 1..k + 1 + |t|] == s[1..][k..k + |t|];
        }
      }
      NotContainsNoMatch(s[1..], t);
    }
  }

  lemma ReplaceAllShort(s: string, pat: string, rep: string)
    requires |pat| > 0 && |s| < |pat|
    ensures ReplaceAll(s, pat, rep) == s
  {
  }

  /** A leading occurrence is replaced and the scan resumes after it. */
  lemma ReplaceAllHead(pat: string, t: string, rep: string)
    requires |pat| > 0
    ensures ReplaceAll(pat + t, pat, rep) == rep + ReplaceAll(t, pat, rep)
  {
    assert (pat + t)[..|pat|] == pat;
    assert (pat + t)[|pat|..] == t;
  }

  /** Replacing one character, one character at a time. */
  lemma ReplaceCharCons(c: char, t: string, p: char, rep: string)
    ensures ReplaceAll([c] + t, [p], rep) == (if c == p then rep else [c]) + ReplaceAll(t, [p], rep)
  {
    var s := [c] + t;
    assert s[..1] == [c];
    assert s[1..] == t;
  }

  /** A character neither in `s` nor in `rep` is not in the result. */
  lemma {:induction false} ReplaceKeepsLacking(s: string, pat: string, rep: string, d: char)
    requires |pat| > 0 && Lacks(s, d) && Lacks(rep, d)
    ensures Lacks(ReplaceAll(s, pat, rep), d)
    decreases |s|
  {
    if |s| >= |pat| {
      if s[..|pat|] == pat {
        ReplaceKeepsLacking(s[|pat|..], pat, rep, d);
      } else {
        ReplaceKeepsLacking(s[1..], pat, rep, d);
      }
    }
  }

  /** Replacing a character by text without it removes it entirely. */
  lemma {:induction false} ReplaceCharRemoves(s: string, c: char, rep: string)
    requires Lacks(rep, c)
    ensures Lacks(ReplaceAll(s, [c], rep), c)
    decreases |s|
  {
    if |s| > 0 {
      ReplaceCharCons(s[0], s[1..], c, rep);
      assert s == [s[0]] + s[1..];
      ReplaceCharRemoves(s[1..], c, rep);
    }
  }

  lemma {:induction false} JoinLacks(xs: seq<string>, sep: string, c: char)
    requires Lacks(sep, c) && forall i :: 0 <= i < |xs| ==> Lacks(xs[i], c)
    ensures Lacks(Join(xs, sep), c)
    decreases |xs|
  {
    if |xs| > 1 {
      JoinLacks(xs[1..], sep, c);
    }
  }

  /** Text without the separator splits into itself. */
  lemma {:induction false} SplitFromNotContains(s: string, sep: string, cur: string)
    requires |sep| > 0 && !Contains(s, sep)
    ensures SplitFrom(s, sep, cur) == [cur + s]
    decreases |s|
  {
    if |s| >= |sep| {
      assert s[..|sep|] != sep;
      SplitFromNotContains(s[1..], sep, cur + [s[0]]);
      assert cur + [s[0]] + s[1..] == cur + s;
    }
  }

  // ------------------------------------------------------ digits and numbers

  /** The value of one digit character in any base up to 16, or 16 if the
      character is not a hexadecimal digit. */
  function DigitValue(c: char): nat
  {
    if '0' <= c <= '9' then c as nat - '0' as nat
    else if 'a' <= c <= 'f' then c as nat - 'a' as nat + 10
    else if 'A' <= c <= 'F' then c as nat - 'A' as nat + 10
    else 16
  }

  predicate IsDigitOf(c: char, base: nat)
  {
    DigitValue(c) < base
  }

  predicate AllDigitsOf(s: string, base: nat)
  {
    forall i :: 0 <= i < |s| ==> IsDigitOf(s[i], base)
  }

  /** `int(s, base)` for a string of digits (most significant first). */
  function DigitsValue(s: string, base: nat): nat
    decreases |s|
  {
    if |s| == 0 then 0
    else DigitsValue(s[..|s| - 1], base) * base + DigitValue(s[|s| - 1])
  }

  function DigitChar(d: nat): (c: char)
    requires d < 16
    ensures DigitValue(c) == d
  {
    if d < 10 then ('0' as nat + d) as char else ('a' as nat + d - 10) as char
  }

  /** The digits of `n` in `base`, most significant first, without leading
      zeros; `str(n)` when `base` is 10. */
  function ToDigits(n: nat, base: nat): (r: string)
    requires 2 <= base <= 16
    ensures |r| > 0 && AllDigitsOf(r, base)
    decreases n
  {
    if n < base then [DigitChar(n)]
    else
      var q, d := n / base, n % base;
      assert d < base && q < n by { DivBounds(n, base); }
      ToDigits(q, base) + [DigitChar(d)]
  }

  lemma DivBounds(n: nat, base: nat)
    requires 2 <= base <= n
    ensures n % base < base && n / base < n && (n / base) * base + n % base == n
  {
  }

  function NatToString(n: nat): string
  {
    ToDigits(n, 10)
  }

  /** Reading back the digits of `n` gives `n`. */
  lemma {:induction false} DigitsRoundTrip(n: nat, base: nat)
    requires 2 <= base <= 16
    ensures DigitsValue(ToDigits(n, base), base) == n
    decreases n
  {
    var s := ToDigits(n, base);
    if n >= base {
      var q := n / base;
      DivBounds(n, base);
      DigitsRoundTrip(q, base);
      assert s[..|s| - 1] == ToDigits(q, base);
      assert DigitValue(s[|s| - 1]) == n % base;
    }
  }

  lemma NatToStringRoundTrip(n: nat)
    ensures AllDigitsOf(NatToString(n), 10)
    ensures DigitsValue(NatToString(n), 10) == n
  {
    DigitsRoundTrip(n, 10);
  }
}
