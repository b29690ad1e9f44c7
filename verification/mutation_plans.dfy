/** The pure helpers the mutators of `core/mutators/heuristics.py` use to
    plan their edits: Verilog number literals and ranges, per-bit
    assignments, array references and declarations, the non-overlap filter
    of `MakeFunction` and the renaming bound of `DuplicateModule`.

    Random choices are parameters: `pick` functions stand for `randbelow`
    and `choice`, and a `sample` is given as the sampled list or as the
    chosen positions. */
module MutationPlans {
  import opened Wrappers
  import opened Seqs
  import opened Strings
  import opened Sorting
  import opened Splice
  import opened Combinatorics

  // ---------------------------------------------------------- parse_number

  /** `while s.startswith('(') and s.endswith(')'): s = s[1:-1]` */
  function StripParens(s: string): (t: string)
    ensures |t| <= |s|
    ensures !(|t| > 0 && t[0] == '(' && t[|t| - 1] == ')')
    decreases |s|
  {
    if |s| >= 2 && s[0] == '(' && s[|s| - 1] == ')' then StripParens(s[1..|s| - 1]) else s
  }

  /** `d[_d]*` over the digits of `base`. */
  predicate DigitsBody(s: string, base: nat)
  {
    |s| > 0 && IsDigitOf(s[0], base) && forall i :: 0 <= i < |s| ==> s[i] == '_' || IsDigitOf(s[i], base)
  }

  /** The optional size `([1-9][_\d]*)?` of a based literal. */
  predicate SizePrefix(s: string)
  {
    |s| == 0 || (s[0] != '0' && DigitsBody(s, 10))
  }

  /** The base a base letter selects, or 0 for any other character. */
  function BaseOf(c: char): nat
  {
    if c == 'd' || c == 'D' then 10
    else if c == 'b' || c == 'B' then 2
    else if c == 'o' || c == 'O' then 8
    else if c == 'h' || c == 'H' then 16
    else 0
  }

  /** The first position of `c` in `s`. */
  function IndexOf(s: string, c: char): (r: Option<nat>)
    ensures r.Some? ==> r.value < |s| && s[r.value] == c && Lacks(s[..r.value], c)
    ensures r.None? ==> Lacks(s, c)
  {
    if |s| == 0 then None
    else if s[0] == c then Some(0)
    else match IndexOf(s[1..], c)
      case None => None
      case Some(k) =>
        assert s[..k + 1] == [s[0]] + s[1..][..k];
        Some(k + 1)
  }

  /** `int(body.replace('_', ''), base)` */
  function BodyValue(body: string, base: nat): nat
  {
    DigitsValue(ReplaceAll(body, "_", ""), base)
  }

  /** Characters a literal accepted by `parse_number` can contain. */
  predicate LiteralChar(c: char)
  {
    IsDigitOf(c, 16) || c == '_' || c == '\'' || c == 's' || c == 'S' || BaseOf(c) > 0
  }

  /** `parse_number`: the first of UNSIGNED, DECIMAL, BINARY, OCTAL and HEX
      that matches the whole (unparenthesised) string, with `_` removed
      before conversion. */
  function ParseNumber(text: string): (r: Result<nat>)
    ensures r.Err? ==> r.error == NotImplementedError
    ensures r.Ok? ==> var t := StripParens(text); |t| > 0 && forall i :: 0 <= i < |t| ==> LiteralChar(t[i])
  {
    var s := StripParens(text);
    if DigitsBody(s, 10) then Ok(BodyValue(s, 10))
    else match IndexOf(s, '\'')
      case None => Err(NotImplementedError)
      case Some(q) =>
        var size, rest := s[..q], s[q + 1..];
        var r := if |rest| > 0 && (rest[0] == 's' || rest[0] == 'S') then rest[1..] else rest;
        if SizePrefix(size) && |r| > 0 && BaseOf(r[0]) > 0 && DigitsBody(r[1..], BaseOf(r[0])) then
          LiteralShape(s, q, rest, r);
          Ok(BodyValue(r[1..], BaseOf(r[0])))
        else Err(NotImplementedError)
  }

  /** Every character of an accepted based literal is a literal character. */
  lemma LiteralShape(s: string, q: nat, rest: string, r: string)
    requires q < |s| && s[q] == '\'' && rest == s[q + 1..]
    requires SizePrefix(s[..q])
    requires r == rest || (|rest| > 0 && (rest[0] == 's' || rest[0] == 'S') && r == rest[1..])
    requires |r| > 0 && BaseOf(r[0]) > 0 && DigitsBody(r[1..], BaseOf(r[0]))
    ensures forall i :: 0 <= i < |s| ==> LiteralChar(s[i])
  {
    var off := q + 1 + |rest| - |r|;
    forall i | 0 <= i < |s|
      ensures LiteralChar(s[i])
    {
      if i < q {
        assert s[i] == s[..q][i];
      } else if off < i {
        assert s[i] == rest[i - q - 1];
        assert rest[i - q - 1] == r[i - off];
        assert r[i - off] == r[1..][i - off - 1];
      } else if i == off {
        assert s[i] == r[0];
      } else if q < i {
        assert s[i] == rest[0];
      }
    }
  }

  lemma NoUnderscores(s: string, base: nat)
    requires 2 <= base <= 16 && AllDigitsOf(s, base)
    ensures ReplaceAll(s, "_", "") == s
  {
    assert Lacks(s, "_"[0]);
    ReplaceAllAbsent(s, "_", "");
  }

  /** Decimal text written by `str(n)` parses back to `n`. */
  lemma ParseUnsignedRoundTrip(n: nat)
    ensures ParseNumber(NatToString(n)) == Ok(n)
  {
    var s := NatToString(n);
    NatToStringRoundTrip(n);
    NoUnderscores(s, 10);
    assert DigitsBody(s, 10);
  }

  lemma {:induction false} QuoteAt(size: string, rest: string)
    requires Lacks(size, '\'')
    ensures IndexOf(size + "'" + rest, '\'') == Some(|size|)
    decreases |size|
  {
    var s := size + "'" + rest;
    if |size| > 0 {
      assert s[0] == size[0];
      assert s[1..] == size[1..] + "'" + rest;
      QuoteAt(size[1..], rest);
    }
  }

  /** The text after the quote of a based literal. */
  function AfterQuote(rest: string): Result<nat>
  {
    var r := if |rest| > 0 && (rest[0] == 's' || rest[0] == 'S') then rest[1..] else rest;
    if |r| > 0 && BaseOf(r[0]) > 0 && DigitsBody(r[1..], BaseOf(r[0])) then Ok(BodyValue(r[1..], BaseOf(r[0])))
    else Err(NotImplementedError)
  }

  lemma ParseBasedForm(size: string, rest: string)
    requires SizePrefix(size) && |rest| > 0 && rest[|rest| - 1] != ')'
    ensures ParseNumber(size + "'" + rest) == AfterQuote(rest)
  {
    var s := size + "'" + rest;
    assert s[|s| - 1] == rest[|rest| - 1];
    assert StripParens(s) == s;
    assert s[|size|] == '\'';
    assert !DigitsBody(s, 10);
    assert Lacks(size, '\'') by {
      forall i | 0 <= i < |size|
        ensures size[i] != '\''
      {
        assert IsDigitOf(size[i], 10) || size[i] == '_';
      }
    }
    QuoteAt(size, rest);
    assert s[..|size|] == size;
    assert s[|size| + 1..] == rest;
  }

  /** A based literal `<size>'[s]<b><digits of n>` parses back to `n`. */
  lemma ParseBasedRoundTrip(n: nat, size: string, signed: bool, b: char)
    requires SizePrefix(size) && BaseOf(b) > 0
    ensures ParseNumber(size + "'" + (if signed then "s" else "") + [b] + ToDigits(n, BaseOf(b))) == Ok(n)
  {
    var base := BaseOf(b);
    var digits := ToDigits(n, base);
    var sign := if signed then "s" else "";
    var rest := sign + [b] + digits;
    assert size + "'" + sign + [b] + digits == size + "'" + rest;
    DigitsRoundTrip(n, base);
    NoUnderscores(digits, base);
    assert DigitsBody(digits, base);
    assert rest[|rest| - 1] == digits[|digits| - 1];
    ParseBasedForm(size, rest);
    AfterQuoteOf(sign, b, digits);
  }

  /** The text after the quote: an optional `s`, the base letter, and a
      body of digits in that base. */
  lemma AfterQuoteOf(sign: string, b: char, digits: string)
    requires sign == "" || sign == "s"
    requires BaseOf(b) > 0 && DigitsBody(digits, BaseOf(b))
    ensures AfterQuote(sign + [b] + digits) == Ok(BodyValue(digits, BaseOf(b)))
  {
    var rest := sign + [b] + digits;
    var r := if |rest| > 0 && (rest[0] == 's' || rest[0] == 'S') then rest[1..] else rest;
    assert b != 's' && b != 'S' by {
      assert BaseOf('s') == 0 && BaseOf('S') == 0;
    }
    assert r == [b] + digits;
    assert r[1..] == digits;
  }

  // ------------------------------------------------------------- _range_of

  /** The first newline at or after `p`, or the end of `s`. */
  function LineEnd(s: string, p: nat): (e: nat)
    requires p <= |s|
    ensures p <= e <= |s| && (e < |s| ==> s[e] == '\n')
    ensures forall k :: p <= k < e ==> s[k] != '\n'
    decreases |s| - p
  {
    if p == |s| || s[p] == '\n' then p else LineEnd(s, p + 1)
  }

  /** The last position in `[lo, hi)` holding `c`, or -1. */
  function LastIn(s: string, c: char, lo: nat, hi: nat): (r: int)
    requires lo <= hi <= |s|
    ensures r == -1 || (lo <= r < hi && s[r] == c)
    ensures forall k :: lo <= k < hi && r < k ==> s[k] != c
    decreases hi - lo
  {
    if hi == lo then -1 else if s[hi - 1] == c then hi - 1 else LastIn(s, c, lo, hi - 1)
  }

  datatype RangeMatch = RangeMatch(msb: string, lsb: string)

  /** `RANGE` = `\[(?P<msb>.*):(?P<lsb>.*)\]` tried at `p`. The dot stops at
      a newline and both groups are greedy, so the closing bracket is the
      last `]` on the line and the colon is the last `:` before it. Returns
      the match and the position just after it. */
  function RangeAt(s: string, p: nat): (r: Option<(RangeMatch, nat)>)
    requires p < |s|
    ensures r.Some? ==> p < r.value.1 <= |s|
  {
    if s[p] != '[' then None
    else
      var e := LineEnd(s, p + 1);
      var q := LastIn(s, ']', p + 1, e);
      if q < 0 then None
      else
        var c := LastIn(s, ':', p + 1, q);
        if c < 0 then None else Some((RangeMatch(s[p + 1..c], s[c + 1..q]), q + 1))
  }

  /** `RANGE.findall(s[p:])`: scan left to right, resuming after each match. */
  function FindRanges(s: string, p: nat): seq<RangeMatch>
    requires p <= |s|
    decreases |s| - p
  {
    if p == |s| then []
    else match RangeAt(s, p)
      case Some((m, next)) => [m] + FindRanges(s, next)
      case None => FindRanges(s, p + 1)
  }

  /** `_range_of` on the declared type text: exactly one `[msb:lsb]`, or
      NotImplementedError for scalars and for several matches. */
  function RangeOf(typeText: string): (r: Result<(string, string)>)
    ensures r.Err? ==> r.error == NotImplementedError
    ensures r.Ok? ==> (|FindRanges(typeText, 0)| == 1 &&
      r.value == (FindRanges(typeText, 0)[0].msb, FindRanges(typeText, 0)[0].lsb))
  {
    var found := FindRanges(typeText, 0);
    if |found| == 1 then Ok((found[0].msb, found[0].lsb)) else Err(NotImplementedError)
  }

  lemma {:induction false} SkipToBracket(s: string, p: nat, k: nat)
    requires p <= k <= |s| && forall i :: p <= i < k ==> s[i] != '['
    ensures FindRanges(s, p) == FindRanges(s, k)
    decreases k - p
  {
    if p < k {
      SkipToBracket(s, p + 1, k);
    }
  }

  lemma {:induction false} LastInIs(s: string, c: char, lo: nat, hi: nat, r: nat)
    requires lo <= r < hi <= |s| && s[r] == c && forall k :: r < k < hi ==> s[k] != c
    ensures LastIn(s, c, lo, hi) == r
    decreases hi
  {
    if hi - 1 != r {
      LastInIs(s, c, lo, hi - 1, r);
    }
  }

  lemma {:induction false} LineEndSkip(s: string, p: nat, k: nat)
    requires p <= k <= |s| && forall i :: p <= i < k ==> s[i] != '\n'
    ensures LineEnd(s, p) == LineEnd(s, k)
    decreases k - p
  {
    if p < k {
      LineEndSkip(s, p + 1, k);
    }
  }

  /** Range bounds the greedy pattern splits back out: the msb stays on
      one line and the lsb holds no colon, bracket or newline. */
  predicate RangeParts(msb: string, lsb: string)
  {
    Lacks(msb, '\n') && Lacks(lsb, ':') && Lacks(lsb, ']') && Lacks(lsb, '\n')
  }

  /** The text `[msb:lsb]` of a range. */
  function Bracketed(msb: string, lsb: string): (w: string)
    ensures |w| == |msb| + |lsb| + 3
  {
    "[" + msb + ":" + lsb + "]"
  }

  /** Where the parts of `[msb:lsb]` at `p` sit. */
  lemma BracketPieces(s: string, p: nat, msb: string, lsb: string)
    requires p + |msb| + |lsb| + 3 <= |s|
    requires s[p..p + |msb| + |lsb| + 3] == Bracketed(msb, lsb)
    ensures s[p] == '[' && s[p + 1 + |msb|] == ':' && s[p + |msb| + |lsb| + 2] == ']'
    ensures s[p + 1..p + 1 + |msb|] == msb && s[p + |msb| + 2..p + |msb| + |lsb| + 2] == lsb
  {
    var w := Bracketed(msb, lsb);
    assert forall k :: p <= k < p + |w| ==> s[k] == w[k - p];
    assert w[1..1 + |msb|] == msb;
    assert w[|msb| + 2..|msb| + 2 + |lsb|] == lsb;
    assert s[p + 1..p + 1 + |msb|] == w[1..1 + |msb|];
    assert s[p + |msb| + 2..p + |msb| + |lsb| + 2] == w[|msb| + 2..|msb| + 2 + |lsb|];
  }

  /** A bracketed range whose lsb holds no `:`, `]` or newline, followed on
      its line by no further `]`, is matched exactly. */
  lemma MatchHere(s: string, p: nat, msb: string, lsb: string)
    requires p + |msb| + |lsb| + 3 <= |s|
    requires s[p..p + |msb| + |lsb| + 3] == Bracketed(msb, lsb)
    requires RangeParts(msb, lsb)
    requires var q := p + |msb| + |lsb| + 2; forall k :: q < k < LineEnd(s, q + 1) ==> s[k] != ']'
    ensures FindRanges(s, p) == [RangeMatch(msb, lsb)] + FindRanges(s, p + |msb| + |lsb| + 3)
  {
    var q := p + |msb| + |lsb| + 2;
    BracketPieces(s, p, msb, lsb);
    MatchPieces(s, p, p + 1 + |msb|, q, msb, lsb);
    FindRangesAt(s, p, RangeMatch(msb, lsb), q + 1);
  }

  /** A match at `p` is the first one found from `p`. */
  lemma FindRangesAt(s: string, p: nat, m: RangeMatch, next: nat)
    requires p < |s| && RangeAt(s, p) == Some((m, next))
    ensures next <= |s| && FindRanges(s, p) == [m] + FindRanges(s, next)
  {
  }

  lemma MatchPieces(s: string, p: nat, c: nat, q: nat, msb: string, lsb: string)
    requires p < c < q < |s| && s[p] == '[' && s[c] == ':' && s[q] == ']'
    requires s[p + 1..c] == msb && s[c + 1..q] == lsb
    requires RangeParts(msb, lsb)
    requires forall k :: q < k < LineEnd(s, q + 1) ==> s[k] != ']'
    ensures RangeAt(s, p) == Some((RangeMatch(msb, lsb), q + 1))
  {
    forall k | p + 1 <= k <= q
      ensures s[k] != '\n'
    {
      if k < c {
        assert s[k] == s[p + 1..c][k - p - 1];
      } else if c < k < q {
        assert s[k] == s[c + 1..q][k - c - 1];
      }
    }
    LineEndSkip(s, p + 1, q + 1);
    LastInIs(s, ']', p + 1, LineEnd(s, p + 1), q);
    forall k | c < k < q
      ensures s[k] != ':'
    {
      assert s[k] == s[c + 1..q][k - c - 1];
    }
    LastInIs(s, ':', p + 1, q, c);
  }

  /** A type with one range, `pre[msb:lsb]post`, yields that range. */
  lemma RangeOfSingle(pre: string, msb: string, lsb: string, post: string)
    requires Lacks(pre, '[') && RangeParts(msb, lsb)
    requires Lacks(post, '[') && Lacks(post, ']')
    ensures RangeOf(pre + Bracketed(msb, lsb) + post) == Ok((msb, lsb))
  {
    var w := Bracketed(msb, lsb);
    var s := pre + w + post;
    var p, n := |pre|, |w|;
    assert s[..p] == pre && s[p..p + n] == w && s[p + n..] == post;
    SingleAt(s, p, msb, lsb);
  }

  lemma SingleAt(s: string, p: nat, msb: string, lsb: string)
    requires p + |msb| + |lsb| + 3 <= |s|
    requires Lacks(s[..p], '[') && s[p..p + |msb| + |lsb| + 3] == Bracketed(msb, lsb) && RangeParts(msb, lsb)
    requires Lacks(s[p + |msb| + |lsb| + 3..], '[') && Lacks(s[p + |msb| + |lsb| + 3..], ']')
    ensures FindRanges(s, 0) == [RangeMatch(msb, lsb)]
  {
    var e := p + |msb| + |lsb| + 3;
    assert FindRanges(s, 0) == FindRanges(s, p) by {
      forall i | 0 <= i < p
        ensures s[i] != '['
      {
        assert s[i] == s[..p][i];
      }
      SkipToBracket(s, 0, p);
    }
    assert FindRanges(s, p) == [RangeMatch(msb, lsb)] + FindRanges(s, e) by {
      forall k | e <= k < |s|
        ensures s[k] != ']'
      {
        assert s[k] == s[e..][k - e];
      }
      MatchHere(s, p, msb, lsb);
    }
    assert FindRanges(s, e) == [] by {
      forall k | e <= k < |s|
        ensures s[k] != '['
      {
        assert s[k] == s[e..][k - e];
      }
      SkipToBracket(s, e, |s|);
    }
  }

  /** A scalar type, with no `[` at all, is rejected. */
  lemma RangeOfScalar(typeText: string)
    requires Lacks(typeText, '[')
    ensures RangeOf(typeText) == Err(NotImplementedError)
  {
    SkipToBracket(typeText, 0, |typeText|);
  }

  /** A range that ends its line. */
  lemma MatchLine(s: string, p: nat, e: nat, msb: string, lsb: string)
    requires e == p + |msb| + |lsb| + 3 && e <= |s|
    requires s[p..e] == Bracketed(msb, lsb)
    requires RangeParts(msb, lsb)
    requires e == |s| || s[e] == '\n'
    ensures FindRanges(s, p) == [RangeMatch(msb, lsb)] + FindRanges(s, e)
  {
    assert LineEnd(s, e) == e;
    MatchHere(s, p, msb, lsb);
  }

  /** Two ranges on separate lines are rejected. */
  lemma RangeOfTwoLines(msb: string, lsb: string, msb': string, lsb': string)
    requires RangeParts(msb, lsb)
    requires RangeParts(msb', lsb')
    ensures RangeOf(Bracketed(msb, lsb) + "\n" + Bracketed(msb', lsb')).Err?
  {
    var w, w' := Bracketed(msb, lsb), Bracketed(msb', lsb');
    var s := w + "\n" + w';
    assert s[..|w|] == w && s[|w|] == '\n' && s[|w| + 1..] == w';
    TwoLines(s, |w|, msb, lsb, msb', lsb');
  }

  lemma TwoLines(s: string, n: nat, msb: string, lsb: string, msb': string, lsb': string)
    requires n == |msb| + |lsb| + 3 && n + 1 + |msb'| + |lsb'| + 3 == |s|
    requires s[..n] == Bracketed(msb, lsb) && s[n] == '\n' && s[n + 1..] == Bracketed(msb', lsb')
    requires RangeParts(msb, lsb)
    requires RangeParts(msb', lsb')
    ensures |FindRanges(s, 0)| == 2
  {
    FirstLine(s, n, msb, lsb);
    LastLine(s, n + 1, msb', lsb');
  }

  lemma FirstLine(s: string, n: nat, msb: string, lsb: string)
    requires n == |msb| + |lsb| + 3 && n < |s|
    requires s[..n] == Bracketed(msb, lsb) && s[n] == '\n'
    requires RangeParts(msb, lsb)
    ensures |FindRanges(s, 0)| == 1 + |FindRanges(s, n + 1)|
  {
    assert s[0..n] == s[..n];
    MatchLine(s, 0, n, msb, lsb);
    SkipToBracket(s, n, n + 1);
  }

  lemma LastLine(s: string, p: nat, msb: string, lsb: string)
    requires p + |msb| + |lsb| + 3 == |s|
    requires s[p..] == Bracketed(msb, lsb)
    requires RangeParts(msb, lsb)
    ensures |FindRanges(s, p)| == 1
  {
    assert s[p..|s|] == s[p..];
    MatchLine(s, p, |s|, msb, lsb);
    assert FindRanges(s, |s|) == [];
  }

  /** `_shape_of`: the parsed (msb, lsb) of a declaration. */
  function ShapeOf(typeText: string): (r: Result<(nat, nat)>)
    ensures r.Ok? ==> (RangeOf(typeText).Ok? &&
      ParseNumber(RangeOf(typeText).value.0) == Ok(r.value.0) &&
      ParseNumber(RangeOf(typeText).value.1) == Ok(r.value.1))
    ensures r.Err? ==> r.error == NotImplementedError
  {
    var range :- RangeOf(typeText);
    var msb :- ParseNumber(range.0);
    var lsb :- ParseNumber(range.1);
    Ok((msb, lsb))
  }

  lemma DigitsLack(s: string, base: nat, c: char)
    requires AllDigitsOf(s, base) && DigitValue(c) >= base
    ensures Lacks(s, c)
  {
  }

  /** `str(n)` of a natural never holds a colon, bracket or newline. */
  lemma DecimalRangeParts(a: nat, b: nat)
    ensures RangeParts(NatToString(a), NatToString(b))
  {
    NatToStringRoundTrip(a);
    NatToStringRoundTrip(b);
    DigitsLack(NatToString(a), 10, '\n');
    DigitsLack(NatToString(b), 10, ':');
    DigitsLack(NatToString(b), 10, ']');
    DigitsLack(NatToString(b), 10, '\n');
  }

  // ------------------------------------------------ make_bit_assignments

  /** One line `lhs[i] = (rhs) >> i;` built from the four remainders of the
      assignment text around the lvalue and the rvalue. */
  function BitAssignment(rem: seq<string>, index: string): string
    requires |rem| == 4
  {
    rem[0] + "[" + index + "]" + rem[1] + "(" + rem[2] + ") >> " + index + rem[3]
  }

  /** The lines for bits `lo ..= hi`, lowest first. */
  function BitLines(rem: seq<string>, lo: nat, hi: nat): (r: seq<string>)
    requires |rem| == 4 && lo <= hi
    ensures |r| == hi - lo + 1
    ensures forall k :: 0 <= k < |r| ==> r[k] == BitAssignment(rem, NatToString(lo + k))
  {
    seq(hi - lo + 1, k requires 0 <= k <= hi - lo => BitAssignment(rem, NatToString(lo + k)))
  }

  /** The four remainders: the text up to the end of the lvalue, between
      lvalue and rvalue, the rvalue itself, and the rest. Offsets are
      relative to the start of the assignment. */
  function Remainders(text: string, lvalueEnd: nat, rvalueStart: nat, rvalueEnd: nat): (rem: seq<string>)
    ensures |rem| == 4
  {
    [Slice(text, 0, lvalueEnd), Slice(text, lvalueEnd, rvalueStart),
     Slice(text, rvalueStart, rvalueEnd), Slice(text, rvalueEnd, |text|)]
  }

  /** `make_bit_assignments`: one shifted assignment per bit of the lvalue,
      joined by newlines and wrapped in `begin`/`end` for a non-blocking
      assignment. */
  function MakeBitAssignments(text: string, lvalueEnd: nat, rvalueStart: nat, rvalueEnd: nat,
                              msb: nat, lsb: nat, isNba: bool): string
  {
    var lines := BitLines(Remainders(text, lvalueEnd, rvalueStart, rvalueEnd), Min(msb, lsb), Max(msb, lsb));
    var body := Join(lines, "\n");
    if isNba then "\nbegin\n" + body + "\nend\n" else body
  }

  lemma {:induction false} JoinAppend(xs: seq<string>, ys: seq<string>, sep: string)
    requires |xs| > 0 && |ys| > 0
    ensures Join(xs + ys, sep) == Join(xs, sep) + sep + Join(ys, sep)
    decreases |xs|
  {
    if |xs| == 1 {
      assert (xs + ys)[1..] == ys;
    } else {
      assert (xs + ys)[1..] == xs[1..] + ys;
      JoinAppend(xs[1..], ys, sep);
    }
  }

  lemma BitLinesLackNewline(rem: seq<string>, lo: nat, hi: nat)
    requires |rem| == 4 && lo <= hi && forall i :: 0 <= i < 4 ==> Lacks(rem[i], '\n')
    ensures forall k :: 0 <= k < hi - lo + 1 ==> Lacks(BitLines(rem, lo, hi)[k], '\n')
  {
    forall k | 0 <= k < hi - lo + 1
      ensures Lacks(BitLines(rem, lo, hi)[k], '\n')
    {
      var index := NatToString(lo + k);
      NatToStringRoundTrip(lo + k);
      DigitsLack(index, 10, '\n');
      var line := BitAssignment(rem, index);
      assert line == rem[0] + "[" + index + "]" + rem[1] + "(" + rem[2] + ") >> " + index + rem[3];
    }
  }

  /** With remainders on one line each, splitting the result on newlines
      gives back exactly one line per bit between lsb and msb, with the
      bits in increasing order; a non-blocking block adds the `begin` and
      `end` lines and the empty pieces at both ends. */
  lemma BitAssignmentsLines(text: string, lvalueEnd: nat, rvalueStart: nat, rvalueEnd: nat,
                            msb: nat, lsb: nat, isNba: bool)
    requires Lacks(text, '\n')
    ensures var lines := BitLines(Remainders(text, lvalueEnd, rvalueStart, rvalueEnd), Min(msb, lsb), Max(msb, lsb));
      |lines| == Max(msb, lsb) - Min(msb, lsb) + 1 &&
      Split(MakeBitAssignments(text, lvalueEnd, rvalueStart, rvalueEnd, msb, lsb, isNba), "\n") ==
        (if isNba then ["", "begin"] + lines + ["end", ""] else lines)
  {
    var rem := Remainders(text, lvalueEnd, rvalueStart, rvalueEnd);
    RemaindersLackNewline(text, lvalueEnd, rvalueStart, rvalueEnd);
    var lo, hi := Min(msb, lsb), Max(msb, lsb);
    BitLinesLackNewline(rem, lo, hi);
    var lines := BitLines(rem, lo, hi);
    if isNba {
      WrappedSplit(lines);
    } else {
      SplitJoin(lines, "\n");
    }
  }

  lemma RemaindersLackNewline(text: string, lvalueEnd: nat, rvalueStart: nat, rvalueEnd: nat)
    requires Lacks(text, '\n')
    ensures forall i :: 0 <= i < 4 ==> Lacks(Remainders(text, lvalueEnd, rvalueStart, rvalueEnd)[i], '\n')
  {
    var rem := Remainders(text, lvalueEnd, rvalueStart, rvalueEnd);
    forall i | 0 <= i < 4
      ensures Lacks(rem[i], '\n')
    {
    }
  }

  /** Splitting a `begin`/`end` block gives back its lines, with the empty
      pieces before the first and after the last newline. */
  lemma WrappedSplit(lines: seq<string>)
    requires |lines| > 0 && forall i :: 0 <= i < |lines| ==> Lacks(lines[i], '\n')
    ensures Split("\nbegin\n" + Join(lines, "\n") + "\nend\n", "\n") == ["", "begin"] + lines + ["end", ""]
  {
    var body := Join(lines, "\n");
    JoinWrapped("", "begin", "end", "", lines, "\n");
    WrappedText(body);
    WordsLackNewline();
    WrappedLack("", "begin", "end", "", lines, '\n');
    SplitJoin(["", "begin"] + lines + ["end", ""], "\n");
  }

  lemma WrappedText(body: string)
    ensures "" + "\n" + "begin" + "\n" + body + "\n" + "end" + "\n" + "" == "\nbegin\n" + body + "\nend\n"
  {
  }

  lemma WordsLackNewline()
    ensures Lacks("", '\n') && Lacks("begin", '\n') && Lacks("end", '\n')
  {
  }

  lemma JoinWrapped(a: string, b: string, c: string, d: string, lines: seq<string>, sep: string)
    requires |lines| > 0
    ensures Join([a, b] + lines + [c, d], sep) == a + sep + b + sep + Join(lines, sep) + sep + c + sep + d
  {
    JoinAppend([a, b], lines, sep);
    JoinAppend([a, b] + lines, [c, d], sep);
    assert [a, b][1..] == [b] && [c, d][1..] == [d];
  }

  lemma WrappedLack(a: string, b: string, c: string, d: string, lines: seq<string>, ch: char)
    requires Lacks(a, ch) && Lacks(b, ch) && Lacks(c, ch) && Lacks(d, ch)
    requires forall i :: 0 <= i < |lines| ==> Lacks(lines[i], ch)
    ensures forall i :: 0 <= i < |[a, b] + lines + [c, d]| ==> Lacks(([a, b] + lines + [c, d])[i], ch)
  {
    var all := [a, b] + lines + [c, d];
    forall i | 0 <= i < |all|
      ensures Lacks(all[i], ch)
    {
      if 2 <= i < |all| - 2 {
        assert all[i] == lines[i - 2];
      }
    }
  }

  // ------------------------------------------ complete_ref, declarations

  /** `random.shuffle`: for `i` from the last index down to 1, swap `x[i]`
      with `x[j]` where `j = pick(i) % (i + 1)` stands for `randbelow(i+1)`. */
  function Shuffle<T>(x: seq<T>, pick: nat -> nat): (r: seq<T>)
    ensures |r| == |x| && multiset(r) == multiset(x)
  {
    ShuffleDown(x, |x|, pick)
  }

  function ShuffleDown<T>(x: seq<T>, n: nat, pick: nat -> nat): (r: seq<T>)
    requires n <= |x|
    ensures |r| == |x| && multiset(r) == multiset(x)
    decreases n
  {
    if n <= 1 then x
    else
      var i := n - 1;
      var j := pick(i) % (i + 1);
      var y := x[i := x[j]][j := x[i]];
      assert multiset(y) == multiset(x) by {
        SwapMultiset(x, i, j);
      }
      ShuffleDown(y, n - 1, pick)
  }

  lemma SwapMultiset<T>(x: seq<T>, i: nat, j: nat)
    requires i < |x| && j < |x|
    ensures multiset(x[i := x[j]][j := x[i]]) == multiset(x)
  {
    var y := x[i := x[j]];
    assert multiset(y) == multiset(x) - multiset{x[i]} + multiset{x[j]};
    assert y[j] == x[j];
    assert multiset(y[j := x[i]]) == multiset(y) - multiset{y[j]} + multiset{x[i]};
  }

  /** `range(n)` */
  function Range(n: nat): (r: seq<nat>)
    ensures |r| == n && forall k :: 0 <= k < n ==> r[k] == k
  {
    seq(n, k requires 0 <= k < n => k)
  }

  /** The index domains `range(s + 1)` of every dimension. */
  function Domains(shape: seq<nat>): (ds: seq<seq<nat>>)
    ensures |ds| == |shape| && forall k :: 0 <= k < |shape| ==> ds[k] == Range(shape[k] + 1)
  {
    seq(|shape|, k requires 0 <= k < |shape| => Range(shape[k] + 1))
  }

  /** The index tuples `complete_ref` references, in shuffled order. */
  function CompleteTuples(shape: seq<nat>, pick: nat -> nat): seq<seq<nat>>
  {
    Shuffle(Product(Domains(shape)), pick)
  }

  /** `id[i0][i1]...` */
  function Reference(id: string, t: seq<nat>): string
  {
    id + "[" + Join(seq(|t|, k requires 0 <= k < |t| => NatToString(t[k])), "][") + "]"
  }

  /** `complete_ref`: a concatenation `{...}` of every reference. */
  function CompleteRef(id: string, shape: seq<nat>, pick: nat -> nat): string
  {
    var ts := CompleteTuples(shape, pick);
    "{" + Join(seq(|ts|, k requires 0 <= k < |ts| => Reference(id, ts[k])), ",") + "}"
  }

  /** `Π (s + 1)` over the shape. */
  function Cells(shape: seq<nat>): nat
  {
    if |shape| == 0 then 1 else (shape[0] + 1) * Cells(shape[1..])
  }

  lemma {:induction false} CellsIsLengthProduct(shape: seq<nat>)
    ensures LengthProduct(Domains(shape)) == Cells(shape)
    decreases |shape|
  {
    if |shape| > 0 {
      assert Domains(shape)[1..] == Domains(shape[1..]);
      CellsIsLengthProduct(shape[1..]);
    }
  }

  lemma RangeDistinct(n: nat)
    ensures Distinct(Range(n))
  {
  }

  /** `complete_ref` names every cell of the array exactly once: a tuple is
      referenced iff it has one index per dimension within `0 ..= s`, there
      are no repeats, and there are `Π (s + 1)` references. */
  lemma CompleteRefCovers(shape: seq<nat>, pick: nat -> nat, t: seq<nat>)
    ensures t in CompleteTuples(shape, pick) <==> (|t| == |shape| && forall k :: 0 <= k < |t| ==> t[k] <= shape[k])
    ensures Distinct(CompleteTuples(shape, pick))
    ensures |CompleteTuples(shape, pick)| == Cells(shape)
  {
    var ds := Domains(shape);
    var all := Product(ds);
    assert t in CompleteTuples(shape, pick) <==> t in all by {
      assert t in multiset(CompleteTuples(shape, pick)) <==> t in multiset(all);
    }
    ProductMember(ds, t);
    if |t| == |shape| {
      forall k | 0 <= k < |t|
        ensures t[k] in ds[k] <==> t[k] <= shape[k]
      {
        if t[k] <= shape[k] {
          assert ds[k][t[k]] == t[k];
        }
      }
    }
    forall k | 0 <= k < |ds|
      ensures Distinct(ds[k])
    {
      RangeDistinct(shape[k] + 1);
    }
    ProductDistinct(ds);
    DistinctPermutation(all, CompleteTuples(shape, pick));
    CellsIsLengthProduct(shape);
  }

  /** `make_declaration_suffix`: each dimension declared `[0:s]` or, when
      `flip` says so, `[s:0]`. */
  function DeclaredRanges(shape: seq<nat>, flip: nat -> bool): (r: seq<(nat, nat)>)
    ensures |r| == |shape|
    ensures forall k :: 0 <= k < |shape| ==> r[k] == (if flip(k) then (shape[k], 0) else (0, shape[k]))
  {
    seq(|shape|, k requires 0 <= k < |shape| => if flip(k) then (shape[k], 0) else (0, shape[k]))
  }

  function DeclarationSuffix(shape: seq<nat>, flip: nat -> bool): string
  {
    Concat(seq(|shape|, k requires 0 <= k < |shape| =>
      var d := DeclaredRanges(shape, flip)[k]; Bracketed(NatToString(d.0), NatToString(d.1))))
  }

  function Concat(xs: seq<string>): string
  {
    if |xs| == 0 then "" else xs[0] + Concat(xs[1..])
  }

  /** Every index `complete_ref` uses lies inside the range the declaration
      gives its dimension, whichever way round that range is written. */
  lemma CompleteRefInDeclaration(shape: seq<nat>, flip: nat -> bool, pick: nat -> nat, t: seq<nat>)
    requires t in CompleteTuples(shape, pick)
    ensures |t| == |DeclaredRanges(shape, flip)|
    ensures forall k :: 0 <= k < |t| ==>
      var d := DeclaredRanges(shape, flip)[k]; Min(d.0, d.1) <= t[k] <= Max(d.0, d.1)
  {
    CompleteRefCovers(shape, pick, t);
  }

  /** A one-dimensional declaration suffix reads back, through `_shape_of`,
      as the range it declares. */
  lemma DeclarationShapeRoundTrip(size: nat, flip: nat -> bool)
    ensures ShapeOf(DeclarationSuffix([size], flip)) == Ok(DeclaredRanges([size], flip)[0])
  {
    var d := DeclaredRanges([size], flip)[0];
    var w := Bracketed(NatToString(d.0), NatToString(d.1));
    var pieces := seq(1, k requires 0 <= k < 1 =>
      var d := DeclaredRanges([size], flip)[k]; Bracketed(NatToString(d.0), NatToString(d.1)));
    assert pieces == [w];
    assert Concat([w]) == w + Concat([]);
    assert DeclarationSuffix([size], flip) == "" + w + "";
    DecimalRangeParts(d.0, d.1);
    assert "" + w + "" == w;
    RangeOfSingle("", NatToString(d.0), NatToString(d.1), "");
    ParseUnsignedRoundTrip(d.0);
    ParseUnsignedRoundTrip(d.1);
  }

  // ------------------------------------------------------ to_be_replaced

  /** A matched expression: a node identity and its byte interval. */
  datatype ExprNode = ExprNode(id: nat, start: nat, end: nat)

  predicate WellFormed(ns: seq<ExprNode>)
  {
    forall i :: 0 <= i < |ns| ==> ns[i].start <= ns[i].end
  }

  function StartKey(n: ExprNode): Key
  {
    (n.start, 0)
  }

  /** The scan over the start-sorted sample: a node is kept when it starts
      at or after the end of the last kept node, and dropped otherwise. */
  function Scan(sorted: seq<ExprNode>, minStart: nat): (r: (seq<ExprNode>, seq<ExprNode>))
    ensures multiset(r.0) + multiset(r.1) == multiset(sorted)
  {
    if |sorted| == 0 then ([], [])
    else
      var n := sorted[0];
      assert sorted == [n] + sorted[1..];
      if n.start >= minStart then
        var rest := Scan(sorted[1..], n.end);
        ([n] + rest.0, rest.1)
      else
        var rest := Scan(sorted[1..], minStart);
        (rest.0, [n] + rest.1)
  }

  /** Removes the first occurrence of each of `ys`, in turn. */
  function RemoveEach(xs: seq<ExprNode>, ys: seq<ExprNode>): (r: seq<ExprNode>)
    requires multiset(ys) <= multiset(xs)
    ensures multiset(r) == multiset(xs) - multiset(ys)
    decreases |ys|
  {
    if |ys| == 0 then xs
    else
      assert ys == [ys[0]] + ys[1..];
      assert ys[0] in multiset(xs);
      RemoveEach(RemoveFirst(xs, ys[0]), ys[1..])
  }

  /** Kept nodes follow each other without overlap, from `minStart` on. */
  predicate Chain(ns: seq<ExprNode>, minStart: nat)
  {
    |ns| == 0 || (ns[0].start >= minStart && Chain(ns[1..], ns[0].end))
  }

  /** `to_be_replaced` on an already drawn sample: the sample with every
      node that overlaps an earlier-starting kept node removed. */
  function ToBeReplaced(sampled: seq<ExprNode>): (r: seq<ExprNode>)
    ensures multiset(r) == multiset(Scan(SortBy(sampled, StartKey), 0).0)
    ensures multiset(r) <= multiset(sampled)
  {
    var sorted := SortBy(sampled, StartKey);
    var scanned := Scan(sorted, 0);
    RemoveEach(sampled, scanned.1)
  }

  lemma {:induction false} ScanChain(sorted: seq<ExprNode>, minStart: nat)
    ensures Chain(Scan(sorted, minStart).0, minStart)
    decreases |sorted|
  {
    if |sorted| > 0 {
      var n := sorted[0];
      if n.start >= minStart {
        ScanChain(sorted[1..], n.end);
        assert ([n] + Scan(sorted[1..], n.end).0)[1..] == Scan(sorted[1..], n.end).0;
      } else {
        ScanChain(sorted[1..], minStart);
      }
    }
  }

  lemma {:induction false} ChainOrdered(ns: seq<ExprNode>, minStart: nat)
    requires Chain(ns, minStart) && WellFormed(ns)
    ensures forall i, j :: 0 <= i < j < |ns| ==> ns[i].end <= ns[j].start
    ensures forall i :: 0 <= i < |ns| ==> minStart <= ns[i].start
    decreases |ns|
  {
    if |ns| > 0 {
      ChainOrdered(ns[1..], ns[0].end);
      forall i, j | 0 <= i < j < |ns|
        ensures ns[i].end <= ns[j].start
      {
        if i > 0 {
          assert ns[i] == ns[1..][i - 1] && ns[j] == ns[1..][j - 1];
        } else {
          assert ns[j] == ns[1..][j - 1];
        }
      }
      forall i | 0 < i < |ns|
        ensures minStart <= ns[i].start
      {
        assert ns[i] == ns[1..][i - 1];
      }
    }
  }

  predicate Apart(a: ExprNode, b: ExprNode)
  {
    a.end <= b.start || b.end <= a.start
  }

  lemma Twice<T>(s: seq<T>, p: nat, q: nat)
    requires p < q < |s| && s[p] == s[q]
    ensures multiset(s)[s[p]] > 1
  {
    assert s == s[..p] + [s[p]] + s[p + 1..q] + [s[q]] + s[q + 1..];
  }

  /** The expressions kept for replacement never overlap one another. */
  lemma ToBeReplacedApart(sampled: seq<ExprNode>)
    requires WellFormed(sampled)
    ensures var r := ToBeReplaced(sampled);
      forall p, q :: 0 <= p < |r| && 0 <= q < |r| && p != q ==> Apart(r[p], r[q])
  {
    var sorted := SortBy(sampled, StartKey);
    var kept := Scan(sorted, 0).0;
    ScanChain(sorted, 0);
    assert WellFormed(kept) by {
      forall i | 0 <= i < |kept|
        ensures kept[i].start <= kept[i].end
      {
        assert kept[i] in multiset(sorted);
      }
    }
    ChainOrdered(kept, 0);
    ReorderedApart(ToBeReplaced(sampled), kept);
  }

  lemma ReorderedApart(r: seq<ExprNode>, kept: seq<ExprNode>)
    requires multiset(r) == multiset(kept)
    requires forall i, j :: 0 <= i < j < |kept| ==> kept[i].end <= kept[j].start
    ensures forall p, q :: 0 <= p < |r| && 0 <= q < |r| && p != q ==> Apart(r[p], r[q])
  {
    forall p, q | 0 <= p < |r| && 0 <= q < |r| && p != q
      ensures Apart(r[p], r[q])
    {
      if p < q && r[p] == r[q] {
        Twice(r, p, q);
      } else if q < p && r[p] == r[q] {
        Twice(r, q, p);
      }
      assert r[p] in multiset(r) && r[q] in multiset(r);
      var i, j := TwoPositions(kept, r[p], r[q]);
    }
  }

  /** A node is dropped only when it starts inside a kept node that starts
      no later than it does. */
  lemma {:induction false} ScanDropsOverlaps(sorted: seq<ExprNode>, minStart: nat, last: Option<ExprNode>, x: ExprNode)
    requires SortedBy(sorted, StartKey)
    requires last.None? ==> minStart == 0
    requires last.Some? ==> last.value.end == minStart && forall i :: 0 <= i < |sorted| ==> last.value.start <= sorted[i].start
    requires x in Scan(sorted, minStart).1
    ensures exists k :: (k in Scan(sorted, minStart).0 || Some(k) == last) && k.start <= x.start < k.end
    decreases |sorted|
  {
    var n := sorted[0];
    var tail := sorted[1..];
    assert forall i :: 0 <= i < |tail| ==> n.start <= tail[i].start by {
      forall i | 0 <= i < |tail|
        ensures n.start <= tail[i].start
      {
        assert tail[i] == sorted[i + 1];
        assert KeyLe(StartKey(sorted[0]), StartKey(sorted[i + 1]));
      }
    }
    assert SortedBy(tail, StartKey);
    if n.start >= minStart {
      if x in Scan(tail, n.end).1 {
        ScanDropsOverlaps(tail, n.end, Some(n), x);
      }
    } else if x == n {
      assert last.Some?;
    } else {
      assert x in Scan(tail, minStart).1;
      forall i | 0 <= i < |tail|
        ensures last.Some? ==> last.value.start <= tail[i].start
      {
        assert tail[i] == sorted[i + 1];
      }
      ScanDropsOverlaps(tail, minStart, last, x);
    }
  }

  /** Everything `to_be_replaced` drops from the sample overlaps a node it
      keeps. */
  lemma ToBeReplacedDrops(sampled: seq<ExprNode>, x: ExprNode)
    requires x in Scan(SortBy(sampled, StartKey), 0).1
    ensures exists k :: k in Scan(SortBy(sampled, StartKey), 0).0 && k.start <= x.start < k.end
  {
    ScanDropsOverlaps(SortBy(sampled, StartKey), 0, None, x);
  }

  // ---------------------------------------------- replace_instantiations

  /** A draw `sample(range(n), k)` with `1 <= k <= n - 1`. */
  predicate ProperSample(chosen: seq<nat>, n: nat)
  {
    Distinct(chosen) && 1 <= |chosen| < n && forall k :: 0 <= k < |chosen| ==> chosen[k] < n
  }

  /** `replace_instantiations`: rename the module at the chosen
      instantiations, given as the spans of their module-name nodes; fewer
      than two instantiations raise NotImplementedError. */
  function ReplaceInstantiations(names: seq<(nat, nat)>, chosen: seq<nat>, newName: string): (r: Result<seq<Edit<char>>>)
    requires |names| >= 2 ==> ProperSample(chosen, |names|)
    ensures r.Err? <==> |names| < 2
    ensures r.Err? ==> r.error == NotImplementedError
    ensures r.Ok? ==> |r.value| == |chosen| && 1 <= |r.value| < |names|
    ensures r.Ok? ==> forall k :: 0 <= k < |r.value| ==>
      r.value[k] == Edit(names[chosen[k]].0, names[chosen[k]].1, newName)
    ensures r.Ok? ==> exists i :: 0 <= i < |names| && i !in chosen
  {
    if |names| < 2 then Err(NotImplementedError)
    else
      MissingIndex(chosen, |names|);
      Ok(seq(|chosen|, k requires 0 <= k < |chosen| => Edit(names[chosen[k]].0, names[chosen[k]].1, newName)))
  }
}
