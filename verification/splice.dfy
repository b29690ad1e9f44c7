/** Simultaneous interval replacement over a sequence, the arithmetic shared
    by `BytesEditor.apply`, `ByteCoverage.update` and comment insertion.

    The source computes the result in one pass: the kept slices
    `data[0:s0], data[e0:s1], …, data[e(n-1):len]` interleaved with the
    substitutes. `Apply` is that computation. Its partner, `ApplyFromLast`,
    performs one ordinary replacement at a time starting from the last
    interval; the two agree on every sorted, non-overlapping, in-range
    batch (`ApplyIsSequential`). */
module Splice {
  import opened Seqs

  /** Replace `data[start:end]` with `sub`. */
  datatype Edit<T> = Edit(start: nat, end: nat, sub: seq<T>)

  /** The kept slice starting at `pos`, then each edit's substitute followed
      by the kept slice after it, exactly as the source concatenates them
      (slices clamp, so nothing here needs the edits to be well formed). */
  function Gather<T>(d: seq<T>, es: seq<Edit<T>>, pos: nat): seq<T>
    decreases |es|
  {
    if |es| == 0 then Slice(d, pos, |d|)
    else Slice(d, pos, es[0].start) + es[0].sub + Gather(d, es[1..], es[0].end)
  }

  function Apply<T>(d: seq<T>, es: seq<Edit<T>>): seq<T>
  {
    Gather(d, es, 0)
  }

  /** The edits are sorted, pairwise non-overlapping, start at or after
      `pos` and end at or before `n`. */
  predicate Disjoint<T>(es: seq<Edit<T>>, pos: nat, n: nat)
    decreases |es|
  {
    |es| == 0 || (pos <= es[0].start <= es[0].end <= n && Disjoint(es[1..], es[0].end, n))
  }

  /** Net change in length, Σ (len(sub) − (end − start)). */
  function Delta<T>(es: seq<Edit<T>>): int
    decreases |es|
  {
    if |es| == 0 then 0 else |es[0].sub| - (es[0].end - es[0].start) + Delta(es[1..])
  }

  /** One ordinary replacement. */
  function ApplyOne<T>(d: seq<T>, e: Edit<T>): (r: seq<T>)
    requires e.start <= e.end <= |d|
    ensures |r| == |d| - (e.end - e.start) + |e.sub|
    ensures r[..e.start] == d[..e.start]
    ensures r[e.start..e.start + |e.sub|] == e.sub
    ensures r[e.start + |e.sub|..] == d[e.end..]
  {
    d[..e.start] + e.sub + d[e.end..]
  }

  /** Replacements one at a time, from the last interval backwards, so that
      no earlier interval has moved when it is replaced. */
  function ApplyFromLast<T>(d: seq<T>, es: seq<Edit<T>>): seq<T>
    requires Disjoint(es, 0, |d|)
    decreases |es|
  {
    if |es| == 0 then d
    else
      var init, e := es[..|es| - 1], es[|es| - 1];
      DisjointSnoc(init, e, 0, |d|);
      assert es == init + [e];
      var d' := ApplyOne(d, e);
      DisjointWeaken(init, 0, e.start, |d'|);
      ApplyFromLast(d', init)
  }

  // ---------------------------------------------------------------- lemmas

  lemma {:induction false} DisjointWeaken<T>(es: seq<Edit<T>>, pos: nat, m: nat, n: nat)
    requires Disjoint(es, pos, m) && m <= n
    ensures Disjoint(es, pos, n)
    decreases |es|
  {
    if |es| > 0 {
      DisjointWeaken(es[1..], es[0].end, m, n);
    }
  }

  lemma {:induction false} DisjointBounds<T>(es: seq<Edit<T>>, pos: nat, n: nat)
    requires Disjoint(es, pos, n)
    ensures forall i :: 0 <= i < |es| ==> pos <= es[i].start <= es[i].end <= n
    ensures |es| == 0 || pos <= n
    decreases |es|
  {
    if |es| > 0 {
      DisjointBounds(es[1..], es[0].end, n);
      forall i | 1 <= i < |es|
        ensures pos <= es[i].start
      {
        assert es[i] == es[1..][i - 1];
      }
    }
  }

  lemma {:induction false} DisjointSnoc<T>(es: seq<Edit<T>>, e: Edit<T>, pos: nat, n: nat)
    ensures Disjoint(es + [e], pos, n) <==> (Disjoint(es, pos, e.start) && pos <= e.start <= e.end <= n)
    decreases |es|
  {
    if |es| == 0 {
      assert [] + [e] == [e];
    } else {
      assert (es + [e])[1..] == es[1..] + [e];
      DisjointSnoc(es[1..], e, es[0].end, n);
      if Disjoint(es, pos, e.start) {
        DisjointBounds(es, pos, e.start);
      }
    }
  }

  /** Text appended after the last interval passes through unchanged. */
  lemma {:induction false} GatherAppend<T>(x: seq<T>, y: seq<T>, es: seq<Edit<T>>, pos: nat)
    requires Disjoint(es, pos, |x|) && pos <= |x|
    ensures Gather(x + y, es, pos) == Gather(x, es, pos) + y
    decreases |es|
  {
    if |es| == 0 {
      assert (x + y)[pos..] == x[pos..] + y;
    } else {
      assert Slice(x + y, pos, es[0].start) == Slice(x, pos, es[0].start);
      GatherAppend(x, y, es[1..], es[0].end);
    }
  }

  /** The last edit can be split off: everything before its interval is
      gathered from the truncated text. */
  lemma {:induction false} GatherSnoc<T>(d: seq<T>, es: seq<Edit<T>>, e: Edit<T>, pos: nat)
    requires Disjoint(es, pos, e.start) && pos <= e.start <= e.end <= |d|
    ensures Gather(d, es + [e], pos) == Gather(d[..e.start], es, pos) + e.sub + d[e.end..]
    decreases |es|
  {
    if |es| == 0 {
      assert [] + [e] == [e];
      assert Gather(d, [e], pos) == Slice(d, pos, e.start) + e.sub + Gather(d, [], e.end);
    } else {
      assert (es + [e])[1..] == es[1..] + [e];
      DisjointBounds(es, pos, e.start);
      GatherSnoc(d, es[1..], e, es[0].end);
      assert Slice(d, pos, es[0].start) == Slice(d[..e.start], pos, es[0].start);
    }
  }

  /** The one-pass splice equals replacing the intervals one at a time. */
  lemma {:induction false} ApplyIsSequential<T>(d: seq<T>, es: seq<Edit<T>>)
    requires Disjoint(es, 0, |d|)
    ensures Apply(d, es) == ApplyFromLast(d, es)
    decreases |es|
  {
    if |es| > 0 {
      var init, e := es[..|es| - 1], es[|es| - 1];
      assert es == init + [e];
      DisjointSnoc(init, e, 0, |d|);
      var d' := ApplyOne(d, e);
      DisjointWeaken(init, 0, e.start, |d'|);
      ApplyIsSequential(d', init);
      assert d' == d[..e.start] + (e.sub + d[e.end..]);
      GatherAppend(d[..e.start], e.sub + d[e.end..], init, 0);
      GatherSnoc(d, init, e, 0);
    }
  }

  lemma {:induction false} GatherLength<T>(d: seq<T>, es: seq<Edit<T>>, pos: nat)
    requires Disjoint(es, pos, |d|) && pos <= |d|
    ensures |Gather(d, es, pos)| == |d| - pos + Delta(es)
    decreases |es|
  {
    if |es| > 0 {
      GatherLength(d, es[1..], es[0].end);
    }
  }

  /** The length changes by exactly the net change of the batch. */
  lemma ApplyLength<T>(d: seq<T>, es: seq<Edit<T>>)
    requires Disjoint(es, 0, |d|)
    ensures |Apply(d, es)| == |d| + Delta(es)
  {
    GatherLength(d, es, 0);
  }

  /** Bytes before the first interval and after the last one are kept, and
      the last substitute ends `Delta` bytes away from where the last
      interval ended. */
  lemma ApplyKeepsOutside<T>(d: seq<T>, es: seq<Edit<T>>)
    requires Disjoint(es, 0, |d|) && |es| > 0
    ensures var r, first, last := Apply(d, es), es[0], es[|es| - 1];
      |r| == |d| + Delta(es) &&
      0 <= last.end + Delta(es) <= |r| &&
      r[..first.start] == d[..first.start] &&
      r[last.end + Delta(es)..] == d[last.end..]
  {
    var r, last := Apply(d, es), es[|es| - 1];
    ApplyLength(d, es);
    DisjointBounds(es, 0, |d|);
    var init := es[..|es| - 1];
    assert es == init + [last];
    DisjointSnoc(init, last, 0, |d|);
    GatherSnoc(d, init, last, 0);
    assert r[..es[0].start] == d[..es[0].start];
  }

  /** With no edits the data comes back unchanged: a second `apply` after the
      batch is cleared is a no-op. */
  lemma ApplyNothing<T>(d: seq<T>)
    ensures Apply(d, []) == d && Delta<T>([]) == 0
  {
  }

  // ------------------------------------------------------- coverage masks

  /** The coverage insertions: each interval becomes `[True] * (end − start)`. */
  function Mark<T>(e: Edit<T>): Edit<bool>
  {
    Edit(e.start, e.end, Repeat(true, e.end - e.start))
  }

  function Marks<T>(es: seq<Edit<T>>): (ms: seq<Edit<bool>>)
    ensures |ms| == |es|
    decreases |es|
  {
    if |es| == 0 then [] else [Mark(es[0])] + Marks(es[1..])
  }

  lemma {:induction false} MarksDisjoint<T>(es: seq<Edit<T>>, pos: nat, n: nat)
    ensures Disjoint(Marks(es), pos, n) == Disjoint(es, pos, n)
    decreases |es|
  {
    if |es| > 0 {
      assert Marks(es)[1..] == Marks(es[1..]);
      MarksDisjoint(es[1..], es[0].end, n);
    }
  }

  /** The number of not-yet-covered entries inside the intervals. */
  function Uncovered<T>(m: seq<bool>, es: seq<Edit<T>>): nat
    decreases |es|
  {
    if |es| == 0 then 0 else Count(Slice(m, es[0].start, es[0].end), false) + Uncovered(m, es[1..])
  }

  /** Some interval contains position `k`. */
  predicate Covers<T>(es: seq<Edit<T>>, k: nat)
  {
    exists i :: 0 <= i < |es| && es[i].start <= k < es[i].end
  }

  /** Marking a slice `b` as covered adds its uncovered entries to the
      count. */
  lemma MarkSliceCount(a: seq<bool>, b: seq<bool>, c: seq<bool>, rest: seq<bool>, u: nat)
    requires Count(rest, true) == Count(c, true) + u
    ensures Count(a + Repeat(true, |b|) + rest, true) == Count(a + b + c, true) + Count(b, false) + u
  {
    var t := Repeat(true, |b|);
    CountConcat(a + t, rest, true);
    CountConcat(a, t, true);
    CountRepeat(true, |b|);
    CountConcat(a + b, c, true);
    CountConcat(a, b, true);
    CountBoth(b);
  }

  lemma {:induction false} GatherMarksCount<T>(m: seq<bool>, es: seq<Edit<T>>, pos: nat)
    requires Disjoint(es, pos, |m|) && pos <= |m|
    ensures Count(Gather(m, Marks(es), pos), true) == Count(m[pos..], true) + Uncovered(m, es)
    decreases |es|
  {
    if |es| == 0 {
      assert Gather(m, Marks(es), pos) == m[pos..];
    } else {
      var e := es[0];
      var a, b, c := m[pos..e.start], m[e.start..e.end], m[e.end..];
      var rest := Gather(m, Marks(es[1..]), e.end);
      GatherMarksStep(m, es, pos);
      GatherMarksCount(m, es[1..], e.end);
      MarkSliceCount(a, b, c, rest, Uncovered(m, es[1..]));
    }
  }

  /** Gathering the marks of the first interval: the entries before it, then
      the interval all covered, then the rest. */
  lemma GatherMarksStep<T>(m: seq<bool>, es: seq<Edit<T>>, pos: nat)
    requires Disjoint(es, pos, |m|) && pos <= |m| && |es| > 0
    ensures pos <= es[0].start <= es[0].end <= |m| && Disjoint(es[1..], es[0].end, |m|)
    ensures Gather(m, Marks(es), pos) ==
      m[pos..es[0].start] + Repeat(true, |m[es[0].start..es[0].end]|) + Gather(m, Marks(es[1..]), es[0].end)
    ensures m[pos..] == m[pos..es[0].start] + m[es[0].start..es[0].end] + m[es[0].end..]
    ensures Uncovered(m, es) == Count(m[es[0].start..es[0].end], false) + Uncovered(m, es[1..])
  {
    GatherMarksHead(m, es, pos);
    UncoveredHead(m, es);
    assert |m[es[0].start..es[0].end]| == es[0].end - es[0].start;
    SplitThree(m, pos, es[0].start, es[0].end);
  }

  lemma SplitThree<T>(m: seq<T>, a: nat, b: nat, c: nat)
    requires a <= b <= c <= |m|
    ensures m[a..] == m[a..b] + m[b..c] + m[c..]
  {
  }

  lemma GatherMarksHead<T>(m: seq<bool>, es: seq<Edit<T>>, pos: nat)
    requires |es| > 0 && pos <= es[0].start <= es[0].end <= |m|
    ensures Gather(m, Marks(es), pos) ==
      m[pos..es[0].start] + Repeat(true, es[0].end - es[0].start) + Gather(m, Marks(es[1..]), es[0].end)
  {
    var e := es[0];
    assert Marks(es) == [Mark(e)] + Marks(es[1..]);
    assert Marks(es)[1..] == Marks(es[1..]);
    SliceInRange(m, pos, e.start);
  }

  lemma UncoveredHead<T>(m: seq<bool>, es: seq<Edit<T>>)
    requires |es| > 0 && es[0].start <= es[0].end <= |m|
    ensures Uncovered(m, es) == Count(m[es[0].start..es[0].end], false) + Uncovered(m, es[1..])
  {
    SliceInRange(m, es[0].start, es[0].end);
  }

  /** Updating a mask keeps its length and marks exactly the entries that
      were uncovered inside the intervals. */
  lemma CoverageCount<T>(m: seq<bool>, es: seq<Edit<T>>)
    requires Disjoint(es, 0, |m|)
    ensures |Apply(m, Marks(es))| == |m|
    ensures Count(Apply(m, Marks(es)), true) == Count(m, true) + Uncovered(m, es)
  {
    MarksDisjoint(es, 0, |m|);
    DisjointBounds(es, 0, |m|);
    ApplyLength(m, Marks(es));
    MarksNoDelta(es);
    GatherMarksCount(m, es, 0);
    assert m[0..] == m;
  }

  lemma {:induction false} MarksNoDelta<T>(es: seq<Edit<T>>)
    requires forall i :: 0 <= i < |es| ==> es[i].start <= es[i].end
    ensures Delta(Marks(es)) == 0
    decreases |es|
  {
    if |es| > 0 {
      assert Marks(es)[1..] == Marks(es[1..]);
      MarksNoDelta(es[1..]);
    }
  }

  /** Past the first interval, only the remaining intervals can cover. */
  lemma CoversRest<T>(es: seq<Edit<T>>, k: nat)
    requires |es| > 0 && es[0].end <= k
    ensures Covers(es, k) == Covers(es[1..], k)
  {
    if Covers(es, k) {
      var i :| 0 <= i < |es| && es[i].start <= k < es[i].end;
      assert es[1..][i - 1] == es[i];
    }
    if Covers(es[1..], k) {
      var i :| 0 <= i < |es[1..]| && es[1..][i].start <= k < es[1..][i].end;
      assert es[i + 1] == es[1..][i];
    }
  }

  /** Before the first interval nothing covers. */
  lemma CoversNotBefore<T>(es: seq<Edit<T>>, pos: nat, n: nat, k: nat)
    requires Disjoint(es, pos, n) && |es| > 0 && k < es[0].start
    ensures !Covers(es, k)
  {
    DisjointBounds(es[1..], es[0].end, n);
    forall i | 1 <= i < |es|
      ensures es[0].end <= es[i].start
    {
      assert es[i] == es[1..][i - 1];
    }
  }

  lemma GatherMarksLength<T>(m: seq<bool>, es: seq<Edit<T>>, pos: nat)
    requires Disjoint(es, pos, |m|) && pos <= |m|
    ensures |Gather(m, Marks(es), pos)| == |m| - pos
  {
    DisjointBounds(es, pos, |m|);
    MarksDisjoint(es, pos, |m|);
    MarksNoDelta(es);
    GatherLength(m, Marks(es), pos);
  }

  lemma {:induction false} GatherMarksAt<T>(m: seq<bool>, es: seq<Edit<T>>, pos: nat, k: nat)
    requires Disjoint(es, pos, |m|) && pos <= k < |m|
    ensures |Gather(m, Marks(es), pos)| == |m| - pos
    ensures Gather(m, Marks(es), pos)[k - pos] == (m[k] || Covers(es, k))
    decreases |es|
  {
    GatherMarksLength(m, es, pos);
    if |es| == 0 {
      assert Gather(m, Marks(es), pos) == m[pos..];
    } else {
      var e := es[0];
      var a, t := m[pos..e.start], Repeat(true, e.end - e.start);
      var rest := Gather(m, Marks(es[1..]), e.end);
      assert Gather(m, Marks(es), pos) == a + t + rest;
      if k < e.start {
        assert (a + t + rest)[k - pos] == m[k];
        CoversNotBefore(es, pos, |m|, k);
      } else if k < e.end {
        assert (a + t + rest)[k - pos] == t[k - e.start];
        assert es[0].start <= k < es[0].end;
      } else {
        GatherMarksAt(m, es[1..], e.end, k);
        assert (a + t + rest)[k - pos] == rest[k - e.end];
        CoversRest(es, k);
      }
    }
  }

  /** Updating a mask sets every entry inside an interval and leaves every
      other entry as it was. */
  lemma CoverageAt<T>(m: seq<bool>, es: seq<Edit<T>>, k: nat)
    requires Disjoint(es, 0, |m|) && k < |m|
    ensures |Apply(m, Marks(es))| == |m|
    ensures Apply(m, Marks(es))[k] == (m[k] || Covers(es, k))
  {
    GatherMarksAt(m, es, 0, k);
  }
}
