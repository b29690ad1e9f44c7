/** The byte-level mutation engine of `core/mutators/heuristics.py`: the
    batch editor, byte-to-point conversion, the coverage mask and the
    mutant score.

    Data bytes are modelled one character per byte; tree-sitter nodes
    become plain `(start, end)` intervals. */
module Heuristics {
  import opened Wrappers
  import opened Seqs
  import opened Sorting
  import opened Splice

  const NEWLINE: char := '\n'
  const PRIORITY_COEFFICIENT: int := 100

  /** Replace `data[start_byte:end_byte]` with `substitute`. */
  type Replacement = Edit<char>

  // ------------------------------------------------------------ BytesEditor

  datatype BytesEditor = BytesEditor(data: string, replacements: seq<Replacement>, startByte: int, endByte: int)

  function ByStartEnd(r: Replacement): Key
  {
    (r.start, r.end)
  }

  /** Each replacement ends at or before the next one begins. */
  predicate EndsBeforeNext(rs: seq<Replacement>)
  {
    forall i :: 0 <= i < |rs| - 1 ==> rs[i].end <= rs[i + 1].start
  }

  predicate InRange(rs: seq<Replacement>, n: nat)
  {
    forall i :: 0 <= i < |rs| ==> rs[i].start <= rs[i].end <= n
  }

  /** `b` starts inside `a` in a way no ordering by (start, end) can make
      acceptable: either strictly inside, or at the same start with both
      intervals non-empty. */
  predicate Clash(a: Replacement, b: Replacement)
  {
    a.start <= b.start < a.end && (a.start < b.start || b.start < b.end)
  }

  /** No two members of the batch clash; a replacement listed twice counts
      as two members. Depends only on the multiset of replacements. */
  predicate NoClash(rs: seq<Replacement>)
  {
    forall a, b :: a in multiset(rs) && b in multiset(rs) && (a != b || multiset(rs)[a] > 1) ==> !Clash(a, b)
  }

  /** `BytesEditor(data, replacements)`: sort by (start, end), assert that
      neighbours do not overlap, then take the first start and last end
      (indexing an empty list fails). */
  function NewEditor(data: string, rs: seq<Replacement>): (r: Result<BytesEditor>)
    ensures |rs| == 0 ==> r == Err(IndexError)
    ensures r.Err? ==> r.error == IndexError || r.error == AssertionError
    ensures r.Ok? ==>
      var e := r.value;
      e.data == data && multiset(e.replacements) == multiset(rs) && |e.replacements| > 0 &&
      SortedBy(e.replacements, ByStartEnd) &&
      e.startByte == e.replacements[0].start && e.endByte == e.replacements[|e.replacements| - 1].end &&
      (forall i :: 0 <= i < |rs| ==> e.startByte <= rs[i].start)
    ensures InRange(rs, |data|) ==> (r.Ok? <==> |rs| > 0 && NoClash(rs))
    ensures InRange(rs, |data|) && r.Ok? ==>
      Disjoint(r.value.replacements, 0, |data|) &&
      forall i :: 0 <= i < |rs| ==> rs[i].end <= r.value.endByte
  {
    var sorted := SortBy(rs, ByStartEnd);
    if !EndsBeforeNext(sorted) then
      SortedCheck(rs, sorted, |data|);
      Err(AssertionError)
    else if |sorted| == 0 then Err(IndexError)
    else
      SortedCheck(rs, sorted, |data|);
      SortedFirst(rs, sorted);
      Ok(BytesEditor(data, sorted, sorted[0].start, sorted[|sorted| - 1].end))
  }

  lemma SortedFirst(rs: seq<Replacement>, sorted: seq<Replacement>)
    requires multiset(sorted) == multiset(rs) && SortedBy(sorted, ByStartEnd) && |sorted| > 0
    ensures forall i :: 0 <= i < |rs| ==> sorted[0].start <= rs[i].start
  {
    forall i | 0 <= i < |rs|
      ensures sorted[0].start <= rs[i].start
    {
      assert rs[i] in multiset(sorted);
      var j :| 0 <= j < |sorted| && sorted[j] == rs[i];
      assert j == 0 || KeyLe(ByStartEnd(sorted[0]), ByStartEnd(sorted[j]));
    }
  }

  /** What the neighbour check on the sorted batch means for well-formed
      replacements. */
  lemma SortedCheck(rs: seq<Replacement>, sorted: seq<Replacement>, n: nat)
    requires multiset(sorted) == multiset(rs) && SortedBy(sorted, ByStartEnd)
    ensures InRange(rs, n) ==> (EndsBeforeNext(sorted) <==> NoClash(rs))
    ensures InRange(rs, n) && EndsBeforeNext(sorted) && |sorted| > 0 ==>
      Disjoint(sorted, 0, n) && forall i :: 0 <= i < |rs| ==> rs[i].end <= sorted[|sorted| - 1].end
  {
    if InRange(rs, n) {
      SortedInRange(rs, sorted, n);
      CheckIsNoClash(sorted);
      assert NoClash(sorted) == NoClash(rs);
      if EndsBeforeNext(sorted) && |sorted| > 0 {
        ChainDisjoint(sorted, 0, n);
        ChainEnds(sorted);
        forall i | 0 <= i < |rs|
          ensures rs[i].end <= sorted[|sorted| - 1].end
        {
          assert rs[i] in multiset(sorted);
          var j :| 0 <= j < |sorted| && sorted[j] == rs[i];
        }
      }
    }
  }

  lemma SortedInRange(rs: seq<Replacement>, sorted: seq<Replacement>, n: nat)
    requires multiset(sorted) == multiset(rs) && InRange(rs, n)
    ensures InRange(sorted, n)
  {
    forall i | 0 <= i < |sorted|
      ensures sorted[i].start <= sorted[i].end <= n
    {
      assert sorted[i] in multiset(rs);
      var j :| 0 <= j < |rs| && rs[j] == sorted[i];
    }
  }

  /** Neighbour checks on a sorted batch give the splice's precondition. */
  lemma {:induction false} ChainDisjoint(s: seq<Replacement>, pos: nat, n: nat)
    requires EndsBeforeNext(s) && InRange(s, n) && (|s| > 0 ==> pos <= s[0].start)
    ensures Disjoint(s, pos, n)
    decreases |s|
  {
    if |s| > 0 {
      ChainDisjoint(s[1..], s[0].end, n);
    }
  }

  lemma ChainEnds(s: seq<Replacement>)
    requires EndsBeforeNext(s) && (forall i :: 0 <= i < |s| ==> s[i].start <= s[i].end) && |s| > 0
    ensures forall i :: 0 <= i < |s| ==> s[i].end <= s[|s| - 1].end
  {
    forall i | 0 <= i < |s|
      ensures s[i].end <= s[|s| - 1].end
    {
      ChainBound(s, i);
    }
  }

  lemma {:induction false} ChainBound(s: seq<Replacement>, i: nat)
    requires EndsBeforeNext(s) && (forall k :: 0 <= k < |s| ==> s[k].start <= s[k].end) && i < |s|
    ensures s[i].end <= s[|s| - 1].end
    decreases |s| - i
  {
    if i + 1 < |s| {
      ChainBound(s, i + 1);
    }
  }

  lemma {:induction false} ChainBefore(s: seq<Replacement>, i: nat, j: nat)
    requires EndsBeforeNext(s) && (forall k :: 0 <= k < |s| ==> s[k].start <= s[k].end) && i < j < |s|
    ensures s[i].end <= s[j].start
    decreases j - i
  {
    if i + 1 < j {
      ChainBefore(s, i + 1, j);
    }
  }

  /** On a sorted batch of well-formed replacements, the neighbour check
      passes exactly when no two members clash. */
  lemma CheckIsNoClash(s: seq<Replacement>)
    requires SortedBy(s, ByStartEnd) && (forall k :: 0 <= k < |s| ==> s[k].start <= s[k].end)
    ensures EndsBeforeNext(s) <==> NoClash(s)
  {
    if EndsBeforeNext(s) {
      forall a, b | a in multiset(s) && b in multiset(s) && (a != b || multiset(s)[a] > 1)
        ensures !Clash(a, b)
      {
        var p, q := TwoPositions(s, a, b);
        if p < q {
          ChainBefore(s, p, q);
        } else {
          ChainBefore(s, q, p);
        }
      }
    } else {
      var k :| 0 <= k < |s| - 1 && s[k].end > s[k + 1].start;
      assert Clash(s[k], s[k + 1]);
      if s[k] == s[k + 1] {
        assert s == s[..k] + [s[k], s[k]] + s[k + 2..];
        assert multiset(s)[s[k]] > 1;
      }
    }
  }

  /** `apply`: all replacements at once; `end_byte` moves by the change in
      length and the batch is cleared. */
  function ApplyEditor(e: BytesEditor): (r: BytesEditor)
    ensures r.replacements == [] && r.startByte == e.startByte
  {
    var newData := Apply(e.data, e.replacements);
    BytesEditor(newData, [], e.startByte, e.endByte + (|newData| - |e.data|))
  }

  /** The effect of building an editor and applying it: the length and
      `end_byte` move by Σ(len(substitute) − (end − start)), the bytes
      before `start_byte` and from the old `end_byte` on are kept, and the
      result is what replacing each interval in turn, last first, gives. */
  lemma ApplyEffect(data: string, rs: seq<Replacement>)
    requires InRange(rs, |data|) && NewEditor(data, rs).Ok?
    ensures var e := NewEditor(data, rs).value;
      var a := ApplyEditor(e);
      |a.data| == |data| + Delta(rs) &&
      a.endByte == e.endByte + Delta(rs) &&
      a.startByte == e.startByte &&
      0 <= e.startByte <= e.endByte <= |data| &&
      0 <= a.endByte <= |a.data| &&
      a.data[..e.startByte] == data[..e.startByte] &&
      a.data[a.endByte..] == data[e.endByte..] &&
      a.data == ApplyFromLast(data, e.replacements)
  {
    var e := NewEditor(data, rs).value;
    ApplyKeepsOutside(data, e.replacements);
    ApplyIsSequential(data, e.replacements);
    DeltaPermutation(e.replacements, rs);
    DisjointBounds(e.replacements, 0, |data|);
  }

  /** The net change does not depend on the order of the batch. */
  lemma {:induction false} DeltaPermutation(a: seq<Replacement>, b: seq<Replacement>)
    requires multiset(a) == multiset(b)
    ensures Delta(a) == Delta(b)
    decreases |a|
  {
    if |a| > 0 {
      assert a[0] in multiset(b);
      var i :| 0 <= i < |b| && b[i] == a[0];
      RemoveFirst(a, b, i);
      DeltaPermutation(a[1..], b[..i] + b[i + 1..]);
      DeltaWithout(b, i);
    }
  }

  /** Taking the first element from one list and an equal one from a
      permutation of it leaves permutations. */
  lemma RemoveFirst<T>(a: seq<T>, b: seq<T>, i: nat)
    requires multiset(a) == multiset(b) && |a| > 0 && i < |b| && b[i] == a[0]
    ensures multiset(a[1..]) == multiset(b[..i] + b[i + 1..])
  {
    var x := a[0];
    assert a == [x] + a[1..];
    assert b == b[..i] + [x] + b[i + 1..];
    assert multiset(a[1..]) == multiset(a) - multiset{x};
    assert multiset(b[..i] + b[i + 1..]) == multiset(b) - multiset{x};
  }

  /** The net change of a batch is that of one replacement plus that of the
      others. */
  lemma DeltaWithout(b: seq<Replacement>, i: nat)
    requires i < |b|
    ensures Delta(b) == |b[i].sub| - (b[i].end - b[i].start) + Delta(b[..i] + b[i + 1..])
  {
    var x := b[i];
    DeltaConcat(b[..i], [x] + b[i + 1..]);
    DeltaConcat(b[..i], b[i + 1..]);
    assert ([x] + b[i + 1..])[1..] == b[i + 1..];
    assert b[..i] + ([x] + b[i + 1..]) == b;
  }

  lemma {:induction false} DeltaConcat(a: seq<Replacement>, b: seq<Replacement>)
    ensures Delta(a + b) == Delta(a) + Delta(b)
    decreases |a|
  {
    if |a| > 0 {
      assert (a + b)[1..] == a[1..] + b;
      DeltaConcat(a[1..], b);
    } else {
      assert a + b == b;
    }
  }

  /** `apply` empties the batch, so applying again changes nothing. */
  lemma ApplyTwice(e: BytesEditor)
    ensures ApplyEditor(ApplyEditor(e)) == ApplyEditor(e)
  {
    var a := ApplyEditor(e);
    assert Apply(a.data, []) == Slice(a.data, 0, |a.data|) == a.data;
  }

  // -------------------------------------------------------- calculate_point

  /** `data.rfind(c, 0, hi)`: the last index below `hi` holding `c`, or -1. */
  function RFind(data: string, c: char, hi: nat): (r: int)
    requires hi <= |data|
    ensures -1 <= r < hi
    ensures r >= 0 ==> data[r] == c
    ensures forall k :: r < k < hi ==> data[k] != c
  {
    if hi == 0 then -1 else if data[hi - 1] == c then hi - 1 else RFind(data, c, hi - 1)
  }

  /** `calculate_point(data, offset)`: the line is the number of newlines
      before `offset`; the column counts from just after the last of them. */
  function CalculatePoint(data: string, offset: nat): (p: (int, int))
    ensures p.0 == Count(Slice(data, 0, offset), NEWLINE)
    ensures 0 <= p.1 <= offset
    ensures forall k :: offset - p.1 <= k < Min(offset, |data|) ==> data[k] != NEWLINE
    ensures p.1 < offset ==> offset - p.1 - 1 < |data| && data[offset - p.1 - 1] == NEWLINE
  {
    var line := Count(Slice(data, 0, offset), NEWLINE);
    var column := offset - (RFind(data, NEWLINE, Min(offset, |data|)) + 1);
    (line, column)
  }

  /** Walking the bytes one at a time: a newline starts the next line at
      column 0, anything else moves one column right. */
  function Walk(s: string): (int, int)
    decreases |s|
  {
    if |s| == 0 then (0, 0)
    else
      var p := Walk(s[..|s| - 1]);
      if s[|s| - 1] == NEWLINE then (p.0 + 1, 0) else (p.0, p.1 + 1)
  }

  /** Within the data, `calculate_point` agrees with walking the bytes. */
  lemma {:induction false} CalculatePointIsWalk(data: string, offset: nat)
    requires offset <= |data|
    ensures CalculatePoint(data, offset) == Walk(data[..offset])
    decreases offset
  {
    if offset > 0 {
      CalculatePointIsWalk(data, offset - 1);
      assert data[..offset][..offset - 1] == data[..offset - 1];
      assert Slice(data, 0, offset) == Slice(data, 0, offset - 1) + [data[offset - 1]];
      CountConcat(Slice(data, 0, offset - 1), [data[offset - 1]], NEWLINE);
    } else {
      assert Slice(data, 0, 0) == [];
    }
  }

  // ----------------------------------------------------------- ByteCoverage

  datatype ByteCoverage = ByteCoverage(covered: seq<bool>)

  /** A fresh mask for `[start_byte, end_byte)`: nothing covered yet. */
  function NewCoverage(startByte: int, endByte: int): (c: ByteCoverage)
    ensures |c.covered| == Max(endByte - startByte, 0)
    ensures Count(c.covered, true) == 0
  {
    CountRepeatOther(false, true, endByte - startByte);
    ByteCoverage(Repeat(false, endByte - startByte))
  }

  lemma {:induction false} CountRepeatOther<T>(x: T, y: T, n: int)
    requires x != y
    ensures Count(Repeat(x, n), y) == 0
    decreases n
  {
    if n > 0 {
      assert Repeat(x, n)[1..] == Repeat(x, n - 1);
      CountRepeatOther(x, y, n - 1);
    }
  }

  /** The first factor of `query`: per replacement, the uncovered bytes it
      touches plus its change in length. */
  function ToBeCovered(m: seq<bool>, rs: seq<Replacement>): int
    decreases |rs|
  {
    if |rs| == 0 then 0
    else Count(Slice(m, rs[0].start, rs[0].end), false) + |rs[0].sub| - (rs[0].end - rs[0].start) + ToBeCovered(m, rs[1..])
  }

  /** `query`: new coverage times current coverage. */
  function Query(c: ByteCoverage, rs: seq<Replacement>): int
  {
    ToBeCovered(c.covered, rs) * Count(c.covered, true)
  }

  /** `update`: every replaced interval becomes `[True] * (end − start)`,
      spliced exactly as `BytesEditor.apply` splices bytes. */
  function Update(c: ByteCoverage, rs: seq<Replacement>): ByteCoverage
  {
    ByteCoverage(Apply(c.covered, Marks(rs)))
  }

  lemma {:induction false} ToBeCoveredSplit(m: seq<bool>, rs: seq<Replacement>)
    ensures ToBeCovered(m, rs) == Uncovered(m, rs) + Delta(rs)
    decreases |rs|
  {
    if |rs| > 0 {
      ToBeCoveredSplit(m, rs[1..]);
    }
  }

  /** For a sorted, non-overlapping, in-range batch, `update` keeps the mask
      length, sets every replaced position and leaves the others alone. */
  lemma UpdateEffect(c: ByteCoverage, rs: seq<Replacement>, k: nat)
    requires Disjoint(rs, 0, |c.covered|) && k < |c.covered|
    ensures |Update(c, rs).covered| == |c.covered|
    ensures Update(c, rs).covered[k] == (c.covered[k] || Covers(rs, k))
  {
    CoverageAt(c.covered, rs, k);
  }

  /** `query` predicts `update`: its first factor is exactly the number of
      bytes `update` newly covers plus the batch's change in length. */
  lemma QueryPredictsUpdate(c: ByteCoverage, rs: seq<Replacement>)
    requires Disjoint(rs, 0, |c.covered|)
    ensures Query(c, rs) ==
      (Count(Update(c, rs).covered, true) - Count(c.covered, true) + Delta(rs)) * Count(c.covered, true)
  {
    ToBeCoveredSplit(c.covered, rs);
    CoverageCount(c.covered, rs);
  }

  /** `CandidateMutant.score`: priority times the coefficient plus the
      coverage query. For a well-formed batch the query part is what
      `update` would newly cover, plus the change in length, weighted by the
      coverage so far. */
  function Score(priority: int, c: ByteCoverage, rs: seq<Replacement>): (s: int)
    ensures Count(c.covered, true) == 0 ==> s == priority * PRIORITY_COEFFICIENT
    ensures Disjoint(rs, 0, |c.covered|) ==>
      s == priority * PRIORITY_COEFFICIENT
           + (Count(Update(c, rs).covered, true) - Count(c.covered, true) + Delta(rs)) * Count(c.covered, true)
  {
    assert Disjoint(rs, 0, |c.covered|) ==>
      Query(c, rs) == (Count(Update(c, rs).covered, true) - Count(c.covered, true) + Delta(rs)) * Count(c.covered, true) by {
      if Disjoint(rs, 0, |c.covered|) { QueryPredictsUpdate(c, rs); }
    }
    priority * PRIORITY_COEFFICIENT + Query(c, rs)
  }
}
