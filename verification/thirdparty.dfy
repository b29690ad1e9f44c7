/** The two pieces of tool-script preparation in `core/thirdparty.py` that
    carry logic of their own:

    - `insert_comments` inside `verilator_elaborate` copies a Verilog file
      with `/*verilator public_flat*/` inserted at the end of every register
      declaration, so that Verilator keeps those registers visible to the
      generated symbolic `main`;
    - `new_name` and `rename_commands` inside `yosys_equivalence_check`
      prefix every module of either design with a tag of its own before
      the two designs are read into one yosys session and joined by a miter.

    Tree-sitter, which finds the register declarations, is not modelled:
    its captures arrive as their end offsets. The splice is generic in the
    element type; `CommentRegisters` instantiates it on bytes. */
module ThirdParty {
  import opened Seqs
  import Sorting
  import Splice
  import Strings

  newtype Byte = b: int | 0 <= b < 256

  /** `str.encode()` for ASCII text. */
  function Encode(s: string): seq<Byte>
    requires forall i :: 0 <= i < |s| ==> s[i] as int < 128
  {
    seq(|s|, i requires 0 <= i < |s| => s[i] as int as Byte)
  }

  const PublicFlat: seq<Byte> := Encode("/*verilator public_flat*/")

  // --------------------------------------------------------- comment splice

  /** `sep.join(xs)` on byte strings. */
  function JoinWith<T>(xs: seq<seq<T>>, sep: seq<T>): seq<T>
    decreases |xs|
  {
    if |xs| == 0 then []
    else if |xs| == 1 then xs[0]
    else xs[0] + sep + JoinWith(xs[1..], sep)
  }

  /** `d[i:j] for i, j in pairwise(bounds)`. */
  function Pieces<T>(d: seq<T>, bounds: seq<nat>): (r: seq<seq<T>>)
    ensures |r| == if |bounds| == 0 then 0 else |bounds| - 1
    decreases |bounds|
  {
    if |bounds| < 2 then [] else [Slice(d, bounds[0], bounds[1])] + Pieces(d, bounds[1..])
  }

  predicate Ascending(s: seq<nat>)
  {
    forall i, j :: 0 <= i < j < |s| ==> s[i] <= s[j]
  }

  /** Every point lies in `[lo, hi]`. */
  predicate Within(s: seq<nat>, lo: nat, hi: nat)
  {
    forall i :: 0 <= i < |s| ==> lo <= s[i] <= hi
  }

  function PointKey(p: nat): Sorting.Key
  {
    (p, 0)
  }

  /** `sorted(node.end_byte for node, _ in captures)` */
  function SortPoints(ends: seq<nat>): (r: seq<nat>)
    ensures Ascending(r) && multiset(r) == multiset(ends)
  {
    var r := Sorting.SortBy(ends, PointKey);
    assert forall i, j :: 0 <= i < j < |r| ==> Sorting.KeyLe(PointKey(r[i]), PointKey(r[j]));
    r
  }

  /** The slices between consecutive bounds `0, p1, …, pk, len(before)`
      joined by the comment: the comment lands after each point, taken in
      the order given. */
  function Interleave<T>(before: seq<T>, points: seq<nat>, comment: seq<T>): seq<T>
  {
    JoinWith(Pieces(before, [0] + points + [|before|]), comment)
  }

  /** The byte string written to the commented file: the comment after
      every captured end, the ends taken in ascending order. */
  function InsertComments<T>(before: seq<T>, ends: seq<nat>, comment: seq<T>): seq<T>
  {
    Interleave(before, SortPoints(ends), comment)
  }

  /** `insert_comments` itself: the register-declaration ends of the file
      `before`, each followed by `/*verilator public_flat*/`. */
  function CommentRegisters(before: seq<Byte>, ends: seq<nat>): (r: seq<Byte>)
    ensures (forall e :: e in ends ==> e <= |before|) ==> |r| == |before| + 25 * |ends|
  {
    if forall e :: e in ends ==> e <= |before| then
      SortedWithin(ends, |before|);
      InsertLength(before, SortPoints(ends), PublicFlat);
      InsertComments(before, ends, PublicFlat)
    else InsertComments(before, ends, PublicFlat)
  }

  /** Sorted insertion points inside a file of length `n`. */
  predicate InsertionPoints(points: seq<nat>, n: nat)
  {
    Ascending(points) && Within(points, 0, n)
  }

  /** Insertion of `c` at each point, as a batch of empty-interval edits. */
  function Insertions<T>(points: seq<nat>, c: seq<T>): (es: seq<Splice.Edit<T>>)
    ensures |es| == |points|
    decreases |points|
  {
    if |points| == 0 then [] else [Splice.Edit(points[0], points[0], c)] + Insertions(points[1..], c)
  }

  /** The slices from `pos` on, each point's slice followed by the comment:
      for points that fit the file, the same text as the joined pieces, one
      point at a time (empty slices stand in where a point does not fit). */
  function Spliced<T>(d: seq<T>, points: seq<nat>, c: seq<T>, pos: nat): seq<T>
    decreases |points|
  {
    if |points| == 0 then (if pos <= |d| then d[pos..] else [])
    else (if pos <= points[0] <= |d| then d[pos..points[0]] else []) + c + Spliced(d, points[1..], c, points[0])
  }

  /** Number of insertion points at or before offset `j`: the comments that
      land in front of the byte at `j`. */
  function AtOrBefore(points: seq<nat>, j: nat): nat
    decreases |points|
  {
    if |points| == 0 then 0 else (if points[0] <= j then 1 else 0) + AtOrBefore(points[1..], j)
  }

  // ---------------------------------------------------------------- lemmas

  /** Sorting keeps every captured end, so the sorted points are valid
      insertion points whenever the captured ends lie in the file. */
  lemma AscendingHead(s: seq<nat>, x: nat)
    requires Ascending(s) && x in multiset(s)
    ensures |s| > 0 && s[0] <= x
  {
    var k :| 0 <= k < |s| && s[k] == x;
  }

  lemma AscendingHeads(a: seq<nat>, b: seq<nat>)
    requires Ascending(a) && Ascending(b) && multiset(a) == multiset(b) && |a| > 0
    ensures |b| > 0 && a[0] == b[0]
    ensures multiset(a[1..]) == multiset(b[1..])
  {
    assert a[0] in multiset(b);
    AscendingHead(b, a[0]);
    assert b[0] in multiset(a);
    AscendingHead(a, b[0]);
    assert a == [a[0]] + a[1..] && b == [b[0]] + b[1..];
    assert multiset(a[1..]) == multiset(a) - multiset{a[0]};
    assert multiset(b[1..]) == multiset(b) - multiset{a[0]};
  }

  /** Two ascending lists with the same elements are the same list. */
  lemma {:induction false} AscendingUnique(a: seq<nat>, b: seq<nat>)
    requires Ascending(a) && Ascending(b) && multiset(a) == multiset(b)
    ensures a == b
    decreases |a|
  {
    if |a| == 0 {
      assert |multiset(b)| == 0;
    } else {
      AscendingHeads(a, b);
      AscendingUnique(a[1..], b[1..]);
      assert a == [a[0]] + a[1..] && b == [b[0]] + b[1..];
    }
  }

  /** The order in which the register declarations were captured does not
      matter: only the multiset of their end offsets does. */
  lemma InsertCommentsOrderFree<T>(before: seq<T>, ends1: seq<nat>, ends2: seq<nat>, comment: seq<T>)
    requires multiset(ends1) == multiset(ends2)
    ensures InsertComments(before, ends1, comment) == InsertComments(before, ends2, comment)
  {
    AscendingUnique(SortPoints(ends1), SortPoints(ends2));
  }

  lemma SortedWithin(ends: seq<nat>, n: nat)
    requires forall e :: e in ends ==> e <= n
    ensures InsertionPoints(SortPoints(ends), n) && |SortPoints(ends)| == |ends|
  {
    var r := SortPoints(ends);
    forall i | 0 <= i < |r|
      ensures r[i] <= n
    {
      assert r[i] in multiset(r);
      assert r[i] in ends;
    }
    assert |multiset(r)| == |multiset(ends)|;
  }

  /** The points ascend from `pos` and stay at or below `n`. */
  predicate Fits(points: seq<nat>, pos: nat, n: nat)
    decreases |points|
  {
    |points| == 0 || (pos <= points[0] <= n && Fits(points[1..], points[0], n))
  }

  lemma {:induction false} AscendingFits(points: seq<nat>, pos: nat, n: nat)
    requires Ascending(points) && Within(points, pos, n)
    ensures Fits(points, pos, n)
    decreases |points|
  {
    if |points| > 0 {
      AscendingFits(points[1..], points[0], n);
    }
  }

  lemma {:induction false} InsertionsDisjoint<T>(points: seq<nat>, c: seq<T>, pos: nat, n: nat)
    requires Fits(points, pos, n)
    ensures Splice.Disjoint(Insertions(points, c), pos, n)
    decreases |points|
  {
    if |points| > 0 {
      InsertionsDisjoint(points[1..], c, points[0], n);
    }
  }

  lemma {:induction false} InsertionsDelta<T>(points: seq<nat>, c: seq<T>)
    ensures Splice.Delta(Insertions(points, c)) == |points| * |c|
    decreases |points|
  {
    if |points| > 0 {
      InsertionsDelta(points[1..], c);
    }
  }

  lemma {:induction false} PiecesAreSpliced<T>(d: seq<T>, pos: nat, points: seq<nat>, c: seq<T>)
    requires Fits(points, pos, |d|) && pos <= |d|
    ensures JoinWith(Pieces(d, [pos] + points + [|d|]), c) == Spliced(d, points, c, pos)
    decreases |points|
  {
    var b := [pos] + points + [|d|];
    if |points| == 0 {
      assert b == [pos, |d|];
    } else {
      assert b[1..] == [points[0]] + points[1..] + [|d|];
      PiecesAreSpliced(d, points[0], points[1..], c);
      var rest := Pieces(d, b[1..]);
      assert Pieces(d, b) == [Slice(d, pos, points[0])] + rest;
      assert ([Slice(d, pos, points[0])] + rest)[1..] == rest;
    }
  }

  /** Comment insertion is the one-pass splice of empty-interval edits. */
  lemma {:induction false} SplicedIsGather<T>(d: seq<T>, points: seq<nat>, c: seq<T>, pos: nat)
    requires Fits(points, pos, |d|) && pos <= |d|
    ensures Spliced(d, points, c, pos) == Splice.Gather(d, Insertions(points, c), pos)
    decreases |points|
  {
    if |points| > 0 {
      SplicedIsGather(d, points[1..], c, points[0]);
    }
  }

  /** Interleaving is the one-pass splice that inserts the comment at every
      point, and therefore also the same as inserting the comments one at a
      time starting from the last point. */
  lemma InterleaveIsSplice<T>(before: seq<T>, points: seq<nat>, comment: seq<T>)
    requires InsertionPoints(points, |before|)
    ensures var es := Insertions(points, comment);
      Splice.Disjoint(es, 0, |before|) &&
      Interleave(before, points, comment) == Splice.Apply(before, es) &&
      Interleave(before, points, comment) == Splice.ApplyFromLast(before, es)
  {
    AsGather(before, points, comment);
    Splice.ApplyIsSequential(before, Insertions(points, comment));
  }

  /** Each comment adds its own length and nothing else changes size. */
  lemma InsertLength<T>(before: seq<T>, points: seq<nat>, comment: seq<T>)
    requires InsertionPoints(points, |before|)
    ensures |Interleave(before, points, comment)| == |before| + |points| * |comment|
  {
    AsGather(before, points, comment);
    Splice.ApplyLength(before, Insertions(points, comment));
    InsertionsDelta(points, comment);
  }

  /** `n · m` as repeated addition, which keeps the position arithmetic
      below linear; `TimesIsProduct` converts back. */
  function Times(n: nat, m: nat): nat
  {
    if n == 0 then 0 else Times(n - 1, m) + m
  }

  lemma {:induction false} TimesIsProduct(n: nat, m: nat)
    ensures Times(n, m) == n * m
  {
    if n > 0 {
      TimesIsProduct(n - 1, m);
    }
  }

  /** One step of the splice: the slice up to the first point, the
      comment, then the rest spliced from that point on. */
  lemma SplicedFirst<T>(d: seq<T>, points: seq<nat>, c: seq<T>, pos: nat)
    requires |points| > 0 && pos <= points[0] <= |d|
    ensures var p := points[0];
      Spliced(d, points, c, pos) ==
        d[pos..p] + c + Spliced(d, points[1..], c, p)
  {
  }

  /** A block found in the tail is found at the shifted place in the whole. */
  lemma BlockShift<T>(r: seq<T>, front: seq<T>, rest: seq<T>, k: nat, c: seq<T>)
    requires r == front + rest && k + |c| <= |rest| && rest[k..k + |c|] == c
    ensures |front| + k + |c| <= |r| && r[|front| + k..|front| + k + |c|] == c
  {
    assert r[|front| + k..|front| + k + |c|] == rest[k..k + |c|];
  }

  /** The comment of the first point follows the first slice. */
  lemma SplicedCommentFirst<T>(d: seq<T>, points: seq<nat>, c: seq<T>, pos: nat, i: nat)
    requires i == 0 < |points| && pos <= points[0] <= |d|
    ensures var r, at := Spliced(d, points, c, pos), points[i] - pos + Times(i, |c|);
      pos <= points[i] && at + |c| <= |r| && r[at..at + |c|] == c
  {
    var p := points[0];
    var rest := Spliced(d, points[1..], c, p);
    SplicedFirst(d, points, c, pos);
    assert (d[pos..p] + c + rest)[p - pos..p - pos + |c|] == c;
  }

  /** A comment of the spliced tail moves right by the first slice and the
      first comment. */
  lemma SplicedCommentLater<T>(d: seq<T>, points: seq<nat>, c: seq<T>, pos: nat, i: nat, k: nat)
    requires 0 < i < |points| && pos <= points[0] <= points[i] && points[0] <= |d|
    requires k == points[i] - points[0] + Times(i - 1, |c|)
    requires var rest := Spliced(d, points[1..], c, points[0]);
      k + |c| <= |rest| && rest[k..k + |c|] == c
    ensures var r, at := Spliced(d, points, c, pos), points[i] - pos + Times(i, |c|);
      pos <= points[i] && at + |c| <= |r| && r[at..at + |c|] == c
  {
    var p := points[0];
    var r := Spliced(d, points, c, pos);
    var rest := Spliced(d, points[1..], c, p);
    var front := d[pos..p] + c;
    assert pos <= p && |front| == p - pos + |c|;
    assert points[i] - pos + Times(i, |c|) == |front| + k by {
      assert Times(i, |c|) == Times(i - 1, |c|) + |c|;
    }
    assert r == front + rest by {
      SplicedFirst(d, points, c, pos);
    }
    BlockShift(r, front, rest, k, c);
  }

  lemma {:induction false} SplicedCommentAt<T>(d: seq<T>, points: seq<nat>, c: seq<T>, pos: nat, i: nat)
    requires Fits(points, pos, |d|) && i < |points|
    ensures var r, at := Spliced(d, points, c, pos), points[i] - pos + Times(i, |c|);
      pos <= points[i] && at + |c| <= |r| && r[at..at + |c|] == c
    decreases |points|
  {
    if i == 0 {
      SplicedCommentFirst(d, points, c, pos, i);
    } else {
      SplicedCommentAt(d, points[1..], c, points[0], i - 1);
      assert points[1..][i - 1] == points[i];
      SplicedCommentLater(d, points, c, pos, i, points[i] - points[0] + Times(i - 1, |c|));
    }
  }

  lemma {:induction false} AtOrBeforeNone(points: seq<nat>, pos: nat, n: nat, j: nat)
    requires Fits(points, pos, n) && j < pos
    ensures AtOrBefore(points, j) == 0
    decreases |points|
  {
    if |points| > 0 {
      AtOrBeforeNone(points[1..], points[0], n, j);
    }
  }

  /** A byte before the first point keeps its offset from `pos`. */
  lemma SplicedByteFirst<T>(d: seq<T>, points: seq<nat>, c: seq<T>, pos: nat, j: nat)
    requires pos <= j < |d| && (|points| == 0 || j < points[0] <= |d|)
    requires AtOrBefore(points, j) == 0
    ensures var r, at := Spliced(d, points, c, pos), j - pos + Times(AtOrBefore(points, j), |c|);
      at < |r| && r[at] == d[j]
  {
    var r := Spliced(d, points, c, pos);
    if |points| > 0 {
      var p := points[0];
      var rest := Spliced(d, points[1..], c, p);
      assert r == d[pos..p] + c + rest by {
        SplicedFirst(d, points, c, pos);
      }
      assert r[j - pos] == d[j];
    }
  }

  /** A byte of the spliced tail moves right by the first slice and the
      first comment. */
  lemma SplicedByteLater<T>(d: seq<T>, points: seq<nat>, c: seq<T>, pos: nat, j: nat, k: nat)
    requires |points| > 0 && pos <= points[0] <= j < |d|
    requires k == j - points[0] + Times(AtOrBefore(points[1..], j), |c|)
    requires var rest := Spliced(d, points[1..], c, points[0]);
      k < |rest| && rest[k] == d[j]
    ensures var r, at := Spliced(d, points, c, pos), j - pos + Times(AtOrBefore(points, j), |c|);
      at < |r| && r[at] == d[j]
  {
    var p := points[0];
    var r := Spliced(d, points, c, pos);
    var rest := Spliced(d, points[1..], c, p);
    var front := d[pos..p] + c;
    assert |front| == p - pos + |c|;
    assert j - pos + Times(AtOrBefore(points, j), |c|) == |front| + k by {
      var a := AtOrBefore(points[1..], j);
      assert AtOrBefore(points, j) == a + 1;
      assert Times(a + 1, |c|) == Times(a, |c|) + |c|;
    }
    assert r == front + rest by {
      SplicedFirst(d, points, c, pos);
    }
    assert r[|front| + k] == rest[k];
  }

  lemma {:induction false} SplicedByteAt<T>(d: seq<T>, points: seq<nat>, c: seq<T>, pos: nat, j: nat)
    requires Fits(points, pos, |d|) && pos <= j < |d|
    ensures var r, at := Spliced(d, points, c, pos), j - pos + Times(AtOrBefore(points, j), |c|);
      at < |r| && r[at] == d[j]
    decreases |points|
  {
    if |points| == 0 {
      SplicedByteFirst(d, points, c, pos, j);
    } else if j < points[0] {
      AtOrBeforeNone(points, points[0], |d|, j);
      SplicedByteFirst(d, points, c, pos, j);
    } else {
      SplicedByteAt(d, points[1..], c, points[0], j);
      SplicedByteLater(d, points, c, pos, j, j - points[0] + Times(AtOrBefore(points[1..], j), |c|));
    }
  }

  /** The interleaving is the splice of the points, which fit the file. */
  lemma AsSpliced<T>(before: seq<T>, points: seq<nat>, comment: seq<T>)
    requires InsertionPoints(points, |before|)
    ensures Fits(points, 0, |before|)
    ensures Interleave(before, points, comment) == Spliced(before, points, comment, 0)
  {
    AscendingFits(points, 0, |before|);
    PiecesAreSpliced(before, 0, points, comment);
  }

  /** ... and that splice is a well-formed batch of insertions. */
  lemma AsGather<T>(before: seq<T>, points: seq<nat>, comment: seq<T>)
    requires InsertionPoints(points, |before|)
    ensures var es := Insertions(points, comment);
      Splice.Disjoint(es, 0, |before|) && Interleave(before, points, comment) == Splice.Gather(before, es, 0)
  {
    AsSpliced(before, points, comment);
    SplicedIsGather(before, points, comment, 0);
    InsertionsDisjoint(points, comment, 0, |before|);
  }

  /** Where everything lands: the comment for the `i`-th point `p` starts
      at `p + i·len(comment)` (this lemma), and the original byte at `j`
      moves forward by one comment for every point at or before `j`
      (`ByteAt`). Together with `InsertLength` these positions cover the
      whole output, so they determine it. */
  lemma CommentAt<T>(before: seq<T>, points: seq<nat>, comment: seq<T>, i: nat)
    requires InsertionPoints(points, |before|) && i < |points|
    ensures var r, at := Interleave(before, points, comment), points[i] + i * |comment|;
      at + |comment| <= |r| && r[at..at + |comment|] == comment
  {
    var r := Interleave(before, points, comment);
    var at := points[i] + Times(i, |comment|);
    assert at + |comment| <= |r| && r[at..at + |comment|] == comment by {
      AsSpliced(before, points, comment);
      SplicedCommentAt(before, points, comment, 0, i);
    }
    TimesIsProduct(i, |comment|);
  }

  /** The original byte at offset `j`, after the comments of every point
      at or before it. */
  lemma ByteAt<T>(before: seq<T>, points: seq<nat>, comment: seq<T>, j: nat)
    requires InsertionPoints(points, |before|) && j < |before|
    ensures var r, at := Interleave(before, points, comment), j + AtOrBefore(points, j) * |comment|;
      at < |r| && r[at] == before[j]
  {
    var r := Interleave(before, points, comment);
    var at := j + Times(AtOrBefore(points, j), |comment|);
    assert at < |r| && r[at] == before[j] by {
      AsSpliced(before, points, comment);
      SplicedByteAt(before, points, comment, 0, j);
    }
    TimesIsProduct(AtOrBefore(points, j), |comment|);
  }

  lemma TwoBlocks<T>(r: seq<T>, at: nat, c: seq<T>)
    requires at + 2 * |c| <= |r|
    requires r[at..at + |c|] == c && r[at + |c|..at + 2 * |c|] == c
    ensures r[at..at + 2 * |c|] == c + c
  {
    assert r[at..at + 2 * |c|] == r[at..at + |c|] + r[at + |c|..at + 2 * |c|];
  }

  /** A register end captured twice yields two comments back to back. */
  lemma DuplicatesAdjacent<T>(before: seq<T>, points: seq<nat>, comment: seq<T>, i: nat)
    requires InsertionPoints(points, |before|)
    requires i + 1 < |points| && points[i] == points[i + 1]
    ensures var r, at := Interleave(before, points, comment), points[i] + i * |comment|;
      at + 2 * |comment| <= |r| && r[at..at + 2 * |comment|] == comment + comment
  {
    var r := Interleave(before, points, comment);
    var at := points[i] + i * |comment|;
    assert points[i + 1] + (i + 1) * |comment| == at + |comment| by {
      assert (i + 1) * |comment| == i * |comment| + |comment|;
    }
    CommentAt(before, points, comment, i);
    CommentAt(before, points, comment, i + 1);
    TwoBlocks(r, at, comment);
  }

  /** Dropping the comments, the slices reassemble the bytes between the
      first and the last bound. */
  lemma {:induction false} PiecesReassemble<T>(d: seq<T>, pos: nat, points: seq<nat>)
    requires Fits(points, pos, |d|) && pos <= |d|
    ensures JoinWith(Pieces(d, [pos] + points + [|d|]), []) == d[pos..]
    decreases |points|
  {
    var b := [pos] + points + [|d|];
    if |points| == 0 {
      assert b == [pos, |d|];
    } else {
      assert b[1..] == [points[0]] + points[1..] + [|d|];
      PiecesReassemble(d, points[0], points[1..]);
      var rest := Pieces(d, b[1..]);
      assert Pieces(d, b) == [Slice(d, pos, points[0])] + rest;
      assert ([Slice(d, pos, points[0])] + rest)[1..] == rest;
      assert d[pos..] == d[pos..points[0]] + d[points[0]..];
    }
  }

  /** Concatenating the interleaved slices without the comment gives the
      original file back. */
  lemma SlicesReassemble<T>(before: seq<T>, points: seq<nat>)
    requires InsertionPoints(points, |before|)
    ensures Interleave(before, points, []) == before
  {
    AscendingFits(points, 0, |before|);
    PiecesReassemble(before, 0, points);
  }

  // ------------------------------------------------------- module renaming

  /** `new_name`: the module's name under the tag of its design. */
  function NewName(name: string, tag: string): string
  {
    "_$" + tag + "_" + name
  }

  /** `rename <module> <new name>` for one module. */
  function RenameCommand(name: string, tag: string): string
  {
    "rename " + name + " " + NewName(name, tag)
  }

  function Commands(names: seq<string>, tag: string): (r: seq<string>)
    ensures |r| == |names|
    decreases |names|
  {
    if |names| == 0 then [] else [RenameCommand(names[0], tag)] + Commands(names[1..], tag)
  }

  /** `rename_commands`: one rename per module, joined by `; `. */
  function RenameCommands(names: seq<string>, tag: string): (r: string)
    ensures |names| == 0 ==> r == ""
  {
    Strings.Join(Commands(names, tag), "; ")
  }

  /** Within one design, renaming keeps distinct modules distinct. */
  lemma NewNameInjective(m1: string, m2: string, tag: string)
    ensures NewName(m1, tag) == NewName(m2, tag) <==> m1 == m2
  {
    if NewName(m1, tag) == NewName(m2, tag) {
      var k := 3 + |tag|;
      assert m1 == NewName(m1, tag)[k..];
      assert m2 == NewName(m2, tag)[k..];
    }
  }

  /** Two designs under different labels of the same length can never
      share a module name after renaming, so the miter's two tops and all
      their submodules stay apart; the labels used are `a` and `b`. */
  lemma LabelsSeparate(m1: string, t1: string, m2: string, t2: string)
    requires |t1| == |t2| && t1 != t2
    ensures NewName(m1, t1) != NewName(m2, t2)
  {
    assert NewName(m1, t1)[2..2 + |t1|] == t1;
    assert NewName(m2, t2)[2..2 + |t2|] == t2;
  }

  lemma MiterTopsDiffer(topA: string, topB: string)
    ensures NewName(topA, "a") != NewName(topB, "b")
  {
    LabelsSeparate(topA, "a", topB, "b");
  }

  lemma LacksConcat(a: string, b: string, c: char)
    requires Strings.Lacks(a, c) && Strings.Lacks(b, c)
    ensures Strings.Lacks(a + b, c)
  {
    forall i | 0 <= i < |a + b|
      ensures (a + b)[i] != c
    {
      if i >= |a| {
        assert (a + b)[i] == b[i - |a|];
      }
    }
  }

  /** A rename command is the words `rename`, the old name and the new
      name, separated by single spaces. */
  lemma CommandWords(name: string, tag: string)
    requires Strings.Lacks(name, ' ') && Strings.Lacks(tag, ' ')
    ensures Strings.Split(RenameCommand(name, tag), " ") == ["rename", name, NewName(name, tag)]
  {
    var words := ["rename", name, NewName(name, tag)];
    LacksConcat("_$", tag, ' ');
    LacksConcat("_$" + tag, "_", ' ');
    LacksConcat("_$" + tag + "_", name, ' ');
    assert Strings.Join(words, " ") == RenameCommand(name, tag) by {
      assert Strings.Join(words[2..], " ") == NewName(name, tag);
      assert Strings.Join(words[1..], " ") == name + " " + NewName(name, tag);
    }
    forall i | 0 <= i < 3
      ensures Strings.Lacks(words[i], ' ')
    {
    }
    Strings.SplitJoin(words, " ");
  }

  lemma {:induction false} CommandsLack(names: seq<string>, tag: string, c: char)
    requires forall i :: 0 <= i < |names| ==> Strings.Lacks(names[i], c)
    requires Strings.Lacks(tag, c) && c !in "rename _$"
    ensures forall i :: 0 <= i < |names| ==> Strings.Lacks(Commands(names, tag)[i], c)
    decreases |names|
  {
    if |names| > 0 {
      var n := names[0];
      LacksConcat("rename ", n, c);
      LacksConcat("_$", tag, c);
      LacksConcat("_$" + tag, "_", c);
      LacksConcat("_$" + tag + "_", n, c);
      LacksConcat("rename " + n, " ", c);
      LacksConcat("rename " + n + " ", NewName(n, tag), c);
      CommandsLack(names[1..], tag, c);
      forall i | 1 <= i < |names|
        ensures Strings.Lacks(Commands(names, tag)[i], c)
      {
        assert Commands(names, tag)[i] == Commands(names[1..], tag)[i - 1];
        assert names[1..][i - 1] == names[i];
      }
    }
  }

  /** Reading the script back: for module and tag names free of `;` and
      spaces, splitting on `; ` gives one command per module, in order, and
      each command renames that module to its `new_name`. */
  lemma RenameScriptParses(names: seq<string>, tag: string)
    requires |names| > 0
    requires forall i :: 0 <= i < |names| ==> Strings.Lacks(names[i], ';') && Strings.Lacks(names[i], ' ')
    requires Strings.Lacks(tag, ';') && Strings.Lacks(tag, ' ')
    ensures var cmds := Strings.Split(RenameCommands(names, tag), "; ");
      |cmds| == |names| &&
      forall i :: 0 <= i < |names| ==> Strings.Split(cmds[i], " ") == ["rename", names[i], NewName(names[i], tag)]
  {
    CommandsLack(names, tag, ';');
    Strings.SplitJoin(Commands(names, tag), "; ");
    forall i | 0 <= i < |names|
      ensures Strings.Split(Commands(names, tag)[i], " ") == ["rename", names[i], NewName(names[i], tag)]
    {
      CommandIs(names, tag, i);
      CommandWords(names[i], tag);
    }
  }

  lemma {:induction false} CommandIs(names: seq<string>, tag: string, i: nat)
    requires i < |names|
    ensures Commands(names, tag)[i] == RenameCommand(names[i], tag)
    decreases |names|
  {
    if i > 0 {
      CommandIs(names[1..], tag, i - 1);
    }
  }
}
