/** The driver's bookkeeping: which regression cases are replayed, how the
    compilation space is sampled into validation groups, and how the
    circuits of a cross-check are partitioned into equivalence classes. */
module Api {
  import opened Wrappers
  import opened Seqs
  import opened Strings
  import opened Combinatorics
  import Translator

  // ---------------------------------------------------- regression_test

  /** `f'{index:0>6}'`: the decimal digits, left-padded with `0` to six. */
  function Padded(index: nat): (r: string)
    ensures |r| >= 6 && AllDigitsOf(r, 10)
    ensures DigitsValue(r, 10) == index
    ensures |r| == Max(6, |NatToString(index)|)
  {
    var digits := NatToString(index);
    NatToStringRoundTrip(index);
    LeadingZeros(Repeat('0', 6 - |digits|), digits);
    Repeat('0', 6 - |digits|) + digits
  }

  /** Leading zeros do not change the value of a digit string. */
  lemma {:induction false} LeadingZeros(zeros: string, s: string)
    requires forall k :: 0 <= k < |zeros| ==> zeros[k] == '0'
    requires AllDigitsOf(s, 10)
    ensures AllDigitsOf(zeros + s, 10)
    ensures DigitsValue(zeros + s, 10) == DigitsValue(s, 10)
    decreases |s|
  {
    var z := zeros + s;
    if |s| == 0 {
      assert z == zeros;
      ZerosValue(zeros);
    } else {
      assert z[..|z| - 1] == zeros + s[..|s| - 1];
      LeadingZeros(zeros, s[..|s| - 1]);
    }
  }

  lemma {:induction false} ZerosValue(zeros: string)
    requires forall k :: 0 <= k < |zeros| ==> zeros[k] == '0'
    ensures DigitsValue(zeros, 10) == 0
    decreases |zeros|
  {
    if |zeros| > 0 {
      ZerosValue(zeros[..|zeros| - 1]);
    }
  }

  /** The regression input and strategy file names of an index. */
  function InputName(index: nat, suffix: string): string
  {
    "input" + Padded(index) + suffix
  }

  function StrategyName(index: nat): string
  {
    "strategy" + Padded(index) + ".json"
  }

  /** Distinct indices name distinct files. */
  lemma NamesDistinct(i: nat, j: nat, suffix: string)
    requires i != j
    ensures InputName(i, suffix) != InputName(j, suffix)
    ensures StrategyName(i) != StrategyName(j)
  {
    var p, q := Padded(i), Padded(j);
    assert p != q by { assert DigitsValue(p, 10) != DigitsValue(q, 10); }
    var a, b := InputName(i, suffix), InputName(j, suffix);
    var c, d := StrategyName(i), StrategyName(j);
    if |p| == |q| {
      assert a[5..5 + |p|] == p && b[5..5 + |q|] == q;
      assert c[8..8 + |p|] == p && d[8..8 + |q|] == q;
    } else {
      assert |a| != |b| && |c| != |d|;
    }
  }

  /** The indices `lo .. hi-1`. */
  function Range(lo: nat, hi: nat): (r: set<nat>)
    ensures forall j :: j in r <==> lo <= j < hi
    ensures lo <= hi ==> |r| == hi - lo
    decreases hi
  {
    if hi <= lo then {} else Range(lo, hi - 1) + {hi - 1}
  }

  /** The indices submitted from `i` on, where `present` is the set of
      indices with both an input and a strategy file. */
  function SubmittedFrom(present: set<nat>, i: nat): (r: seq<nat>)
    requires i >= 1 && Range(1, i) <= present
    ensures forall k :: 0 <= k < |r| ==> r[k] == i + k && r[k] in present
    ensures i + |r| !in present
    decreases |present| - i + 1
  {
    SubsetCard(Range(1, i), present);
    if i !in present then []
    else
      assert Range(1, i + 1) == Range(1, i) + {i};
      SubsetCard(Range(1, i + 1), present);
      [i] + SubmittedFrom(present, i + 1)
  }

  /** The index loop of `regression_test`: `1, 2, ...` while both files of the
      index exist. */
  function RegressionIndices(inputs: set<nat>, strategies: set<nat>): (r: seq<nat>)
    ensures forall k :: 0 <= k < |r| ==> r[k] == k + 1 && r[k] in inputs && r[k] in strategies
    ensures |r| + 1 !in inputs || |r| + 1 !in strategies
  {
    SubmittedFrom(inputs * strategies, 1)
  }

  /** The submitted indices are determined by the two conditions above: the
      run is the longest prefix of `1, 2, ...` with both files present. */
  lemma RegressionIndicesUnique(inputs: set<nat>, strategies: set<nat>, r: seq<nat>)
    requires forall k :: 0 <= k < |r| ==> r[k] == k + 1 && r[k] in inputs && r[k] in strategies
    requires |r| + 1 !in inputs || |r| + 1 !in strategies
    ensures r == RegressionIndices(inputs, strategies)
  {
    var s := RegressionIndices(inputs, strategies);
    var present := inputs * strategies;
    assert forall j :: 1 <= j <= |s| ==> j in present by {
      forall j | 1 <= j <= |s| ensures j in present { assert s[j - 1] == j; }
    }
    assert forall j :: 1 <= j <= |r| ==> j in present by {
      forall j | 1 <= j <= |r| ensures j in present { assert r[j - 1] == j; }
    }
    assert |r| + 1 !in present && |s| + 1 !in present;
    assert |r| == |s|;
  }

  // ------------------------------------------ sample_compilation_space

  /** The source circuit types: only Verilog and SystemVerilog are accepted. */
  datatype CircuitType = VerilogCircuit | SystemVerilogCircuit | OtherType(name: string)

  /** A conversion is a chain of translator instances. */
  type Conversion = seq<Translator.Instance>

  datatype ValidationGroup<F> = ValidationGroup(inputProgram: F, conversions: seq<Conversion>)

  /** One conversion per choice of an instance for every translator of every
      path; `paths[p][t]` are the instances of translator `t` of path `p`. */
  function Conversions(paths: seq<seq<seq<Translator.Instance>>>): (r: seq<Conversion>)
    ensures |r| == SumLengthProducts(paths)
    decreases |paths|
  {
    if |paths| == 0 then [] else Product(paths[0]) + Conversions(paths[1..])
  }

  function SumLengthProducts<T>(paths: seq<seq<seq<T>>>): nat
    decreases |paths|
  {
    if |paths| == 0 then 0 else LengthProduct(paths[0]) + SumLengthProducts(paths[1..])
  }

  /** A conversion belongs to the space iff it follows some path, taking one
      instance of each translator in turn. */
  lemma {:induction false} ConversionsMember(paths: seq<seq<seq<Translator.Instance>>>, c: Conversion)
    ensures c in Conversions(paths) <==>
      exists p :: 0 <= p < |paths| && FollowsPath(c, paths[p])
    decreases |paths|
  {
    if |paths| > 0 {
      ConversionsMember(paths[1..], c);
      ProductMember(paths[0], c);
      if exists p :: 0 <= p < |paths| - 1 && FollowsPath(c, paths[1..][p]) {
        var p :| 0 <= p < |paths| - 1 && FollowsPath(c, paths[1..][p]);
        assert paths[1..][p] == paths[p + 1];
      }
      if exists p :: 1 <= p < |paths| && FollowsPath(c, paths[p]) {
        var p :| 1 <= p < |paths| && FollowsPath(c, paths[p]);
        assert paths[1..][p - 1] == paths[p];
      }
    }
  }

  predicate FollowsPath(c: Conversion, path: seq<seq<Translator.Instance>>)
  {
    |c| == |path| && forall i :: 0 <= i < |path| ==> c[i] in path[i]
  }

  /** A valid draw of `random.sample`: `k` distinct positions of a population
      of `n`. */
  predicate Draw(pick: seq<nat>, n: nat, k: nat)
  {
    |pick| == k && Distinct(pick) && forall i :: 0 <= i < k ==> pick[i] < n
  }

  /** `random.sample(population, k)` with the positions it draws given as
      `pick`; a negative or too large `k` raises `ValueError`. */
  function SampleWithout<T>(population: seq<T>, k: int, pick: seq<nat>): (r: Result<seq<T>>)
    requires 0 <= k <= |population| ==> Draw(pick, |population|, k)
    ensures r.Err? <==> k < 0 || k > |population|
    ensures r.Err? ==> r.error == ValueError
    ensures r.Ok? ==> |r.value| == k && forall i :: 0 <= i < k ==> r.value[i] == population[pick[i]]
    ensures r.Ok? ==> forall x :: x in r.value ==> x in population
  {
    if k < 0 || k > |population| then Err(ValueError)
    else Ok(seq(k, i requires 0 <= i < k => population[pick[i]]))
  }

  /** Sampling without replacement from distinct elements draws distinct
      elements, every one of them from the population. */
  lemma SampleWithoutDistinct<T>(population: seq<T>, k: int, pick: seq<nat>)
    requires 0 <= k <= |population| && Draw(pick, |population|, k)
    requires Distinct(population)
    ensures Distinct(SampleWithout(population, k, pick).value)
    ensures forall x :: x in SampleWithout(population, k, pick).value ==> x in population
  {
    var r := SampleWithout(population, k, pick).value;
    forall i, j | 0 <= i < j < |r| ensures r[i] != r[j] {
      assert pick[i] != pick[j];
    }
  }

  /** `sample_compilation_space`: reject source types other than Verilog and
      SystemVerilog; otherwise every input file gets `n_samples` conversions
      of the whole space drawn without replacement (`picks[f]` for file `f`). */
  function SampleCompilationSpace<F>(
    source: CircuitType, paths: seq<seq<seq<Translator.Instance>>>,
    files: seq<F>, nSamples: int, picks: seq<seq<nat>>): (r: Result<seq<ValidationGroup<F>>>)
    requires |picks| == |files|
    requires 0 <= nSamples <= |Conversions(paths)| ==>
      forall f :: 0 <= f < |files| ==> Draw(picks[f], |Conversions(paths)|, nSamples)
    ensures r.Err? <==>
      (source.OtherType? || (|files| > 0 && (nSamples < 0 || nSamples > |Conversions(paths)|)))
    ensures r.Err? ==> r.error == ValueError
    ensures r.Ok? ==> |r.value| == |files| && forall f :: 0 <= f < |files| ==>
      (r.value[f].inputProgram == files[f] && |r.value[f].conversions| == nSamples &&
       forall c :: c in r.value[f].conversions ==> c in Conversions(paths))
  {
    if source.OtherType? then Err(ValueError)
    else if |files| == 0 then Ok([])
    else if nSamples < 0 || nSamples > |Conversions(paths)| then Err(ValueError)
    else
      var all := Conversions(paths);
      Ok(seq(|files|, f requires 0 <= f < |files| =>
        ValidationGroup(files[f], SampleWithout(all, nSamples, picks[f]).value)))
  }

  // ------------------------------------------------- equivalence_check

  /** An equivalence class: the circuit that founded it and the conversions
      that joined it, founder first. */
  datatype Class<X, C> = Class(pivot: C, members: seq<X>)

  /** The first class at or after `i` whose pivot reports equivalence with
      `c`; an oracle failure counts as "not equivalent". */
  function FirstEquivalent<X, C>(classes: seq<Class<X, C>>, c: C, eq: (C, C) -> Result<bool>, i: nat)
    : (r: Option<nat>)
    requires i <= |classes|
    ensures r.Some? ==> i <= r.value < |classes| && eq(classes[r.value].pivot, c) == Ok(true)
    ensures r.Some? ==> forall j :: i <= j < r.value ==> eq(classes[j].pivot, c) != Ok(true)
    ensures r.None? ==> forall j :: i <= j < |classes| ==> eq(classes[j].pivot, c) != Ok(true)
    decreases |classes| - i
  {
    if i == |classes| then None
    else if eq(classes[i].pivot, c) == Ok(true) then Some(i)
    else FirstEquivalent(classes, c, eq, i + 1)
  }

  /** Adds `x` to class `k`. */
  function AddTo<X, C>(classes: seq<Class<X, C>>, k: nat, x: X): (r: seq<Class<X, C>>)
    requires k < |classes|
    ensures |r| == |classes| && forall j :: 0 <= j < |r| ==> r[j].pivot == classes[j].pivot
  {
    classes[k := Class(classes[k].pivot, classes[k].members + [x])]
  }

  /** Files the conversion `x` with circuit `c`: the very first circuit founds
      a class; later ones join the first equivalent pivot or found a new one. */
  function Place<X, C>(classes: seq<Class<X, C>>, c: C, x: X, eq: (C, C) -> Result<bool>)
    : seq<Class<X, C>>
  {
    if |classes| == 0 then [Class(c, [x])]
    else
      match FirstEquivalent(classes, c, eq, 0)
      case Some(k) => AddTo(classes, k, x)
      case None => classes + [Class(c, [x])]
  }

  /** The loop of `equivalence_check`: the valid conversions in order and the
      equivalence classes in creation order. `convert` yields `None` when the
      conversion failed. */
  function Check<X, C>(convs: seq<X>, convert: X -> Option<C>, eq: (C, C) -> Result<bool>)
    : (r: (seq<X>, seq<Class<X, C>>))
    decreases |convs|
  {
    if |convs| == 0 then ([], [])
    else
      var (valid, classes) := Check(convs[..|convs| - 1], convert, eq);
      var x := convs[|convs| - 1];
      match convert(x)
      case None => (valid, classes)
      case Some(c) => (valid + [x], Place(classes, c, x, eq))
  }

  /** Cross-check results are saved only when the circuits disagree. */
  function SaveCrossCheck<X, C>(classes: seq<Class<X, C>>): (r: bool)
    ensures r ==> |classes| >= 2
  {
    |classes| > 1
  }

  /** No pivot before class `i` reports equivalence with `c`. */
  predicate NoneBefore<X, C>(classes: seq<Class<X, C>>, i: nat, c: C, eq: (C, C) -> Result<bool>)
    requires i <= |classes|
  {
    forall j :: 0 <= j < i ==> eq(classes[j].pivot, c) != Ok(true)
  }

  /** Class `i` is well founded: its first member converts to its pivot, which
      no earlier pivot matched; every later member converts to a circuit its
      pivot matched and no earlier pivot did. */
  predicate ClassOK<X, C(==)>(classes: seq<Class<X, C>>, i: nat, convert: X -> Option<C>, eq: (C, C) -> Result<bool>)
    requires i < |classes|
  {
    var m := classes[i].members;
    |m| > 0 && convert(m[0]) == Some(classes[i].pivot) && NoneBefore(classes, i, classes[i].pivot, eq) &&
    forall k :: 1 <= k < |m| ==>
      (convert(m[k]).Some? && eq(classes[i].pivot, convert(m[k]).value) == Ok(true) &&
       NoneBefore(classes, i, convert(m[k]).value, eq))
  }

  predicate Founded<X, C(==)>(classes: seq<Class<X, C>>, convert: X -> Option<C>, eq: (C, C) -> Result<bool>)
  {
    forall i :: 0 <= i < |classes| ==> ClassOK(classes, i, convert, eq)
  }

  /** The multiset of all members of all classes. */
  function AllMembers<X(==), C>(classes: seq<Class<X, C>>): multiset<X>
    decreases |classes|
  {
    if |classes| == 0 then multiset{} else multiset(classes[0].members) + AllMembers(classes[1..])
  }

  lemma {:induction false} AllMembersAppend<X, C>(classes: seq<Class<X, C>>, c: Class<X, C>)
    ensures AllMembers(classes + [c]) == AllMembers(classes) + multiset(c.members)
    decreases |classes|
  {
    if |classes| > 0 {
      assert (classes + [c])[1..] == classes[1..] + [c];
      AllMembersAppend(classes[1..], c);
    }
  }

  lemma {:induction false} AllMembersAddTo<X, C>(classes: seq<Class<X, C>>, k: nat, x: X)
    requires k < |classes|
    ensures AllMembers(AddTo(classes, k, x)) == AllMembers(classes) + multiset{x}
    decreases |classes|
  {
    var r := AddTo(classes, k, x);
    if k > 0 {
      assert r[0] == classes[0];
      assert r[1..] == AddTo(classes[1..], k - 1, x);
      AllMembersAddTo(classes[1..], k - 1, x);
    } else {
      assert r[1..] == classes[1..];
      assert multiset(r[0].members) == multiset(classes[0].members) + multiset{x};
    }
  }

  /** Pivots, and so `NoneBefore`, depend only on the pivots. */
  lemma SamePivots<X, C>(a: seq<Class<X, C>>, b: seq<Class<X, C>>, i: nat, c: C, eq: (C, C) -> Result<bool>)
    requires i <= |a| && i <= |b| && forall j :: 0 <= j < i ==> a[j].pivot == b[j].pivot
    ensures NoneBefore(a, i, c, eq) == NoneBefore(b, i, c, eq)
  {
  }

  /** Placing a converted circuit keeps every class well founded. */
  lemma PlaceFounded<X, C>(classes: seq<Class<X, C>>, c: C, x: X, convert: X -> Option<C>, eq: (C, C) -> Result<bool>)
    requires Founded(classes, convert, eq) && convert(x) == Some(c)
    ensures Founded(Place(classes, c, x, eq), convert, eq)
  {
    var r := Place(classes, c, x, eq);
    var f := FirstEquivalent(classes, c, eq, 0);
    if |classes| > 0 && f.Some? {
      forall i | 0 <= i < |r| ensures ClassOK(r, i, convert, eq) {
        assert ClassOK(classes, i, convert, eq);
        SamePivots(classes, r, i, r[i].pivot, eq);
        forall k | 1 <= k < |r[i].members|
          ensures NoneBefore(r, i, convert(r[i].members[k]).value, eq) == NoneBefore(classes, i, convert(r[i].members[k]).value, eq)
        {
          SamePivots(classes, r, i, convert(r[i].members[k]).value, eq);
        }
      }
    } else {
      forall i | 0 <= i < |r| ensures ClassOK(r, i, convert, eq) {
        if i < |classes| {
          assert ClassOK(classes, i, convert, eq);
          assert r[i] == classes[i];
          SamePivots(classes, r, i, r[i].pivot, eq);
          forall k | 1 <= k < |r[i].members|
            ensures NoneBefore(r, i, convert(r[i].members[k]).value, eq) == NoneBefore(classes, i, convert(r[i].members[k]).value, eq)
          {
            SamePivots(classes, r, i, convert(r[i].members[k]).value, eq);
          }
        }
      }
    }
  }

  /** The valid conversions are exactly those `convert` turns into a circuit,
      and there are classes iff there are valid conversions. */
  lemma {:induction false} CheckValid<X, C>(convs: seq<X>, convert: X -> Option<C>, eq: (C, C) -> Result<bool>)
    ensures forall x :: x in Check(convs, convert, eq).0 <==> x in convs && convert(x).Some?
    ensures multiset(Check(convs, convert, eq).0) <= multiset(convs)
    ensures |Check(convs, convert, eq).1| == 0 <==> |Check(convs, convert, eq).0| == 0
    decreases |convs|
  {
    if |convs| > 0 {
      var init := convs[..|convs| - 1];
      CheckValid(init, convert, eq);
      assert convs == init + [convs[|convs| - 1]];
    }
  }

  /** The classes partition the valid conversions: together they hold each
      valid conversion exactly as often as it occurs. */
  lemma {:induction false} CheckPartition<X, C>(convs: seq<X>, convert: X -> Option<C>, eq: (C, C) -> Result<bool>)
    ensures AllMembers(Check(convs, convert, eq).1) == multiset(Check(convs, convert, eq).0)
    decreases |convs|
  {
    if |convs| > 0 {
      var init := convs[..|convs| - 1];
      var x := convs[|convs| - 1];
      CheckPartition(init, convert, eq);
      if convert(x).Some? {
        PlaceMembers(Check(init, convert, eq).1, convert(x).value, x, eq);
      }
    }
  }

  /** Placing a conversion adds exactly that conversion to the classes. */
  lemma PlaceMembers<X, C>(classes: seq<Class<X, C>>, c: C, x: X, eq: (C, C) -> Result<bool>)
    ensures AllMembers(Place(classes, c, x, eq)) == AllMembers(classes) + multiset{x}
  {
    if |classes| == 0 {
      assert AllMembers(classes) == multiset{};
      assert [Class(c, [x])][1..] == [];
    } else {
      match FirstEquivalent(classes, c, eq, 0)
      case Some(k) => AllMembersAddTo(classes, k, x);
      case None => AllMembersAppend(classes, Class(c, [x]));
    }
  }

  /** Every class is well founded: a circuit joins the first pivot, in
      creation order, that reports equivalence, and founds a new class when
      none does, whether the oracle answered "no" or failed. */
  lemma {:induction false} CheckFounded<X, C>(convs: seq<X>, convert: X -> Option<C>, eq: (C, C) -> Result<bool>)
    ensures Founded(Check(convs, convert, eq).1, convert, eq)
    decreases |convs|
  {
    if |convs| > 0 {
      var init := convs[..|convs| - 1];
      var x := convs[|convs| - 1];
      CheckFounded(init, convert, eq);
      if convert(x).Some? {
        PlaceFounded(Check(init, convert, eq).1, convert(x).value, x, convert, eq);
      }
    }
  }

  /** The first valid conversion founds the first class. */
  lemma {:induction false} CheckFirstPivot<X, C>(convs: seq<X>, convert: X -> Option<C>, eq: (C, C) -> Result<bool>)
    requires |Check(convs, convert, eq).0| > 0
    ensures |Check(convs, convert, eq).1| > 0 && |Check(convs, convert, eq).1[0].members| > 0
    ensures Check(convs, convert, eq).1[0].members[0] == Check(convs, convert, eq).0[0]
    decreases |convs|
  {
    var init := convs[..|convs| - 1];
    var x := convs[|convs| - 1];
    CheckValid(init, convert, eq);
    var valid := Check(init, convert, eq).0;
    if |valid| > 0 {
      CheckFirstPivot(init, convert, eq);
    }
  }

  /** Results are saved iff two classes exist, whose pivots the oracle did not
      report equivalent; with a single class every later valid conversion was
      reported equivalent to the first. */
  lemma CheckSaved<X, C>(convs: seq<X>, convert: X -> Option<C>, eq: (C, C) -> Result<bool>)
    ensures var classes := Check(convs, convert, eq).1;
      SaveCrossCheck(classes) ==> eq(classes[0].pivot, classes[1].pivot) != Ok(true)
    ensures var (valid, classes) := Check(convs, convert, eq);
      |classes| == 1 ==>
        (multiset(classes[0].members) == multiset(valid) &&
         forall k :: 1 <= k < |classes[0].members| ==>
           (convert(classes[0].members[k]).Some? &&
            eq(classes[0].pivot, convert(classes[0].members[k]).value) == Ok(true)))
  {
    var (valid, classes) := Check(convs, convert, eq);
    CheckFounded(convs, convert, eq);
    CheckPartition(convs, convert, eq);
    if |classes| > 1 {
      assert ClassOK(classes, 1, convert, eq);
    }
    if |classes| == 1 {
      assert ClassOK(classes, 0, convert, eq);
      assert AllMembers(classes) == multiset(classes[0].members) + AllMembers(classes[1..]);
    }
  }
}
