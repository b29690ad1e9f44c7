/** The comparison scaffolding around the SMT solver: terms over booleans and
    bit-vectors with their meaning, width alignment, constant pinning, the
    pairwise chaining of comparators and the query asserted before the
    solver is called. */
module Smt {
  import opened Wrappers
  import opened Seqs
  import opened Combinatorics

  // --------------------------------------------------------------- terms

  datatype Sort = BoolSort | BvSort(width: nat)

  /** The fragment of SMT terms the comparators build. A constant
      `BvConst(v, w)` is built only with `v < 2^w`. */
  datatype Term =
    | Var(name: string, sort: Sort)
    | BoolConst(b: bool)
    | BvConst(value: nat, width: nat)
    | BoolToBv(cond: Term)
    | ZExt(arg: Term, extra: nat)
    | EqualsOrIff(lhs: Term, rhs: Term)
    | Iff(left: Term, right: Term)
    | Not(neg: Term)
    | AndAll(conj: seq<Term>)
    | OrAll(disj: seq<Term>)

  function SortOf(t: Term): Sort
  {
    match t
    case Var(_, s) => s
    case BvConst(_, w) => BvSort(w)
    case BoolToBv(_) => BvSort(1)
    case ZExt(a, k) => if SortOf(a).BvSort? then BvSort(SortOf(a).width + k) else BoolSort
    case _ => BoolSort
  }

  predicate IsBv(t: Term)
  {
    SortOf(t).BvSort?
  }

  function Width(t: Term): nat
    requires IsBv(t)
  {
    SortOf(t).width
  }

  /** `is_constant()` */
  predicate IsConstant(t: Term)
  {
    t.BoolConst? || t.BvConst?
  }

  /** The value of a term under an assignment of the variables: a bit-vector
      is its unsigned value, a boolean is 1 (true) or 0 (false). */
  function Eval(t: Term, env: string -> nat): nat
  {
    match t
    case Var(n, s) => if s.BoolSort? then env(n) % 2 else env(n) % Pow2(s.width)
    case BoolConst(b) => if b then 1 else 0
    case BvConst(v, _) => v
    case BoolToBv(c) => if Eval(c, env) == 1 then 1 else 0
    case ZExt(a, _) => Eval(a, env)
    case EqualsOrIff(a, b) => if Eval(a, env) == Eval(b, env) then 1 else 0
    case Iff(a, b) => if (Eval(a, env) == 1) == (Eval(b, env) == 1) then 1 else 0
    case Not(a) => if Eval(a, env) == 1 then 0 else 1
    case AndAll(ts) => if forall i :: 0 <= i < |ts| ==> Eval(ts[i], env) == 1 then 1 else 0
    case OrAll(ts) => if exists i :: 0 <= i < |ts| && Eval(ts[i], env) == 1 then 1 else 0
  }

  predicate Holds(t: Term, env: string -> nat)
  {
    Eval(t, env) == 1
  }

  // --------------------------------------------------------- align_width

  /** `bool_to_bv`: a boolean becomes the 1-bit vector `ite(b, 1, 0)`; a
      bit-vector is kept. */
  function ToBv(t: Term): (r: Term)
    ensures IsBv(r)
    ensures IsBv(t) ==> r == t
    ensures !IsBv(t) ==> Width(r) == 1 && forall env :: Eval(r, env) == if Holds(t, env) then 1 else 0
  {
    if IsBv(t) then t else BoolToBv(t)
  }

  /** `BinaryComparator.align_width`: zero-extend the narrower operand. */
  function AlignWidth(foo: Term, bar: Term): (r: (Term, Term))
    ensures IsBv(r.0) && IsBv(r.1)
    ensures Width(r.0) == Width(r.1) == Max(Width(ToBv(foo)), Width(ToBv(bar)))
    ensures forall env :: Eval(r.0, env) == Eval(ToBv(foo), env) && Eval(r.1, env) == Eval(ToBv(bar), env)
    ensures Width(ToBv(foo)) == Width(ToBv(bar)) ==> r == (ToBv(foo), ToBv(bar))
    ensures Width(ToBv(foo)) < Width(ToBv(bar)) ==>
      r == (ZExt(ToBv(foo), Width(ToBv(bar)) - Width(ToBv(foo))), ToBv(bar))
    ensures Width(ToBv(foo)) > Width(ToBv(bar)) ==>
      r == (ToBv(foo), ZExt(ToBv(bar), Width(ToBv(foo)) - Width(ToBv(bar))))
  {
    var f, b := ToBv(foo), ToBv(bar);
    var diff := Width(f) - Width(b);
    if diff == 0 then (f, b)
    else if diff < 0 then (ZExt(f, -diff), b)
    else (f, ZExt(b, diff))
  }

  /** The equation `always_equal` builds from two operands holds exactly when
      they carry the same value, booleans read as 0/1. */
  lemma AlignedEquation(foo: Term, bar: Term, env: string -> nat)
    ensures Holds(EqualsOrIff(AlignWidth(foo, bar).0, AlignWidth(foo, bar).1), env) <==>
      Eval(ToBv(foo), env) == Eval(ToBv(bar), env)
  {
  }

  // ---------------------------------------------------------- concretize

  /** `BinaryComparator.concretize` as written: a value that is `None` or 0 is
      replaced by `random`, the result of `getrandbits(width)`; a non-zero
      value must fit the width. */
  function ConcretizeAsWritten(foo: Term, value: Option<int>, random: nat): (r: Result<Term>)
    requires random < Pow2(Width(ToBv(foo)))
    ensures r.Err? <==> value.Some? && value.value != 0 && !(0 <= value.value < Pow2(Width(ToBv(foo))))
    ensures r.Err? ==> r.error == AssertionError
    ensures r.Ok? ==> r.value.BvConst? && r.value.width == Width(ToBv(foo))
    ensures r.Ok? && value.Some? && value.value != 0 ==> r.value.value == value.value
    ensures r.Ok? && (value.None? || value.value == 0) ==> r.value.value == random
  {
    var w := Width(ToBv(foo));
    if value.Some? && value.value != 0 then
      if 0 <= value.value < Pow2(w) then Ok(BvConst(value.value, w)) else Err(AssertionError)
    else Ok(BvConst(random, w))
  }

  /** Asking for the value 0 pins a 1-bit signal to the random value 1. */
  lemma ConcretizeIgnoresZero(foo: Term)
    requires foo == Var("x", BvSort(1))
    ensures ConcretizeAsWritten(foo, Some(0), 1) == Ok(BvConst(1, 1))
    ensures forall env :: Eval(ConcretizeAsWritten(foo, Some(0), 1).value, env) != 0
  {
  }

  /** `concretize` with an explicit value honoured, 0 included. */
  function Concretize(foo: Term, value: Option<int>, random: nat): (r: Result<Term>)
    requires random < Pow2(Width(ToBv(foo)))
    ensures r.Err? <==> value.Some? && !(0 <= value.value < Pow2(Width(ToBv(foo))))
    ensures r.Err? ==> r.error == AssertionError
    ensures r.Ok? ==> r.value.BvConst? && r.value.width == Width(ToBv(foo))
    ensures r.Ok? ==> r.value.value == (if value.Some? then value.value else random)
    ensures r.Ok? ==> r.value.value < Pow2(r.value.width)
  {
    var w := Width(ToBv(foo));
    if value.Some? then
      if 0 <= value.value < Pow2(w) then Ok(BvConst(value.value, w)) else Err(AssertionError)
    else Ok(BvConst(random, w))
  }

  /** The two differ only on the value 0. */
  lemma ConcretizeAgrees(foo: Term, value: Option<int>, random: nat)
    requires random < Pow2(Width(ToBv(foo)))
    ensures (value.None? || value.value != 0) ==> Concretize(foo, value, random) == ConcretizeAsWritten(foo, value, random)
    ensures value == Some(0) ==> Concretize(foo, value, random) == Ok(BvConst(0, Width(ToBv(foo))))
  {
  }

  // ------------------------------------------------------ variable pairs

  /** `_get_common_paths`: a circuit compared with itself contributes its own
      paths; two circuits contribute the union of theirs. */
  function CommonPaths<P(!new)>(same: bool, thisPaths: seq<P>, thatPaths: seq<P>): (r: set<P>)
    requires same ==> thisPaths == thatPaths
    ensures forall p :: p in r <==> p in thisPaths || p in thatPaths
  {
    if same then Elements(thisPaths) else Elements(thisPaths) + Elements(thatPaths)
  }

  /** A path present in one circuit only is still compared. */
  lemma CommonPathsNotIntersection<P(!new)>(p: P)
    ensures p in CommonPaths(false, [p], [])
  {
  }

  /** A signal's values at a state: a list of terms, or the endless run of
      1-bit zeros given for a declared but unused non-register. */
  datatype Signal = Listed(values: seq<Term>) | Zeros

  datatype Aligned = Aligned(itemName: string, these: Signal, those: Signal)

  /** A path is kept unless both sides are endless zeros; two lists must
      have equal lengths. */
  predicate Comparable(a: Signal, b: Signal)
  {
    (a.Listed? || b.Listed?) && (a.Listed? && b.Listed? ==> |a.values| == |b.values|)
  }

  /** A path whose lookups succeed and whose lists agree in length. */
  predicate Fits<P>(p: P, mine: P -> Result<Signal>, theirs: P -> Result<Signal>)
  {
    mine(p).Ok? && theirs(p).Ok? &&
    (mine(p).value.Listed? && theirs(p).value.Listed? ==> |mine(p).value.values| == |theirs(p).value.values|)
  }

  /** `_align_variables`: look every path up in both circuits; skip it when
      neither side has a length, and fail when two lengths differ. */
  function AlignVariables<P>(paths: seq<P>, name: P -> string, mine: P -> Result<Signal>, theirs: P -> Result<Signal>)
    : (r: Result<seq<Aligned>>)
    ensures r.Ok? <==> forall k :: 0 <= k < |paths| ==> Fits(paths[k], mine, theirs)
    ensures r.Ok? ==> |r.value| <= |paths| && forall k :: 0 <= k < |r.value| ==> Comparable(r.value[k].these, r.value[k].those)
    ensures r.Ok? ==> forall k :: 0 <= k < |paths| && Comparable(mine(paths[k]).value, theirs(paths[k]).value) ==>
      Aligned(name(paths[k]), mine(paths[k]).value, theirs(paths[k]).value) in r.value
    decreases |paths|
  {
    if |paths| == 0 then Ok([])
    else
      var p := paths[0];
      var these :- mine(p);
      var those :- theirs(p);
      if these.Listed? && those.Listed? && |these.values| != |those.values| then Err(AssertionError)
      else
        var rest :- AlignVariables(paths[1..], name, mine, theirs);
        assert forall k :: 1 <= k < |paths| ==> paths[k] == paths[1..][k - 1];
        if these.Zeros? && those.Zeros? then Ok(rest)
        else Ok([Aligned(name(p), these, those)] + rest)
  }

  /** `zip(these, those)`, an endless run of zeros pairing with every value
      of the list opposite. */
  function Zip(a: Aligned): (r: seq<(Term, Term)>)
    requires Comparable(a.these, a.those)
    ensures a.these.Listed? ==> |r| == |a.these.values| && forall i :: 0 <= i < |r| ==> r[i].0 == a.these.values[i]
    ensures a.those.Listed? ==> |r| == |a.those.values| && forall i :: 0 <= i < |r| ==> r[i].1 == a.those.values[i]
    ensures a.these.Zeros? ==> forall i :: 0 <= i < |r| ==> r[i].0 == BvConst(0, 1)
    ensures a.those.Zeros? ==> forall i :: 0 <= i < |r| ==> r[i].1 == BvConst(0, 1)
  {
    match (a.these, a.those)
    case (Listed(xs), Listed(ys)) => seq(|xs|, i requires 0 <= i < |xs| => (xs[i], ys[i]))
    case (Listed(xs), Zeros) => seq(|xs|, i requires 0 <= i < |xs| => (xs[i], BvConst(0, 1)))
    case (Zeros, Listed(ys)) => seq(|ys|, i requires 0 <= i < |ys| => (BvConst(0, 1), ys[i]))
  }

  /** The equations of one path, one per value pair. */
  function PairEquations(ps: seq<(Term, Term)>): (r: seq<Term>)
    ensures |r| == |ps|
    ensures forall i :: 0 <= i < |ps| ==> r[i] == EqualsOrIff(AlignWidth(ps[i].0, ps[i].1).0, AlignWidth(ps[i].0, ps[i].1).1)
  {
    seq(|ps|, i requires 0 <= i < |ps| => EqualsOrIff(AlignWidth(ps[i].0, ps[i].1).0, AlignWidth(ps[i].0, ps[i].1).1))
  }

  /** `always_equal`: the equations of every aligned path, in order. */
  function AlwaysEqual(aligned: seq<Aligned>): seq<Term>
    requires forall k :: 0 <= k < |aligned| ==> Comparable(aligned[k].these, aligned[k].those)
    decreases |aligned|
  {
    if |aligned| == 0 then [] else PairEquations(Zip(aligned[0])) + AlwaysEqual(aligned[1..])
  }

  predicate AllHold(ts: seq<Term>, env: string -> nat)
  {
    forall i :: 0 <= i < |ts| ==> Holds(ts[i], env)
  }

  /** Every pair carries equal values, booleans read as 0/1. */
  predicate PairsAgree(ps: seq<(Term, Term)>, env: string -> nat)
  {
    forall i :: 0 <= i < |ps| ==> Eval(ToBv(ps[i].0), env) == Eval(ToBv(ps[i].1), env)
  }

  /** Every value pair of a path carries equal values. */
  predicate PathAgrees(a: Aligned, env: string -> nat)
    requires Comparable(a.these, a.those)
  {
    PairsAgree(Zip(a), env)
  }

  lemma AllHoldConcat(a: seq<Term>, b: seq<Term>, env: string -> nat)
    ensures AllHold(a + b, env) <==> AllHold(a, env) && AllHold(b, env)
  {
    forall i | 0 <= i < |a| ensures (a + b)[i] == a[i] { }
    forall i | 0 <= i < |b| ensures (a + b)[|a| + i] == b[i] { }
    if AllHold(a, env) && AllHold(b, env) {
      forall i | 0 <= i < |a + b| ensures Holds((a + b)[i], env) {
        if i >= |a| { assert (a + b)[i] == b[i - |a|]; }
      }
    }
  }

  lemma AndAllMeaning(ts: seq<Term>, env: string -> nat)
    ensures Holds(AndAll(ts), env) <==> AllHold(ts, env)
  {
  }

  lemma OrAllMeaning(ts: seq<Term>, env: string -> nat)
    ensures Holds(OrAll(ts), env) <==> exists i :: 0 <= i < |ts| && Holds(ts[i], env)
  {
  }

  lemma AndTwo(a: Term, b: Term, env: string -> nat)
    ensures Holds(AndAll([a, b]), env) <==> Holds(a, env) && Holds(b, env)
  {
    AndAllMeaning([a, b], env);
    assert [a, b][0] == a && [a, b][1] == b;
  }

  lemma PairEquationsMeaning(ps: seq<(Term, Term)>, env: string -> nat)
    ensures AllHold(PairEquations(ps), env) <==> PairsAgree(ps, env)
  {
    forall i | 0 <= i < |ps|
      ensures Holds(PairEquations(ps)[i], env) <==> Eval(ToBv(ps[i].0), env) == Eval(ToBv(ps[i].1), env)
    {
      AlignedEquation(ps[i].0, ps[i].1, env);
    }
  }

  /** The equations of `always_equal` all hold exactly when every compared
      pair of values agrees. */
  lemma {:induction false} AlwaysEqualMeaning(aligned: seq<Aligned>, env: string -> nat)
    requires forall k :: 0 <= k < |aligned| ==> Comparable(aligned[k].these, aligned[k].those)
    ensures AllHold(AlwaysEqual(aligned), env) <==> forall k :: 0 <= k < |aligned| ==> PathAgrees(aligned[k], env)
    decreases |aligned|
  {
    if |aligned| > 0 {
      AlwaysEqualMeaning(aligned[1..], env);
      AllHoldConcat(PairEquations(Zip(aligned[0])), AlwaysEqual(aligned[1..]), env);
      PairEquationsMeaning(Zip(aligned[0]), env);
      assert forall k :: 1 <= k < |aligned| ==> aligned[k] == aligned[1..][k - 1];
    }
  }

  // ------------------------------------------------ equal_to_specific_value

  /** The value a pin carries: the requested one, or the random one when
      none is requested; as written, a request for 0 also draws the random
      value. */
  function PinnedValue(value: Option<int>, random: nat, asWritten: bool): int
  {
    if value.Some? && (!asWritten || value.value != 0) then value.value else random
  }

  /** `concretize` in either reading: as written (`if value:`) or corrected. */
  function Pin(foo: Term, value: Option<int>, random: nat, asWritten: bool): (r: Result<Term>)
    requires random < Pow2(Width(ToBv(foo)))
    ensures r.Err? <==> value.Some? && (asWritten ==> value.value != 0) && !(0 <= value.value < Pow2(Width(ToBv(foo))))
    ensures r.Ok? ==> r.value.BvConst? && r.value.value == PinnedValue(value, random, asWritten)
  {
    if asWritten then ConcretizeAsWritten(foo, value, random) else Concretize(foo, value, random)
  }

  /** One equation of `equal_to_specific_value`: kept when a side is a
      constant, otherwise conjoined with a pin of its left side. */
  function PinEquation(l: Term, r: Term, value: Option<int>, random: nat, asWritten: bool): (res: Result<Term>)
    requires random < Pow2(Width(ToBv(l)))
    ensures res.Err? <==> !IsConstant(l) && !IsConstant(r) && Pin(l, value, random, asWritten).Err?
    ensures res.Ok? && (IsConstant(l) || IsConstant(r)) ==> res.value == EqualsOrIff(l, r)
    ensures res.Ok? && !IsConstant(l) && !IsConstant(r) ==>
      res.value == AndAll([EqualsOrIff(Pin(l, value, random, asWritten).value, r), EqualsOrIff(l, r)])
  {
    if IsConstant(l) || IsConstant(r) then Ok(EqualsOrIff(l, r))
    else
      var pin :- Pin(l, value, random, asWritten);
      Ok(AndAll([EqualsOrIff(pin, r), EqualsOrIff(l, r)]))
  }

  /** A pinned equation implies the equation; beyond it, it demands that the
      right side carries the pinned value. */
  lemma PinEquationMeaning(l: Term, r: Term, value: Option<int>, random: nat, asWritten: bool, env: string -> nat)
    requires random < Pow2(Width(ToBv(l)))
    requires PinEquation(l, r, value, random, asWritten).Ok?
    ensures Holds(PinEquation(l, r, value, random, asWritten).value, env) ==> Holds(EqualsOrIff(l, r), env)
    ensures !IsConstant(l) && !IsConstant(r) ==>
      (Holds(PinEquation(l, r, value, random, asWritten).value, env) <==>
        (Holds(EqualsOrIff(l, r), env) && Eval(r, env) == PinnedValue(value, random, asWritten)))
  {
    if !IsConstant(l) && !IsConstant(r) {
      var pin := Pin(l, value, random, asWritten).value;
      assert PinEquation(l, r, value, random, asWritten).value == AndAll([EqualsOrIff(pin, r), EqualsOrIff(l, r)]);
      PinnedMeaning(l, r, pin, env);
    } else {
      assert PinEquation(l, r, value, random, asWritten).value == EqualsOrIff(l, r);
    }
  }

  /** The request the counterexample search makes, value 0: as written, the
      pinned equation of two non-constant sides demands the random value of
      the right side, not 0; corrected, it demands 0. */
  lemma PinZero(l: Term, r: Term, random: nat, env: string -> nat)
    requires random < Pow2(Width(ToBv(l)))
    requires !IsConstant(l) && !IsConstant(r)
    ensures PinEquation(l, r, Some(0), random, true).Ok? && PinEquation(l, r, Some(0), random, false).Ok?
    ensures Holds(PinEquation(l, r, Some(0), random, true).value, env) <==>
      (Holds(EqualsOrIff(l, r), env) && Eval(r, env) == random)
    ensures Holds(PinEquation(l, r, Some(0), random, false).value, env) <==>
      (Holds(EqualsOrIff(l, r), env) && Eval(r, env) == 0)
  {
    PinEquationMeaning(l, r, Some(0), random, true, env);
    PinEquationMeaning(l, r, Some(0), random, false, env);
  }

  /** Conjoining `pin == r` to `l == r` pins the value of `r`. */
  lemma PinnedMeaning(l: Term, r: Term, pin: Term, env: string -> nat)
    requires pin.BvConst?
    ensures Holds(AndAll([EqualsOrIff(pin, r), EqualsOrIff(l, r)]), env) <==>
      (Holds(EqualsOrIff(l, r), env) && Eval(r, env) == pin.value)
  {
    EqualsHolds(pin, r, env);
    AndTwo(EqualsOrIff(pin, r), EqualsOrIff(l, r), env);
  }

  lemma EqualsHolds(a: Term, b: Term, env: string -> nat)
    ensures Holds(EqualsOrIff(a, b), env) <==> Eval(a, env) == Eval(b, env)
    ensures a.BvConst? ==> Eval(a, env) == a.value
  {
  }

  /** `equal_to_specific_value` over a list of equations; `randoms[i]` is the
      value drawn for equation `i` when no value is given (or, as written,
      when the value 0 is given). */
  function EqualToSpecificValue(eqs: seq<Term>, value: Option<int>, randoms: seq<nat>, asWritten: bool): (r: Result<seq<Term>>)
    requires |randoms| == |eqs|
    requires forall i :: 0 <= i < |eqs| ==> eqs[i].EqualsOrIff? && IsBv(eqs[i].lhs)
    requires forall i :: 0 <= i < |eqs| ==> randoms[i] < Pow2(Width(eqs[i].lhs))
    ensures r.Ok? ==> |r.value| == |eqs| && forall i :: 0 <= i < |eqs| ==>
      PinEquation(eqs[i].lhs, eqs[i].rhs, value, randoms[i], asWritten) == Ok(r.value[i])
    ensures r.Err? ==> exists i :: 0 <= i < |eqs| && PinEquation(eqs[i].lhs, eqs[i].rhs, value, randoms[i], asWritten).Err?
    decreases |eqs|
  {
    if |eqs| == 0 then Ok([])
    else
      var first :- PinEquation(eqs[0].lhs, eqs[0].rhs, value, randoms[0], asWritten);
      var rest := EqualToSpecificValue(eqs[1..], value, randoms[1..], asWritten);
      if rest.Err? then
        var i :| 0 <= i < |eqs| - 1 && PinEquation(eqs[1..][i].lhs, eqs[1..][i].rhs, value, randoms[1..][i], asWritten).Err?;
        assert eqs[1..][i] == eqs[i + 1] && randoms[1..][i] == randoms[i + 1];
        Err(rest.error)
      else
        assert forall i :: 1 <= i < |eqs| ==> eqs[i] == eqs[1..][i - 1] && randoms[i] == randoms[1..][i - 1];
        Ok([first] + rest.value)
  }

  /** The pinned equations imply the equations they came from, in either
      reading of `concretize`. */
  lemma PinnedImplyEquations(eqs: seq<Term>, value: Option<int>, randoms: seq<nat>, asWritten: bool, env: string -> nat)
    requires |randoms| == |eqs|
    requires forall i :: 0 <= i < |eqs| ==> eqs[i].EqualsOrIff? && IsBv(eqs[i].lhs)
    requires forall i :: 0 <= i < |eqs| ==> randoms[i] < Pow2(Width(eqs[i].lhs))
    requires EqualToSpecificValue(eqs, value, randoms, asWritten).Ok?
    ensures AllHold(EqualToSpecificValue(eqs, value, randoms, asWritten).value, env) ==> AllHold(eqs, env)
  {
    var r := EqualToSpecificValue(eqs, value, randoms, asWritten).value;
    forall i | 0 <= i < |eqs| && Holds(r[i], env) ensures Holds(eqs[i], env) {
      PinEquationMeaning(eqs[i].lhs, eqs[i].rhs, value, randoms[i], asWritten, env);
      assert eqs[i] == EqualsOrIff(eqs[i].lhs, eqs[i].rhs);
    }
  }

  // ------------------------------------------------- PairwiseComparator

  /** `PairwiseComparator.__init__`: one comparator per adjacent pair; fewer
      than two comparees raise `ValueError`. */
  function Pairwise<X>(xs: seq<X>): (r: Result<seq<(X, X)>>)
    ensures r.Err? <==> |xs| <= 1
    ensures r.Err? ==> r.error == ValueError
    ensures r.Ok? ==> |r.value| == |xs| - 1 && forall i :: 0 <= i < |r.value| ==> r.value[i] == (xs[i], xs[i + 1])
  {
    if |xs| <= 1 then Err(ValueError)
    else Ok(seq(|xs| - 1, i requires 0 <= i < |xs| - 1 => (xs[i], xs[i + 1])))
  }

  /** Equalities along the chain of adjacent pairs make all comparees agree. */
  lemma {:induction false} PairwiseChains<X, V>(xs: seq<X>, f: X -> V)
    requires |xs| >= 2
    requires forall i :: 0 <= i < |Pairwise(xs).value| ==> f(Pairwise(xs).value[i].0) == f(Pairwise(xs).value[i].1)
    ensures forall i, j :: 0 <= i < |xs| && 0 <= j < |xs| ==> f(xs[i]) == f(xs[j])
  {
    var ps := Pairwise(xs).value;
    forall i | 0 <= i < |xs| ensures f(xs[i]) == f(xs[0]) {
      ChainTo(xs, f, i);
    }
  }

  lemma {:induction false} ChainTo<X, V>(xs: seq<X>, f: X -> V, i: nat)
    requires i < |xs|
    requires forall k :: 0 <= k < |xs| - 1 ==> f(xs[k]) == f(xs[k + 1])
    ensures f(xs[i]) == f(xs[0])
    decreases i
  {
    if i > 0 {
      ChainTo(xs, f, i - 1);
    }
  }

  // ------------------------------------------------------ the query split

  /** The positions of the partial circuits, in order. */
  function PartialIndices(partial: seq<bool>): (r: seq<nat>)
    ensures forall k :: 0 <= k < |r| ==> r[k] < |partial| && partial[r[k]]
    ensures forall i :: 0 <= i < |partial| && partial[i] ==> i in r
    ensures forall a, b :: 0 <= a < b < |r| ==> r[a] < r[b]
    decreases |partial|
  {
    if |partial| == 0 then []
    else
      var n := |partial| - 1;
      var init := PartialIndices(partial[..n]);
      init + (if partial[n] then [n] else [])
  }

  lemma {:induction false} NoPartial(partial: seq<bool>)
    requires forall i :: 0 <= i < |partial| ==> !partial[i]
    ensures PartialIndices(partial) == []
    decreases |partial|
  {
    if |partial| > 0 {
      NoPartial(partial[..|partial| - 1]);
    }
  }

  lemma {:induction false} OnePartial(partial: seq<bool>, p: nat)
    requires p < |partial| && partial[p]
    requires forall i :: 0 <= i < |partial| && i != p ==> !partial[i]
    ensures PartialIndices(partial) == [p]
    decreases |partial|
  {
    var n := |partial| - 1;
    if n == p {
      NoPartial(partial[..n]);
    } else {
      OnePartial(partial[..n], p);
    }
  }

  /** `Iff(t0, t1), Iff(t1, t2), ...` */
  function AdjacentIffs(ts: seq<Term>): (r: seq<Term>)
    ensures |r| == if |ts| <= 1 then 0 else |ts| - 1
    ensures forall i :: 0 <= i < |r| ==> r[i] == Iff(ts[i], ts[i + 1])
  {
    if |ts| <= 1 then [] else seq(|ts| - 1, i requires 0 <= i < |ts| - 1 => Iff(ts[i], ts[i + 1]))
  }

  /** All but position `p`. */
  function Without(ts: seq<Term>, p: nat): (r: seq<Term>)
    requires p < |ts|
    ensures |r| == |ts| - 1
    ensures forall i :: 0 <= i < |r| ==> r[i] == ts[if i < p then i else i + 1]
  {
    ts[..p] + ts[p + 1..]
  }

  function Negations(ts: seq<Term>): (r: seq<Term>)
    ensures |r| == |ts| && forall i :: 0 <= i < |ts| ==> r[i] == Not(ts[i])
  {
    seq(|ts|, i requires 0 <= i < |ts| => Not(ts[i]))
  }

  /** The assertion of `is_equivalent_to` over the transformation terms:
      without partial circuits, "not all adjacent pairs agree"; with one,
      "the partial one holds and some other does not"; with two or more,
      `NotImplementedError`. */
  function Query(ts: seq<Term>, partial: seq<bool>): (r: Result<Term>)
    requires |partial| == |ts|
    ensures r.Err? <==> |PartialIndices(partial)| >= 2
    ensures r.Err? ==> r.error == NotImplementedError
  {
    var idx := PartialIndices(partial);
    if |idx| == 0 then Ok(Not(AndAll(AdjacentIffs(ts))))
    else if |idx| >= 2 then Err(NotImplementedError)
    else
      var p := idx[0];
      Ok(AndAll([OrAll(Negations(Without(ts, p))), ts[p]]))
  }

  /** Some two of the terms disagree. */
  predicate Disagree(ts: seq<Term>, env: string -> nat)
  {
    exists i, j :: 0 <= i < |ts| && 0 <= j < |ts| && Holds(ts[i], env) != Holds(ts[j], env)
  }

  /** Adjacent agreement is agreement of all. */
  lemma AdjacentAgreement(ts: seq<Term>, env: string -> nat)
    ensures AllHold(AdjacentIffs(ts), env) <==> !Disagree(ts, env)
  {
    var iffs := AdjacentIffs(ts);
    if AllHold(iffs, env) && |ts| >= 2 {
      var f := (t: Term) => Holds(t, env);
      forall i | 0 <= i < |Pairwise(ts).value|
        ensures f(Pairwise(ts).value[i].0) == f(Pairwise(ts).value[i].1)
      {
        assert Holds(iffs[i], env);
      }
      PairwiseChains(ts, f);
    }
    if AllHold(iffs, env) && |ts| == 1 {
      assert forall i :: 0 <= i < |ts| ==> ts[i] == ts[0];
    }
    if !AllHold(iffs, env) {
      var i :| 0 <= i < |iffs| && !Holds(iffs[i], env);
      assert Holds(ts[i], env) != Holds(ts[i + 1], env);
    }
  }

  /** Without partial circuits the query is satisfied exactly by the states
      where two transformations disagree. */
  lemma QueryFull(ts: seq<Term>, partial: seq<bool>, env: string -> nat)
    requires |partial| == |ts| && forall i :: 0 <= i < |partial| ==> !partial[i]
    ensures Query(ts, partial).Ok?
    ensures Holds(Query(ts, partial).value, env) <==> Disagree(ts, env)
  {
    NoPartial(partial);
    assert Query(ts, partial).value == Not(AndAll(AdjacentIffs(ts)));
    AndAllMeaning(AdjacentIffs(ts), env);
    AdjacentAgreement(ts, env);
  }

  /** With one partial circuit the query is satisfied exactly by the states
      the partial transformation allows and some other one does not. */
  lemma QueryPartial(ts: seq<Term>, partial: seq<bool>, p: nat, env: string -> nat)
    requires |partial| == |ts| && p < |ts| && partial[p]
    requires forall i :: 0 <= i < |partial| && i != p ==> !partial[i]
    ensures Query(ts, partial).Ok?
    ensures Holds(Query(ts, partial).value, env) <==>
      Holds(ts[p], env) && exists j :: 0 <= j < |ts| && j != p && !Holds(ts[j], env)
  {
    OnePartial(partial, p);
    var negs := Negations(Without(ts, p));
    assert Query(ts, partial).value == AndAll([OrAll(negs), ts[p]]);
    AndTwo(OrAll(negs), ts[p], env);
    OrAllMeaning(negs, env);
    SomeOtherFails(ts, p, env);
  }

  lemma SomeOtherFails(ts: seq<Term>, p: nat, env: string -> nat)
    requires p < |ts|
    ensures (exists i :: 0 <= i < |ts| - 1 && Holds(Negations(Without(ts, p))[i], env)) <==>
      exists j :: 0 <= j < |ts| && j != p && !Holds(ts[j], env)
  {
    var others := Without(ts, p);
    var negs := Negations(others);
    if exists j :: 0 <= j < |ts| && j != p && !Holds(ts[j], env) {
      var j :| 0 <= j < |ts| && j != p && !Holds(ts[j], env);
      var i := if j < p then j else j - 1;
      assert others[i] == ts[j];
      assert Holds(negs[i], env);
    }
    if exists i :: 0 <= i < |ts| - 1 && Holds(negs[i], env) {
      var i :| 0 <= i < |ts| - 1 && Holds(negs[i], env);
      var j := if i < p then i else i + 1;
      assert !Holds(ts[j], env);
    }
  }

  /** `is_equivalent_to`: the query is asserted first, so two partial
      circuits raise before fewer than two comparees do; otherwise the
      answer is the negation of the solver's verdict `sat`. */
  function IsEquivalentTo(ts: seq<Term>, partial: seq<bool>, sat: bool): (r: Result<bool>)
    requires |partial| == |ts|
    ensures r.Err? <==> |PartialIndices(partial)| >= 2 || |ts| <= 1
    ensures |PartialIndices(partial)| >= 2 ==> r == Err(NotImplementedError)
    ensures |PartialIndices(partial)| < 2 && |ts| <= 1 ==> r == Err(ValueError)
    ensures r.Ok? ==> r.value == !sat
  {
    var _ :- Query(ts, partial);
    var _ :- Pairwise(ts);
    Ok(!sat)
  }
}
