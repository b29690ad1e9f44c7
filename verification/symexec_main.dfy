/** The emitter side of the symbolic-main handshake
    (`dependencies/verilator/src/V3EmitCSymExecMain.cpp`): Verilator's
    `--sym-exec-main` pass writes a C++ `main` in which KLEE makes the
    design's inputs and registers symbolic, takes a snapshot, raises the
    clocks, evaluates one step and takes a second snapshot.

    The model keeps the pass's decisions:
    - which variables become symbolic, which are reported as outputs, and
      which are clocks;
    - the C data type and width assumption chosen for each value;
    - the offset expressions that give every symbolic object a unique name;
    - the order of the generated program.
    Generated statements are a datatype; `Lines` renders each one to the
    text the pass hands to `puts`, one source line at a time. The pass
    writes through a `V3OutCFile`, whose formatter puts blanks in front of
    lines inside braces; `Indent` adds such a prefix to every line, and the
    handshake is proved whatever the prefixes are. */
module SymExecMain {
  import opened Wrappers
  import Strings
  import Combinatorics
  import VerilatorLl
  import Seqs

  // ------------------------------------------------------------ variables

  /** The kinds of basic data type the pass distinguishes: plain values are
      made symbolic, the rest are skipped. */
  datatype BasicKind = Value | StringKind | ForkSync | DelayScheduler | TriggerScheduler

  /** A variable's data type after `skipRefp`, as a chain of wrappers ending
      at a leaf. */
  datatype DType =
    | Container(sub: DType, subWide: bool)   // associative, wildcard, dynamic array, queue
    | ClassRef
    | Unpacked(lo: int, hi: int, sub: DType)
    | Basic(kind: BasicKind)
    | Unknown

  /** The attributes of an `AstVar` the pass reads. */
  datatype Var = Var(
    name: string, widthMin: nat, dtype: DType,
    isSignal: bool, isUsedClock: bool, isPrimaryIO: bool, isNonOutput: bool,
    isHideLocal: bool, isFuncLocal: bool, isNet: bool)

  /** A primary input or inout. */
  predicate IsPrimaryInish(v: Var) {
    v.isPrimaryIO && v.isNonOutput
  }

  datatype Role = Clock | Output | Symbolic | Ignored

  /** Where `visit(AstCReset*)` files a reset variable. */
  function RoleOf(v: Var): (r: Role)
    ensures !v.isSignal ==> r == Ignored
    ensures v.isSignal && v.isUsedClock ==> r == Clock
    ensures r == Output <==> v.isSignal && !v.isUsedClock && v.isPrimaryIO && !v.isNonOutput
    ensures r == Symbolic ==> v.isSignal && !v.isUsedClock && !v.isHideLocal && !v.isFuncLocal
    ensures r == Symbolic && v.isPrimaryIO ==> IsPrimaryInish(v)
    ensures r == Symbolic && v.isNet ==> IsPrimaryInish(v)
  {
    if !v.isSignal then Ignored
    else if v.isUsedClock then Clock
    else if v.isPrimaryIO && !v.isNonOutput then Output
    else if !v.isHideLocal && !v.isFuncLocal && (IsPrimaryInish(v) || (!v.isPrimaryIO && !v.isNet)) then Symbolic
    else Ignored
  }

  datatype Classes = Classes(symbolic: set<Var>, outputs: set<Var>, clocks: set<Var>)

  /** The three sets the visitor fills while walking the reset statements. */
  function Classify(resets: seq<Var>): (r: Classes)
    ensures forall v :: v in r.symbolic <==> v in resets && RoleOf(v) == Symbolic
    ensures forall v :: v in r.outputs <==> v in resets && RoleOf(v) == Output
    ensures forall v :: v in r.clocks <==> v in resets && RoleOf(v) == Clock
    ensures r.symbolic !! r.outputs && r.symbolic !! r.clocks && r.outputs !! r.clocks
  {
    if |resets| == 0 then Classes({}, {}, {})
    else
      var c := Classify(resets[..|resets| - 1]);
      var v := resets[|resets| - 1];
      assert forall x :: x in resets <==> x in resets[..|resets| - 1] || x == v;
      match RoleOf(v)
      case Clock => c.(clocks := c.clocks + {v})
      case Output => c.(outputs := c.outputs + {v})
      case Symbolic => c.(symbolic := c.symbolic + {v})
      case Ignored => c
  }

  // ------------------------------------------------------- C data types

  datatype CType = CData | SData | IData | QData | EData

  function Bits(t: CType): nat {
    match t
    case CData => 8
    case SData => 16
    case IData => 32
    case QData => 64
    case EData => 32
  }

  function TypeName(t: CType): string {
    match t
    case CData => "CData"
    case SData => "SData"
    case IData => "IData"
    case QData => "QData"
    case EData => "EData"
  }

  /** Verilator's `isQuad`: wider than an `IData`, at most a `QData`. */
  predicate IsQuad(width: nat) { 32 < width <= 64 }

  /** Verilator's `isWide`: held in an array of 32-bit words. */
  predicate IsWide(width: nat) { width > 64 }

  /** `VL_WORDS_I`: the number of 32-bit words of a wide value. */
  function Words(width: nat): (r: nat)
    ensures 32 * (r - 1) < width <= 32 * r || (width == 0 && r == 0)
  {
    (width + 31) / 32
  }

  /** The C type of a value that is not wide: the smallest one that holds
      `widthMin` bits. */
  function ScalarType(widthMin: nat): (r: CType)
    ensures r != EData
    ensures widthMin <= 64 ==> widthMin <= Bits(r)
    ensures Bits(r) == 8 || Bits(r) / 2 < widthMin
  {
    if IsQuad(widthMin) then QData
    else if widthMin > 16 then IData
    else if widthMin > 8 then SData
    else CData
  }

  /** Whether `klee_assume(x < 1 << width)` is emitted. For a value that is
      not wide this is exactly when its C type has more bits than the
      value. */
  predicate NeedsAssume(width: nat)
    ensures 1 <= width <= 64 ==> (NeedsAssume(width) <==> width < Bits(ScalarType(width)))
  {
    width != 8 && width != 16 && width != 32 && width != 64
  }

  // ------------------------------------------------------------- offsets

  /** What the digit of an offset expression counts: the loop variable
      `__Vi<depth>` of an unpacked array, or a fixed word of a wide value. */
  datatype Index = LoopIndex(depth: nat) | WordIndex(word: nat)

  datatype Digit = Digit(radix: nat, index: Index)

  /** An offset expression `((0)*r1+i1)*r2+i2 ...`, outermost digit first. */
  type Offset = seq<Digit>

  function LoopVar(depth: nat): string {
    "__Vi" + Strings.NatToString(depth)
  }

  function IndexText(i: Index): string {
    match i
    case LoopIndex(d) => LoopVar(d)
    case WordIndex(w) => Strings.NatToString(w)
  }

  /** The C expression the pass builds for an offset. */
  function OffsetText(o: Offset): string {
    if |o| == 0 then "0"
    else
      var d := o[|o| - 1];
      "(" + OffsetText(o[..|o| - 1]) + ")*" + Strings.NatToString(d.radix) + "+" + IndexText(d.index)
  }

  /** The value of a digit when loop variable `__Vi<d>` holds `env(d)`. */
  function IndexValue(i: Index, env: nat -> nat): nat {
    match i
    case LoopIndex(d) => env(d)
    case WordIndex(w) => w
  }

  /** The value of an offset expression. */
  function OffsetValue(o: Offset, env: nat -> nat): nat {
    if |o| == 0 then 0
    else OffsetValue(o[..|o| - 1], env) * o[|o| - 1].radix + IndexValue(o[|o| - 1].index, env)
  }

  /** Every digit lies below its radix, as the generated loops ensure. */
  predicate InRange(o: Offset, env: nat -> nat) {
    forall k :: 0 <= k < |o| ==> IndexValue(o[k].index, env) < o[k].radix
  }

  /** The number of values the digits can take together. */
  function Capacity(o: Offset): nat {
    if |o| == 0 then 1 else Capacity(o[..|o| - 1]) * o[|o| - 1].radix
  }

  predicate SameRadices(a: Offset, b: Offset) {
    |a| == |b| && forall k :: 0 <= k < |a| ==> a[k].radix == b[k].radix
  }

  lemma MulAtLeast(q: nat, n: nat)
    ensures q >= 1 ==> q * n >= n
  {
    if q >= 1 {
      assert q * n == (q - 1) * n + n;
    }
  }

  /** Quotient and remainder are unique. */
  lemma {:induction false} MixedRadixStep(p: nat, q: nat, n: nat, a: nat, b: nat)
    requires a < n && b < n && p * n + a == q * n + b
    ensures p == q && a == b
    decreases p
  {
    MulAtLeast(p, n);
    MulAtLeast(q, n);
    if p > 0 && q > 0 {
      assert p * n == (p - 1) * n + n;
      assert q * n == (q - 1) * n + n;
      MixedRadixStep(p - 1, q - 1, n, a, b);
    }
  }

  lemma LessMul(p: nat, c: nat, n: nat, a: nat)
    requires p < c && a < n
    ensures p * n + a < c * n
  {
    assert p * n + a < (p + 1) * n <= c * n;
  }

  /** An offset in range lies below the capacity of its digits. */
  lemma {:induction false} OffsetBelowCapacity(o: Offset, env: nat -> nat)
    requires InRange(o, env)
    ensures OffsetValue(o, env) < Capacity(o)
  {
    if |o| > 0 {
      var p := o[..|o| - 1];
      assert InRange(p, env) by {
        forall k | 0 <= k < |p| ensures IndexValue(p[k].index, env) < p[k].radix {
          assert p[k] == o[k];
        }
      }
      OffsetBelowCapacity(p, env);
      LessMul(OffsetValue(p, env), Capacity(p), o[|o| - 1].radix, IndexValue(o[|o| - 1].index, env));
    }
  }

  /** Mixed-radix numbering is one to one: two in-range offsets over the same
      radices with equal values agree digit by digit. */
  lemma {:induction false} OffsetInjective(a: Offset, b: Offset, ea: nat -> nat, eb: nat -> nat)
    requires SameRadices(a, b) && InRange(a, ea) && InRange(b, eb)
    requires OffsetValue(a, ea) == OffsetValue(b, eb)
    ensures forall k :: 0 <= k < |a| ==> IndexValue(a[k].index, ea) == IndexValue(b[k].index, eb)
  {
    if |a| > 0 {
      var n := |a| - 1;
      var pa, pb := a[..n], b[..n];
      assert SameRadices(pa, pb) && InRange(pa, ea) && InRange(pb, eb) by {
        forall k | 0 <= k < n
          ensures pa[k].radix == pb[k].radix
          ensures IndexValue(pa[k].index, ea) < pa[k].radix && IndexValue(pb[k].index, eb) < pb[k].radix
        {
          assert pa[k] == a[k] && pb[k] == b[k];
        }
      }
      MixedRadixStep(OffsetValue(pa, ea), OffsetValue(pb, eb), a[n].radix,
                     IndexValue(a[n].index, ea), IndexValue(b[n].index, eb));
      OffsetInjective(pa, pb, ea, eb);
      forall k | 0 <= k < n
        ensures IndexValue(a[k].index, ea) == IndexValue(b[k].index, eb)
      {
        assert pa[k] == a[k] && pb[k] == b[k];
      }
    }
  }

  // ----------------------------------------------------------- statements

  /** One generated statement (or brace) of the symbolic `main`. */
  datatype Stmt =
    | Open
    | Alloca(name: string)                  // buffer for the object name
    | Sprintf(name: string, offset: Offset) // object name `<name>_<offset>`
    | Declare(ctype: CType, temp: string)
    | MakeSymbolic(temp: string, unique: string)
    | Assume(temp: string, ctype: CType, width: nat)
    | Assign(lvalue: string, temp: string)
    | Close
    | ForOpen(ivar: string, elements: nat)
    | ForClose

  /** The buffer holding a formatted object name. */
  const NameBuffer: string := "name"

  /** The exact text of a statement, one string per source line. */
  function Lines(s: Stmt): (r: seq<string>)
    ensures |r| > 0
  {
    match s
    case Open => ["{\n"]
    case Alloca(name) =>
      ["char* " + NameBuffer + " = (char *) alloca(" + Strings.NatToString(|name| + 20) + ");\n"]
    case Sprintf(name, offset) =>
      ["sprintf(" + NameBuffer + ", \"%s_%d\", \"" + name + "\", " + OffsetText(offset) + ");\n"]
    case Declare(t, temp) => [TypeName(t) + " " + temp + ";\n"]
    case MakeSymbolic(temp, unique) =>
      ["klee_make_symbolic(&" + temp + ", sizeof(" + temp + "), " + unique + ");\n"]
    case Assume(temp, t, width) =>
      ["klee_assume(" + temp + " < ((" + TypeName(t) + ") 1UL << " + Strings.NatToString(width) + "));\n"]
    case Assign(lvalue, temp) => ["topp->rootp->" + lvalue + " = " + temp + ";\n"]
    case Close => ["\n", "}\n"]
    case ForOpen(ivar, n) =>
      ["for (int " + ivar + "=0; " + ivar + "<" + Strings.NatToString(n) + "; ++" + ivar + ") {\n"]
    case ForClose => ["}\n"]
  }

  function AllLines(stmts: seq<Stmt>): seq<string> {
    if |stmts| == 0 then [] else Lines(stmts[0]) + AllLines(stmts[1..])
  }

  function SymbolicCount(stmts: seq<Stmt>): nat {
    if |stmts| == 0 then 0
    else (if stmts[0].MakeSymbolic? then 1 else 0) + SymbolicCount(stmts[1..])
  }

  lemma {:induction false} SymbolicCountConcat(a: seq<Stmt>, b: seq<Stmt>)
    ensures SymbolicCount(a + b) == SymbolicCount(a) + SymbolicCount(b)
  {
    if |a| > 0 {
      assert (a + b)[1..] == a[1..] + b;
      SymbolicCountConcat(a[1..], b);
    } else {
      assert a + b == b;
    }
  }

  /** The width to which the assumptions among `stmts` bound their
      temporary, starting from the `top` bits its C type holds. */
  function AssumedWidth(stmts: seq<Stmt>, top: nat): nat {
    if |stmts| == 0 then top
    else if stmts[0].Assume? then Min(stmts[0].width, AssumedWidth(stmts[1..], top))
    else AssumedWidth(stmts[1..], top)
  }

  function Min(a: nat, b: nat): nat { if a <= b then a else b }

  lemma {:induction false} AssumedWidthConcat(a: seq<Stmt>, b: seq<Stmt>, top: nat)
    ensures AssumedWidth(a + b, top) == AssumedWidth(a, AssumedWidth(b, top))
  {
    if |a| > 0 {
      assert (a + b)[1..] == a[1..] + b;
      AssumedWidthConcat(a[1..], b, top);
    } else {
      assert a + b == b;
    }
  }

  /** The object-name buffer after running `stmts` from `buffer`. */
  function BufferAfter(stmts: seq<Stmt>, env: nat -> nat, buffer: Option<string>): Option<string> {
    if |stmts| == 0 then buffer
    else match stmts[0]
      case Sprintf(name, offset) =>
        BufferAfter(stmts[1..], env, Some(name + "_" + Strings.NatToString(OffsetValue(offset, env))))
      case _ => BufferAfter(stmts[1..], env, buffer)
  }

  /** The name KLEE gives the first object `stmts` make symbolic: the
      formatted buffer when `klee_make_symbolic` is passed the buffer, else
      the quoted literal it is passed; `env` gives the loop variables. */
  function ObjectName(stmts: seq<Stmt>, env: nat -> nat, buffer: Option<string>): Option<string> {
    if |stmts| == 0 then None
    else match stmts[0]
      case Sprintf(name, offset) =>
        ObjectName(stmts[1..], env, Some(name + "_" + Strings.NatToString(OffsetValue(offset, env))))
      case MakeSymbolic(_, unique) =>
        if unique == NameBuffer then buffer
        else if |unique| >= 2 && unique[0] == '"' && unique[|unique| - 1] == '"' then Some(unique[1..|unique| - 1])
        else None
      case _ => ObjectName(stmts[1..], env, buffer)
  }

  predicate NoMake(stmts: seq<Stmt>) {
    forall i :: 0 <= i < |stmts| ==> !stmts[i].MakeSymbolic?
  }

  predicate NoAssume(stmts: seq<Stmt>) {
    forall i :: 0 <= i < |stmts| ==> !stmts[i].Assume?
  }

  lemma {:induction false} ObjectNameConcat(a: seq<Stmt>, b: seq<Stmt>, env: nat -> nat, buffer: Option<string>)
    requires NoMake(a)
    ensures ObjectName(a + b, env, buffer) == ObjectName(b, env, BufferAfter(a, env, buffer))
  {
    if |a| > 0 {
      assert (a + b)[1..] == a[1..] + b;
      assert !a[0].MakeSymbolic?;
      if a[0].Sprintf? {
        ObjectNameConcat(a[1..], b, env, Some(a[0].name + "_" + Strings.NatToString(OffsetValue(a[0].offset, env))));
      } else {
        ObjectNameConcat(a[1..], b, env, buffer);
      }
    } else {
      assert a + b == b;
    }
  }

  lemma {:induction false} NoMakeCount(s: seq<Stmt>)
    requires NoMake(s)
    ensures SymbolicCount(s) == 0
  {
    if |s| > 0 {
      NoMakeCount(s[1..]);
    }
  }

  lemma {:induction false} NoAssumeWidth(s: seq<Stmt>, top: nat)
    requires NoAssume(s)
    ensures AssumedWidth(s, top) == top
  {
    if |s| > 0 {
      NoAssumeWidth(s[1..], top);
    }
  }

  // ------------------------------------------------------------- snippets

  /** Whether a `width`-bit value held in type `t` is bounded by an
      assumption. As written, unless the width is one of the four C type
      sizes; corrected, exactly when the type holds more bits than the
      value. */
  predicate Bounded(t: CType, width: nat, asWritten: bool) {
    if asWritten then NeedsAssume(width) else width < Bits(t)
  }

  /** For a value that is not wide the two readings agree. */
  lemma ScalarBoundAgrees(width: nat)
    requires width <= 64
    ensures Bounded(ScalarType(width), width, true) == Bounded(ScalarType(width), width, false)
  {
  }

  function TempName(name: string, suffix: string): string {
    if suffix == "" then name else "temp"
  }

  function UniqueName(name: string, suffix: string): string {
    if suffix == "" then "\"" + name + "\"" else NameBuffer
  }

  /** The statements before `klee_make_symbolic`: the object-name buffer
      (only when the suffix is not empty) and the temporary. */
  function SnippetHead(t: CType, name: string, suffix: string, offset: Offset): (r: seq<Stmt>)
    ensures NoMake(r) && NoAssume(r)
  {
    [Open] + (if suffix == "" then [] else [Alloca(name), Sprintf(name, offset)])
      + [Declare(t, TempName(name, suffix))]
  }

  /** `klee_make_symbolic`, the optional bound, and the store into the
      model field. */
  function SnippetTail(t: CType, name: string, suffix: string, width: nat, asWritten: bool): seq<Stmt> {
    var temp := TempName(name, suffix);
    [MakeSymbolic(temp, UniqueName(name, suffix))]
      + (if Bounded(t, width, asWritten) then [Assume(temp, t, width)] else [])
      + [Assign(name + suffix, temp), Close]
  }

  lemma HeadBuffer(t: CType, name: string, suffix: string, offset: Offset, env: nat -> nat)
    ensures BufferAfter(SnippetHead(t, name, suffix, offset), env, None) ==
            if suffix == "" then None
            else Some(name + "_" + Strings.NatToString(OffsetValue(offset, env)))
  {
    var d := [Declare(t, TempName(name, suffix))];
    var h := SnippetHead(t, name, suffix, offset);
    assert BufferAfter(d, env, None) == None;
    if suffix != "" {
      var full := Some(name + "_" + Strings.NatToString(OffsetValue(offset, env)));
      assert BufferAfter(d, env, full) == full;
      assert h[0] == Open && h[1] == Alloca(name) && h[2] == Sprintf(name, offset);
      assert h[1..][1..] == [Sprintf(name, offset)] + d;
      assert ([Sprintf(name, offset)] + d)[1..] == d;
      assert BufferAfter(h, env, None) == BufferAfter(h[1..], env, None);
      assert BufferAfter(h[1..], env, None) == BufferAfter(h[1..][1..], env, None);
      assert BufferAfter([Sprintf(name, offset)] + d, env, None) == BufferAfter(d, env, full);
    } else {
      assert h[1..] == d;
    }
  }

  lemma SnippetName(t: CType, name: string, suffix: string, offset: Offset, width: nat, asWritten: bool, env: nat -> nat)
    ensures ObjectName(SnippetHead(t, name, suffix, offset) + SnippetTail(t, name, suffix, width, asWritten), env, None) ==
              Some(if suffix == "" then name else name + "_" + Strings.NatToString(OffsetValue(offset, env)))
  {
    var tail := SnippetTail(t, name, suffix, width, asWritten);
    ObjectNameConcat(SnippetHead(t, name, suffix, offset), tail, env, None);
    HeadBuffer(t, name, suffix, offset, env);
    assert tail[0] == MakeSymbolic(TempName(name, suffix), UniqueName(name, suffix));
    if suffix == "" {
      var q := "\"" + name + "\"";
      assert q[0] == '"' && q != NameBuffer;
      assert q[1..|q| - 1] == name;
    }
  }

  lemma SnippetCount(t: CType, name: string, suffix: string, offset: Offset, width: nat, asWritten: bool)
    ensures SymbolicCount(SnippetHead(t, name, suffix, offset) + SnippetTail(t, name, suffix, width, asWritten)) == 1
  {
    var head := SnippetHead(t, name, suffix, offset);
    var tail := SnippetTail(t, name, suffix, width, asWritten);
    NoMakeCount(head);
    NoMakeCount(tail[1..]);
    SymbolicCountConcat(head, tail);
  }

  lemma SnippetWidth(t: CType, name: string, suffix: string, offset: Offset, width: nat, asWritten: bool)
    ensures AssumedWidth(SnippetHead(t, name, suffix, offset) + SnippetTail(t, name, suffix, width, asWritten), Bits(t)) ==
              (if Bounded(t, width, asWritten) then Min(width, Bits(t)) else Bits(t))
  {
    var head := SnippetHead(t, name, suffix, offset);
    var tail := SnippetTail(t, name, suffix, width, asWritten);
    var temp := TempName(name, suffix);
    var bound := if Bounded(t, width, asWritten) then [Assume(temp, t, width)] else [];
    var store := [Assign(name + suffix, temp), Close];
    assert tail[1..] == bound + store;
    NoAssumeWidth(store, Bits(t));
    AssumedWidthConcat(bound, store, Bits(t));
    NoAssumeWidth(head, AssumedWidth(tail, Bits(t)));
    AssumedWidthConcat(head, tail, Bits(t));
  }

  lemma SnippetShape(t: CType, name: string, suffix: string, offset: Offset, width: nat, asWritten: bool)
    ensures var r := SnippetHead(t, name, suffix, offset) + SnippetTail(t, name, suffix, width, asWritten);
      && (|r| >= 2 && r[0] == Open && r[|r| - 1] == Close)
      && ((exists i :: 0 <= i < |r| && r[i].Assume?) <==> Bounded(t, width, asWritten))
      && ((exists i :: 0 <= i < |r| && r[i].Alloca?) <==> suffix != "")
      && (forall i :: 0 <= i < |r| && r[i].Sprintf? ==> r[i] == Sprintf(name, offset))
      && Assign(name + suffix, TempName(name, suffix)) in r
  {
    var temp := TempName(name, suffix);
    var pre := if suffix == "" then [] else [Alloca(name), Sprintf(name, offset)];
    var bound := if Bounded(t, width, asWritten) then [Assume(temp, t, width)] else [];
    var make := MakeSymbolic(temp, UniqueName(name, suffix));
    assert SnippetHead(t, name, suffix, offset) + SnippetTail(t, name, suffix, width, asWritten)
      == [Open] + pre + [Declare(t, temp), make] + bound + [Assign(name + suffix, temp), Close];
    SnippetPieces(pre, bound, Declare(t, temp), make, Assign(name + suffix, temp), Sprintf(name, offset));
  }

  /** The shape of a snippet from its optional pieces: `pre` holds the
      only buffer statements and `bound` the only bound. */
  lemma SnippetPieces(pre: seq<Stmt>, bound: seq<Stmt>, decl: Stmt, make: Stmt, store: Stmt, fmt: Stmt)
    requires !decl.Assume? && !decl.Alloca? && !decl.Sprintf?
    requires !make.Assume? && !make.Alloca? && !make.Sprintf?
    requires !store.Assume? && !store.Alloca? && !store.Sprintf?
    requires fmt.Sprintf? && (pre == [] || (|pre| == 2 && pre[0].Alloca? && pre[1] == fmt))
    requires forall i :: 0 <= i < |bound| ==> bound[i].Assume?
    ensures var r := [Open] + pre + [decl, make] + bound + [store, Close];
      && (|r| >= 2 && r[0] == Open && r[|r| - 1] == Close)
      && ((exists i :: 0 <= i < |r| && r[i].Assume?) <==> |bound| > 0)
      && ((exists i :: 0 <= i < |r| && r[i].Alloca?) <==> |pre| > 0)
      && (forall i :: 0 <= i < |r| && r[i].Sprintf? ==> r[i] == fmt)
      && store in r
  {
    var r := [Open] + pre + [decl, make] + bound + [store, Close];
    var k := |pre| + 3;
    assert forall i :: 0 <= i < |r| ==> r[i] == if i == 0 then Open
      else if i <= |pre| then pre[i - 1]
      else if i == |pre| + 1 then decl
      else if i == |pre| + 2 then make
      else if i < k + |bound| then bound[i - k]
      else if i == k + |bound| then store
      else Close;
    if |bound| > 0 {
      assert r[k].Assume?;
    }
    if |pre| > 0 {
      assert r[1].Alloca?;
    }
    assert r[k + |bound|] == store;
  }

  /** `emitVarMadeSymbolic`: declare a temporary, make it symbolic under a
      unique object name, bound it to `width` bits when its type does not
      already, and store it into the model field `name + suffix`. */
  function MadeSymbolic(t: CType, name: string, suffix: string, offset: Offset, width: nat, asWritten: bool)
    : (r: seq<Stmt>)
    ensures |r| >= 2 && r[0] == Open && r[|r| - 1] == Close
    ensures SymbolicCount(r) == 1
    ensures (exists i :: 0 <= i < |r| && r[i].Assume?) <==> Bounded(t, width, asWritten)
    ensures AssumedWidth(r, Bits(t)) == (if Bounded(t, width, asWritten) then Min(width, Bits(t)) else Bits(t))
    ensures !asWritten ==> AssumedWidth(r, Bits(t)) == Min(width, Bits(t))
    ensures (exists i :: 0 <= i < |r| && r[i].Alloca?) <==> suffix != ""
    ensures forall i :: 0 <= i < |r| && r[i].Sprintf? ==> r[i] == Sprintf(name, offset)
    ensures forall env :: ObjectName(r, env, None) ==
              Some(if suffix == "" then name else name + "_" + Strings.NatToString(OffsetValue(offset, env)))
    ensures Assign(name + suffix, TempName(name, suffix)) in r
  {
    SnippetShape(t, name, suffix, offset, width, asWritten);
    SnippetCount(t, name, suffix, offset, width, asWritten);
    SnippetWidth(t, name, suffix, offset, width, asWritten);
    assert forall env :: ObjectName(SnippetHead(t, name, suffix, offset) + SnippetTail(t, name, suffix, width, asWritten), env, None) ==
             Some(if suffix == "" then name else name + "_" + Strings.NatToString(OffsetValue(offset, env))) by {
      forall env {
        SnippetName(t, name, suffix, offset, width, asWritten, env);
      }
    }
    SnippetHead(t, name, suffix, offset) + SnippetTail(t, name, suffix, width, asWritten)
  }

  // --------------------------------------------------------- wide values

  /** The width the source gives word `w` of a wide value: the remainder
      `widthMin % 32` for the last word, which is 0 when `widthMin` is a
      multiple of 32. */
  function WordWidthAsWritten(widthMin: nat, w: nat): nat {
    if w == Words(widthMin) - 1 then widthMin % 32 else 32
  }

  /** The width of word `w`: what is left of `widthMin` after the full
      words below it, at most 32. */
  function WordWidth(widthMin: nat, w: nat): (r: nat)
    requires w < Words(widthMin)
    ensures 1 <= r <= 32
  {
    if w == Words(widthMin) - 1 then widthMin - 32 * w else 32
  }

  function WordSuffix(suffix: string, w: nat): (r: string)
    ensures r != ""
  {
    suffix + "[" + Strings.NatToString(w) + "]"
  }

  /** The snippet for word `w` of a wide variable. */
  function WordSnippet(v: Var, suffix: string, offset: Offset, asWritten: bool, w: nat): seq<Stmt>
    requires w < Words(v.widthMin)
  {
    MadeSymbolic(EData, v.name, WordSuffix(suffix, w),
                 offset + [Digit(Words(v.widthMin), WordIndex(w))],
                 if asWritten then WordWidthAsWritten(v.widthMin, w) else WordWidth(v.widthMin, w),
                 asWritten)
  }

  /** An offset that selects one of `words` words below `base`. */
  predicate WordOffset(o: Offset, base: Offset, words: nat) {
    |o| == |base| + 1 && o[..|base|] == base &&
    o[|base|].radix == words && o[|base|].index.WordIndex? && o[|base|].index.word < words
  }

  /** The snippets for words `w`, `w + 1`, ... of a wide variable. */
  function WideFrom(v: Var, suffix: string, offset: Offset, asWritten: bool, w: nat): (r: seq<Stmt>)
    requires w <= Words(v.widthMin)
    ensures SymbolicCount(r) == Words(v.widthMin) - w
    ensures (|r| == 0) == (w == Words(v.widthMin))
    decreases Words(v.widthMin) - w
  {
    if w == Words(v.widthMin) then []
    else
      var here := WordSnippet(v, suffix, offset, asWritten, w);
      var rest := WideFrom(v, suffix, offset, asWritten, w + 1);
      SymbolicCountConcat(here, rest);
      here + rest
  }

  /** Every object name among `r` is formatted from `name` and an offset
      that selects one of `words` words below `base`. */
  predicate WordNames(r: seq<Stmt>, name: string, base: Offset, words: nat) {
    forall i :: 0 <= i < |r| && r[i].Sprintf? ==> r[i].name == name && WordOffset(r[i].offset, base, words)
  }

  lemma WordNamesConcat(a: seq<Stmt>, b: seq<Stmt>, name: string, base: Offset, words: nat)
    requires WordNames(a, name, base, words) && WordNames(b, name, base, words)
    ensures WordNames(a + b, name, base, words)
  {
    assert forall i :: |a| <= i < |a| + |b| ==> (a + b)[i] == b[i - |a|];
  }

  lemma WordSnippetNames(v: Var, suffix: string, offset: Offset, asWritten: bool, w: nat)
    requires w < Words(v.widthMin)
    ensures WordNames(WordSnippet(v, suffix, offset, asWritten, w), v.name, offset, Words(v.widthMin))
  {
    var o := offset + [Digit(Words(v.widthMin), WordIndex(w))];
    assert o[..|offset|] == offset;
    assert WordOffset(o, offset, Words(v.widthMin));
  }

  /** Every object name of a wide variable is formatted from its name and an
      offset that selects one of its words. */
  lemma {:induction false} WideFromOffsets(v: Var, suffix: string, offset: Offset, asWritten: bool, w: nat)
    requires w <= Words(v.widthMin)
    ensures WordNames(WideFrom(v, suffix, offset, asWritten, w), v.name, offset, Words(v.widthMin))
    decreases Words(v.widthMin) - w
  {
    if w < Words(v.widthMin) {
      WideFromOffsets(v, suffix, offset, asWritten, w + 1);
      WordSnippetNames(v, suffix, offset, asWritten, w);
      WordNamesConcat(WordSnippet(v, suffix, offset, asWritten, w), WideFrom(v, suffix, offset, asWritten, w + 1),
                      v.name, offset, Words(v.widthMin));
    }
  }

  /** The total width of the first `k` corrected words. */
  function WidthTotal(widthMin: nat, k: nat): nat
    requires k <= Words(widthMin)
  {
    if k == 0 then 0 else WidthTotal(widthMin, k - 1) + WordWidth(widthMin, k - 1)
  }

  /** The total width of the first `k` words as the source computes them. */
  function WidthTotalAsWritten(widthMin: nat, k: nat): nat {
    if k == 0 then 0 else WidthTotalAsWritten(widthMin, k - 1) + WordWidthAsWritten(widthMin, k - 1)
  }

  /** The corrected words cover the value exactly: their widths add up to
      `widthMin`. */
  lemma {:induction false} WordWidthsCover(widthMin: nat, k: nat)
    requires k <= Words(widthMin)
    ensures WidthTotal(widthMin, k) == (if k == Words(widthMin) then widthMin else 32 * k)
  {
    if k > 0 {
      WordWidthsCover(widthMin, k - 1);
    }
  }

  lemma {:induction false} WidthTotalsAgreeBelowLast(widthMin: nat, k: nat)
    requires k < Words(widthMin)
    ensures WidthTotalAsWritten(widthMin, k) == WidthTotal(widthMin, k) == 32 * k
  {
    if k > 0 {
      WidthTotalsAgreeBelowLast(widthMin, k - 1);
    }
  }

  /** Corrected, every word of a wide value is bounded to exactly its own
      width, and the words together cover exactly the value's bits. */
  lemma WordsBoundedExactly(v: Var, suffix: string, offset: Offset, w: nat)
    requires IsWide(v.widthMin) && w < Words(v.widthMin)
    ensures WidthTotal(v.widthMin, Words(v.widthMin)) == v.widthMin
    ensures AssumedWidth(WordSnippet(v, suffix, offset, false, w), 32) == WordWidth(v.widthMin, w)
  {
    WordWidthsCover(v.widthMin, Words(v.widthMin));
  }

  /** As written, a wide value whose width is a multiple of 32 gets a last
      word of width 0: its assumption `temp < 1 << 0` pins a word that
      should range over 32 bits to 0, and the words cover 32 bits less than
      the value. */
  lemma LastWordPinnedAsWritten(v: Var, suffix: string, offset: Offset)
    requires IsWide(v.widthMin) && v.widthMin % 32 == 0
    ensures WordWidth(v.widthMin, Words(v.widthMin) - 1) == 32
    ensures AssumedWidth(WordSnippet(v, suffix, offset, true, Words(v.widthMin) - 1), 32) == 0
    ensures WidthTotalAsWritten(v.widthMin, Words(v.widthMin)) == v.widthMin - 32
  {
    WidthTotalsAgreeBelowLast(v.widthMin, Words(v.widthMin) - 1);
  }

  /** As written, a wide value whose last word holds 8 or 16 bits gets no
      assumption for that word, so all 32 bits of it are symbolic. */
  lemma LastWordUnboundedAsWritten(v: Var, suffix: string, offset: Offset)
    requires IsWide(v.widthMin) && (v.widthMin % 32 == 8 || v.widthMin % 32 == 16)
    ensures WordWidth(v.widthMin, Words(v.widthMin) - 1) == v.widthMin % 32
    ensures AssumedWidth(WordSnippet(v, suffix, offset, true, Words(v.widthMin) - 1), 32) == 32
  {
  }

  /** Two registers that show both discrepancies: a 96-bit one whose top
      word is pinned to 0, and a 72-bit one whose top word is unbounded. */
  lemma WideRegistersAsWritten(v96: Var, v72: Var)
    requires v96.widthMin == 96 && v72.widthMin == 72
    ensures Words(96) == 3 && WordWidth(96, 2) == 32
    ensures AssumedWidth(WordSnippet(v96, "", [], true, 2), 32) == 0
    ensures Words(72) == 3 && WordWidth(72, 2) == 8
    ensures AssumedWidth(WordSnippet(v72, "", [], true, 2), 32) == 32
  {
    LastWordPinnedAsWritten(v96, "", []);
    LastWordUnboundedAsWritten(v72, "", []);
  }

  // ------------------------------------------------------------ recursion

  /** Whether the chain ends at a value that is made symbolic. */
  predicate MakesSymbolic(dt: DType) {
    match dt
    case Container(sub, _) => MakesSymbolic(sub)
    case Unpacked(_, _, sub) => MakesSymbolic(sub)
    case Basic(kind) => kind == Value
    case _ => false
  }

  /** The internal error the pass stops with: an unpacked range with
      `hi < lo`, or a leaf type it does not know. */
  function ChainError(dt: DType): Option<Error> {
    match dt
    case Container(sub, _) => ChainError(sub)
    case Unpacked(lo, hi, sub) => if hi < lo then Some(AssertionError) else ChainError(sub)
    case Unknown => Some(RuntimeError)
    case _ => None
  }

  /** The loop digits the unpacked arrays of a chain contribute, outermost
      first, numbering loop variables from `depth`. */
  function LoopDigits(dt: DType, depth: nat): Offset {
    match dt
    case Container(sub, _) => LoopDigits(sub, depth + 1)
    case Unpacked(lo, hi, sub) =>
      if hi < lo then [] else [Digit(hi - lo + 1, LoopIndex(depth))] + LoopDigits(sub, depth + 1)
    case _ => []
  }

  /** An offset of a symbolic object of `v` under the loop digits `base`:
      for a wide value one more digit selects the word. */
  predicate Extends(o: Offset, base: Offset, v: Var) {
    if IsWide(v.widthMin) then WordOffset(o, base, Words(v.widthMin)) else o == base
  }

  /** `emitVarMadeSymbolicRecurse`. */
  function Recurse(v: Var, dt: DType, depth: nat, suffix: string, offset: Offset, asWritten: bool)
    : (r: Result<seq<Stmt>>)
    ensures r.Err? <==> ChainError(dt).Some?
    ensures r.Err? ==> r.error == ChainError(dt).value
    ensures r.Ok? ==> (|r.value| == 0 <==> !MakesSymbolic(dt))
    ensures r.Ok? ==>
              SymbolicCount(r.value) ==
              (if !MakesSymbolic(dt) then 0 else if IsWide(v.widthMin) then Words(v.widthMin) else 1)
    ensures r.Ok? ==> forall i :: 0 <= i < |r.value| && r.value[i].Sprintf? ==>
              r.value[i].name == v.name && Extends(r.value[i].offset, offset + LoopDigits(dt, depth), v)
    decreases dt
  {
    match dt
    case Container(sub, subWide) =>
      Recurse(v, sub, depth + 1, suffix + ".atDefault()" + (if subWide then ".data()" else ""), offset, asWritten)
    case ClassRef => Ok([])
    case Unpacked(lo, hi, sub) =>
      if hi < lo then Err(AssertionError)
      else
        var n := hi - lo + 1;
        var ivar := LoopVar(depth);
        var below :- Recurse(v, sub, depth + 1, suffix + "[" + ivar + "]", offset + [Digit(n, LoopIndex(depth))], asWritten);
        assert offset + [Digit(n, LoopIndex(depth))] + LoopDigits(sub, depth + 1) == offset + LoopDigits(dt, depth);
        if |below| == 0 then Ok([])
        else
          LoopWrapped(v, ivar, n, below, offset + LoopDigits(dt, depth));
          Ok([ForOpen(ivar, n)] + below + [ForClose])
    case Basic(kind) =>
      if kind != Value then Ok([])
      else if IsWide(v.widthMin) then
        WideFromOffsets(v, suffix, offset, asWritten, 0);
        Ok(WideFrom(v, suffix, offset, asWritten, 0))
      else
        Ok(MadeSymbolic(ScalarType(v.widthMin), v.name, suffix, offset, v.widthMin, asWritten))
    case Unknown => Err(RuntimeError)
  }

  /** A loop around statements makes the same objects symbolic, under the
      same names and offsets. */
  lemma LoopWrapped(v: Var, ivar: string, n: nat, below: seq<Stmt>, base: Offset)
    requires forall i :: 0 <= i < |below| && below[i].Sprintf? ==>
               below[i].name == v.name && Extends(below[i].offset, base, v)
    ensures var r := [ForOpen(ivar, n)] + below + [ForClose];
      |r| > 0 && SymbolicCount(r) == SymbolicCount(below) &&
      forall i :: 0 <= i < |r| && r[i].Sprintf? ==> r[i].name == v.name && Extends(r[i].offset, base, v)
  {
    var r := [ForOpen(ivar, n)] + below + [ForClose];
    SymbolicCountConcat([ForOpen(ivar, n)] + below, [ForClose]);
    SymbolicCountConcat([ForOpen(ivar, n)], below);
    assert forall i :: 1 <= i <= |below| ==> r[i] == below[i - 1];
  }

  /** The name `klee_make_symbolic` receives through a formatted buffer. */
  function FormattedName(s: Stmt, env: nat -> nat): string
    requires s.Sprintf?
  {
    s.name + "_" + Strings.NatToString(OffsetValue(s.offset, env))
  }

  lemma NatToStringInjective(a: nat, b: nat)
    requires Strings.NatToString(a) == Strings.NatToString(b)
    ensures a == b
  {
    Strings.NatToStringRoundTrip(a);
    Strings.NatToStringRoundTrip(b);
  }

  lemma FormattedNameInjective(name: string, x: nat, y: nat)
    requires name + "_" + Strings.NatToString(x) == name + "_" + Strings.NatToString(y)
    ensures x == y
  {
    var n := |name| + 1;
    assert (name + "_" + Strings.NatToString(x))[n..] == Strings.NatToString(x);
    assert (name + "_" + Strings.NatToString(y))[n..] == Strings.NatToString(y);
    NatToStringInjective(x, y);
  }

  /** Two in-range offsets under the same loop digits with equal values are
      the same expression with equal digit values. */
  lemma ExtendsInjective(a: Offset, b: Offset, base: Offset, v: Var, ea: nat -> nat, eb: nat -> nat)
    requires Extends(a, base, v) && Extends(b, base, v)
    requires InRange(a, ea) && InRange(b, eb) && OffsetValue(a, ea) == OffsetValue(b, eb)
    ensures a == b
    ensures forall k :: 0 <= k < |a| ==> IndexValue(a[k].index, ea) == IndexValue(b[k].index, eb)
  {
    if IsWide(v.widthMin) {
      assert forall k :: 0 <= k < |base| ==> a[k] == a[..|base|][k] == b[..|base|][k] == b[k];
    }
    assert SameRadices(a, b);
    OffsetInjective(a, b, ea, eb);
    if IsWide(v.widthMin) {
      var m := |base|;
      assert IndexValue(a[m].index, ea) == IndexValue(b[m].index, eb);
      assert a[m] == b[m];
      assert a == a[..m] + [a[m]] && b == b[..m] + [b[m]];
    }
  }

  /** Within one variable, two symbolic objects get the same name only when
      they are the same word of the same array element: equal formatted
      names mean equal offset expressions whose loop variables hold equal
      values. */
  lemma UniqueObjectNames(v: Var, r: seq<Stmt>, asWritten: bool, i: nat, j: nat, ei: nat -> nat, ej: nat -> nat)
    requires Recurse(v, v.dtype, 0, "", [], asWritten) == Ok(r)
    requires i < |r| && j < |r| && r[i].Sprintf? && r[j].Sprintf?
    requires InRange(r[i].offset, ei) && InRange(r[j].offset, ej)
    requires FormattedName(r[i], ei) == FormattedName(r[j], ej)
    ensures r[i].offset == r[j].offset
    ensures forall k :: 0 <= k < |r[i].offset| ==>
              IndexValue(r[i].offset[k].index, ei) == IndexValue(r[j].offset[k].index, ej)
  {
    var base := [] + LoopDigits(v.dtype, 0);
    assert r[i].name == v.name && r[j].name == v.name;
    assert Extends(r[i].offset, base, v) && Extends(r[j].offset, base, v);
    FormattedNameInjective(v.name, OffsetValue(r[i].offset, ei), OffsetValue(r[j].offset, ej));
    ExtendsInjective(r[i].offset, r[j].offset, base, v, ei, ej);
  }

  // ------------------------------------------------------------ main file

  /** `emitVarInfo`: the marker comment naming a variable. */
  function VarInfo(v: Var): string {
    VerilatorLl.Marker + v.name + "\"\n"
  }

  function Infos(vs: seq<Var>): (r: seq<string>)
    ensures |r| == |vs|
  {
    if |vs| == 0 then [] else [VarInfo(vs[0])] + Infos(vs[1..])
  }

  /** `emitClockSetHigh`. */
  function ClockLines(vs: seq<Var>): (r: seq<string>)
    ensures |r| == |vs|
  {
    if |vs| == 0 then [] else ["topp->rootp->" + vs[0].name + " = 1;\n"] + ClockLines(vs[1..])
  }

  function Names(vs: seq<Var>): (r: seq<string>)
    ensures |r| == |vs| && forall i :: 0 <= i < |vs| ==> r[i] == vs[i].name
  {
    if |vs| == 0 then [] else [vs[0].name] + Names(vs[1..])
  }

  /** The code making every listed variable symbolic, or the first internal
      error. */
  function SymbolicCode(vs: seq<Var>, asWritten: bool): (r: Result<seq<Stmt>>)
    ensures r.Err? <==> exists i :: 0 <= i < |vs| && ChainError(vs[i].dtype).Some?
  {
    if |vs| == 0 then Ok([])
    else
      var here :- Recurse(vs[0], vs[0].dtype, 0, "", [], asWritten);
      var rest :- SymbolicCode(vs[1..], asWritten);
      assert forall i :: 1 <= i < |vs| ==> vs[1..][i - 1] == vs[i];
      Ok(here + rest)
  }

  const Snapshot: string := "klee_save_snapshot(topp->vlSymsp);\n"

  /** The lines before the symbolic variables; `topClass` is the model's
      class name `V<top>`. */
  function Prologue(topClass: string): seq<string> {
    PrologueStart + Includes(topClass) + PrologueSetup + PrologueContext
      + [topClass + "* topp = new " + topClass + "(contextp);\n"] + PrologueEval
  }

  const PrologueStart: seq<string> :=
    [ "// DESCRIPTION: " + "main() function created with Verilator --sym-exec-main\n",
      "\n",
      "#include \"verilated.h\"\n" ]

  function Includes(topClass: string): seq<string> {
    [ "#include \"" + topClass + ".h\"\n",
      "#include \"" + topClass + "___024root.h\"\n" ]
  }

  const PrologueSetup: seq<string> :=
    [ "\n",
      "#include <klee/klee.h>\n",
      "\n",
      "//======================\n",
      "\n",
      "int main(int argc, char** argv, char**) {\n" ]

  const PrologueContext: seq<string> :=
    [ "// Setup context, " + "defaults, and parse command line\n",
      "Verilated::debug(0);\n",
      "VerilatedContext* " + "contextp = new VerilatedContext;\n",
      "contextp->commandArgs(argc, argv);\n",
      "\n",
      "// Construct the " + "Verilated model, from Vtop.h generated from Verilating\n" ]

  const PrologueEval: seq<string> :=
    [ "\n",
      "// Evaluate initials\n",
      "topp->eval();  // Evaluate\n",
      "\n" ]

  /** One clock edge: evaluate, then advance time by the delay scheduler
      when the design has one, else by one unit. */
  function StepLines(delayScheduler: bool): seq<string> {
    ["// Evaluate model\n", "topp->eval();\n", "// Advance time\n"]
      + (if delayScheduler
         then ["if (!topp->eventsPending()) break;\n", "contextp->time(topp->nextTimeSlot());\n"]
         else ["contextp->timeInc(1);\n"])
      + ["\n"]
  }

  const Epilogue: seq<string> := ["// Final model cleanup\n", "topp->final();\n", "return 0;\n", "}\n"]

  /** Everything before the first snapshot: set-up, the initial evaluation,
      the symbolic variables and the output-port comments. */
  function BeforeSnapshot(top: string, symbolic: seq<Var>, outputs: seq<Var>, code: seq<Stmt>): seq<string> {
    Prologue("V" + top)
      + ["// Symbolic variables:\n"] + Infos(symbolic) + AllLines(code) + ["\n"]
      + ["// Output ports:\n"] + Infos(outputs) + ["\n"]
  }

  /** Between the two snapshots: the clocks set high and one evaluation. */
  function BetweenSnapshots(clocks: seq<Var>, delayScheduler: bool): seq<string> {
    ["\n"] + ClockLines(clocks) + ["\n"] + StepLines(delayScheduler)
  }

  const AfterSnapshot: seq<string> := ["\n"] + Epilogue

  /** `emit`: the generated `main`, line by line, given the three sets in
      the order the pass iterates them. The header comment of the output
      file is not part of this model. */
  function EmitMain(top: string, symbolic: seq<Var>, outputs: seq<Var>, clocks: seq<Var>,
                    delayScheduler: bool, asWritten: bool): (r: Result<seq<string>>)
    ensures r.Err? <==> exists i :: 0 <= i < |symbolic| && ChainError(symbolic[i].dtype).Some?
  {
    var code :- SymbolicCode(symbolic, asWritten);
    Ok(BeforeSnapshot(top, symbolic, outputs, code) + [Snapshot]
       + BetweenSnapshots(clocks, delayScheduler) + [Snapshot]
       + AfterSnapshot)
  }

  // ------------------------------------------------------------ handshake

  /** A line the marker pattern cannot match: a blank line, a line starting
      with neither whitespace nor `/`, or a line starting with `/` that does
      not go on with `/ -`. */
  predicate PlainLine(l: string) {
    l == "\n" ||
    (|l| > 0 && !VerilatorLl.IsSpace(l[0]) && l[0] != '/') ||
    (|l| > 0 && l[0] == '/' && (|l| < 4 || l[1] != '/' || l[2] != ' ' || l[3] != '-'))
  }

  lemma PlainNotMarker(l: string)
    requires PlainLine(l)
    ensures VerilatorLl.VarDefName(l).None?
  {
    if l == "\n" {
      assert VerilatorLl.StripSpace(l) == "";
    } else if |l| > 0 && !VerilatorLl.IsSpace(l[0]) && l[0] != '/' {
      VerilatorLl.NotMarkerLine(l);
    } else {
      assert VerilatorLl.StripSpace(l) == l;
      forall name: string ensures l != VerilatorLl.Marker + name + "\"\n" {
        var m := VerilatorLl.Marker + name + "\"\n";
        assert |m| >= 4 && m[1] == '/' && m[2] == ' ' && m[3] == '-';
      }
    }
  }

  predicate AllPlain(lines: seq<string>) {
    forall l :: l in lines ==> PlainLine(l)
  }

  lemma {:induction false} PlainParse(lines: seq<string>)
    requires AllPlain(lines)
    ensures VerilatorLl.ParseCppMain(lines) == []
  {
    if |lines| > 0 {
      PlainNotMarker(lines[0]);
      assert AllPlain(lines[1..]) by {
        forall l | l in lines[1..] ensures PlainLine(l) {
          assert l in lines;
        }
      }
      PlainParse(lines[1..]);
    }
  }

  lemma AllPlainConcat(a: seq<string>, b: seq<string>)
    requires AllPlain(a) && AllPlain(b)
    ensures AllPlain(a + b)
  {
  }

  predicate NoSnapshot(lines: seq<string>) {
    forall l :: l in lines ==> l != Snapshot
  }

  /** Lines that are neither marker lines nor a snapshot. */
  predicate Ordinary(lines: seq<string>) {
    AllPlain(lines) && NoSnapshot(lines)
  }

  lemma OrdinaryConcat(a: seq<string>, b: seq<string>)
    requires Ordinary(a) && Ordinary(b)
    ensures Ordinary(a + b)
  {
  }

  /** A line that starts with an ordinary character, and is not the
      snapshot call, is neither a marker nor a snapshot. */
  lemma OneLinePlain(l: string)
    requires |l| > 0 && !VerilatorLl.IsSpace(l[0]) && l[0] != '/'
    requires l[0] == 'k' ==> |l| > 5 && l[5] != 's'
    ensures Ordinary([l])
  {
    assert Snapshot[0] == 'k' && Snapshot[5] == 's';
  }

  /** No generated statement contains a marker line. */
  lemma StmtPlain(st: Stmt)
    ensures Ordinary(Lines(st))
  {
    match st
    case Open =>
      OneLinePlain("{\n");
    case Alloca(name) =>
      var l := "char* " + NameBuffer + " = (char *) alloca(" + Strings.NatToString(|name| + 20) + ");\n";
      assert l[0] == 'c';
      OneLinePlain(l);
    case Sprintf(name, offset) =>
      var l := "sprintf(" + NameBuffer + ", \"%s_%d\", \"" + name + "\", " + OffsetText(offset) + ");\n";
      assert l[0] == 's';
      OneLinePlain(l);
    case Declare(t, temp) =>
      var l := TypeName(t) + " " + temp + ";\n";
      assert l[0] == TypeName(t)[0];
      OneLinePlain(l);
    case MakeSymbolic(temp, unique) =>
      var l := "klee_make_symbolic(&" + temp + ", sizeof(" + temp + "), " + unique + ");\n";
      assert l[0] == 'k' && l[5] == 'm';
      OneLinePlain(l);
    case Assume(temp, t, width) =>
      var l := "klee_assume(" + temp + " < ((" + TypeName(t) + ") 1UL << " + Strings.NatToString(width) + "));\n";
      assert l[0] == 'k' && l[5] == 'a';
      OneLinePlain(l);
    case Assign(lvalue, temp) =>
      var l := "topp->rootp->" + lvalue + " = " + temp + ";\n";
      assert l[0] == 't';
      OneLinePlain(l);
    case Close =>
      OneLinePlain("}\n");
      assert Snapshot != "\n";
    case ForOpen(ivar, n) =>
      var l := "for (int " + ivar + "=0; " + ivar + "<" + Strings.NatToString(n) + "; ++" + ivar + ") {\n";
      assert l[0] == 'f';
      OneLinePlain(l);
    case ForClose =>
      OneLinePlain("}\n");
  }

  lemma {:induction false} AllLinesPlain(stmts: seq<Stmt>)
    ensures Ordinary(AllLines(stmts))
  {
    if |stmts| > 0 {
      StmtPlain(stmts[0]);
      AllLinesPlain(stmts[1..]);
      OrdinaryConcat(Lines(stmts[0]), AllLines(stmts[1..]));
    }
  }

  lemma {:induction false} ClockLinesPlain(vs: seq<Var>)
    ensures Ordinary(ClockLines(vs))
  {
    if |vs| > 0 {
      ClockLinesPlain(vs[1..]);
      var l := "topp->rootp->" + vs[0].name + " = 1;\n";
      assert l[0] == 't';
      OrdinaryConcat([l], ClockLines(vs[1..]));
    }
  }

  /** The marker lines of the emitted variables name exactly those
      variables, in order. */
  lemma {:induction false} InfosParse(vs: seq<Var>)
    requires forall i :: 0 <= i < |vs| ==> VerilatorLl.IsWord(vs[i].name)
    ensures VerilatorLl.ParseCppMain(Infos(vs)) == Names(vs)
  {
    if |vs| > 0 {
      VerilatorLl.MarkerLine(vs[0].name);
      InfosParse(vs[1..]);
      VerilatorLl.ParseCppMainConcat([VarInfo(vs[0])], Infos(vs[1..]));
    }
  }

  lemma LiteralProloguePlain()
    ensures Ordinary(PrologueStart) && Ordinary(PrologueSetup)
    ensures Ordinary(PrologueContext) && Ordinary(PrologueEval)
  {
    StartPlain();
    SetupPlain();
    ContextPlain();
    EvalPlain();
  }

  lemma StartPlain()
    ensures Ordinary(PrologueStart)
  {
  }

  lemma SetupPlain()
    ensures Ordinary(PrologueSetup)
  {
    assert PrologueSetup[3][3] == '=';
    assert PrologueSetup[1][0] == '#' && PrologueSetup[5][0] == 'i';
  }

  lemma ContextPlain()
    ensures Ordinary(PrologueContext)
  {
  }

  lemma EvalPlain()
    ensures Ordinary(PrologueEval)
  {
  }

  lemma ProloguePlain(top: string)
    ensures Ordinary(Prologue("V" + top))
  {
    var c := "V" + top;
    LiteralProloguePlain();
    assert Ordinary(Includes(c)) by {
      assert ("#include \"" + c + ".h\"\n")[0] == '#';
      assert ("#include \"" + c + "___024root.h\"\n")[0] == '#';
    }
    var construct := [c + "* topp = new " + c + "(contextp);\n"];
    assert Ordinary(construct) by {
      assert construct[0][0] == 'V';
    }
    OrdinaryConcat(PrologueStart, Includes(c));
    OrdinaryConcat(PrologueStart + Includes(c), PrologueSetup);
    OrdinaryConcat(PrologueStart + Includes(c) + PrologueSetup, PrologueContext);
    OrdinaryConcat(PrologueStart + Includes(c) + PrologueSetup + PrologueContext, construct);
    OrdinaryConcat(PrologueStart + Includes(c) + PrologueSetup + PrologueContext + construct, PrologueEval);
  }

  lemma FixedPlain(clocks: seq<Var>, delayScheduler: bool)
    ensures Ordinary(BetweenSnapshots(clocks, delayScheduler))
    ensures Ordinary(AfterSnapshot) && AllPlain([Snapshot])
  {
    ClockLinesPlain(clocks);
    StepPlain(delayScheduler);
    AfterPlain();
    OrdinaryConcat(["\n"], ClockLines(clocks));
    OrdinaryConcat(["\n"] + ClockLines(clocks), ["\n"]);
    OrdinaryConcat(["\n"] + ClockLines(clocks) + ["\n"], StepLines(delayScheduler));
  }

  lemma StepPlain(delayScheduler: bool)
    ensures Ordinary(StepLines(delayScheduler))
  {
  }

  lemma AfterPlain()
    ensures Ordinary(AfterSnapshot) && AllPlain([Snapshot])
  {
  }

  lemma TailPlain(clocks: seq<Var>, delayScheduler: bool)
    ensures AllPlain(["\n"] + [Snapshot] + BetweenSnapshots(clocks, delayScheduler) + [Snapshot] + AfterSnapshot)
  {
    FixedPlain(clocks, delayScheduler);
    AllPlainConcat(["\n"], [Snapshot]);
    AllPlainConcat(["\n"] + [Snapshot], BetweenSnapshots(clocks, delayScheduler));
    AllPlainConcat(["\n"] + [Snapshot] + BetweenSnapshots(clocks, delayScheduler), [Snapshot]);
    AllPlainConcat(["\n"] + [Snapshot] + BetweenSnapshots(clocks, delayScheduler) + [Snapshot], AfterSnapshot);
  }

  lemma EmitShape(top: string, symbolic: seq<Var>, outputs: seq<Var>, clocks: seq<Var>,
                  delayScheduler: bool, asWritten: bool)
    requires EmitMain(top, symbolic, outputs, clocks, delayScheduler, asWritten).Ok?
    ensures EmitMain(top, symbolic, outputs, clocks, delayScheduler, asWritten).value
              == (Prologue("V" + top) + ["// Symbolic variables:\n"]) + Infos(symbolic)
                 + (AllLines(SymbolicCode(symbolic, asWritten).value) + ["\n", "// Output ports:\n"])
                 + Infos(outputs)
                 + (["\n"] + [Snapshot] + BetweenSnapshots(clocks, delayScheduler) + [Snapshot] + AfterSnapshot)
  {
    var code := SymbolicCode(symbolic, asWritten).value;
    assert EmitMain(top, symbolic, outputs, clocks, delayScheduler, asWritten).value
      == BeforeSnapshot(top, symbolic, outputs, code) + [Snapshot]
         + BetweenSnapshots(clocks, delayScheduler) + [Snapshot] + AfterSnapshot;
    Regroup(Prologue("V" + top), Infos(symbolic), AllLines(code), Infos(outputs),
            BetweenSnapshots(clocks, delayScheduler), AfterSnapshot,
            "// Symbolic variables:\n", "\n", "// Output ports:\n", Snapshot);
  }

  lemma Regroup<T>(p: seq<T>, i1: seq<T>, al: seq<T>, i2: seq<T>, m: seq<T>, a: seq<T>, h: T, n: T, o: T, s: T)
    ensures p + [h] + i1 + al + [n] + [o] + i2 + [n] + [s] + m + [s] + a
         == (p + [h]) + i1 + (al + [n, o]) + i2 + ([n] + [s] + m + [s] + a)
  {
  }

  /** Parsing a file made of five blocks, where the first, third and fifth
      hold no marker line, sees only the second and fourth. */
  lemma ParseAlternating(a: seq<string>, b: seq<string>, c: seq<string>, d: seq<string>, e: seq<string>)
    requires AllPlain(a) && AllPlain(c) && AllPlain(e)
    ensures VerilatorLl.ParseCppMain(a + b + c + d + e)
              == VerilatorLl.ParseCppMain(b) + VerilatorLl.ParseCppMain(d)
  {
    var ab := a + b;
    var abc := ab + c;
    var abcd := abc + d;
    assert a + b + c + d + e == abcd + e;
    PlainSuffix(abcd, e);
    VerilatorLl.ParseCppMainConcat(abc, d);
    PlainSuffix(ab, c);
    PlainPrefix(a, b);
  }

  lemma PlainPrefix(a: seq<string>, b: seq<string>)
    requires AllPlain(a)
    ensures VerilatorLl.ParseCppMain(a + b) == VerilatorLl.ParseCppMain(b)
  {
    PlainParse(a);
    VerilatorLl.ParseCppMainConcat(a, b);
  }

  lemma PlainSuffix(a: seq<string>, b: seq<string>)
    requires AllPlain(b)
    ensures VerilatorLl.ParseCppMain(a + b) == VerilatorLl.ParseCppMain(a)
  {
    PlainParse(b);
    VerilatorLl.ParseCppMainConcat(a, b);
  }

  lemma HeadPlain(top: string)
    ensures AllPlain(Prologue("V" + top) + ["// Symbolic variables:\n"])
  {
    ProloguePlain(top);
    AllPlainConcat(Prologue("V" + top), ["// Symbolic variables:\n"]);
  }

  lemma MiddlePlain(code: seq<Stmt>)
    ensures AllPlain(AllLines(code) + ["\n", "// Output ports:\n"])
  {
    AllLinesPlain(code);
    AllPlainConcat(AllLines(code), ["\n", "// Output ports:\n"]);
  }

  /** Blanks a formatter may put in front of a line. */
  predicate Indentation(pad: string) {
    forall i :: 0 <= i < |pad| ==> pad[i] == ' ' || pad[i] == '\t'
  }

  /** The lines as written to the file: line `i` behind the blanks `pads[i]`. */
  function Indent(lines: seq<string>, pads: seq<string>): (r: seq<string>)
    requires |pads| == |lines|
    ensures |r| == |lines| && forall i :: 0 <= i < |lines| ==> r[i] == pads[i] + lines[i]
  {
    seq(|lines|, i requires 0 <= i < |lines| => pads[i] + lines[i])
  }

  /** Indentation never changes which names the marker lines announce. */
  lemma {:induction false} ParseIgnoresIndent(lines: seq<string>, pads: seq<string>)
    requires |pads| == |lines| && forall i :: 0 <= i < |pads| ==> Indentation(pads[i])
    ensures VerilatorLl.ParseCppMain(Indent(lines, pads)) == VerilatorLl.ParseCppMain(lines)
    decreases |lines|
  {
    if |lines| > 0 {
      var out := Indent(lines, pads);
      VerilatorLl.VarDefNameIgnoresIndent(pads[0], lines[0]);
      assert out[1..] == Indent(lines[1..], pads[1..]);
      ParseIgnoresIndent(lines[1..], pads[1..]);
    }
  }

  /** The handshake: reading the marker lines of the emitted `main` with
      `parse_cpp_main` recovers the symbolic variables followed by the
      output ports, each under its own name and in emission order, however
      the formatter indents the lines. */
  lemma Handshake(top: string, symbolic: seq<Var>, outputs: seq<Var>, clocks: seq<Var>,
                  delayScheduler: bool, asWritten: bool, pads: seq<string>)
    requires forall i :: 0 <= i < |symbolic| ==> VerilatorLl.IsWord(symbolic[i].name)
    requires forall i :: 0 <= i < |outputs| ==> VerilatorLl.IsWord(outputs[i].name)
    requires EmitMain(top, symbolic, outputs, clocks, delayScheduler, asWritten).Ok?
    requires |pads| == |EmitMain(top, symbolic, outputs, clocks, delayScheduler, asWritten).value|
    requires forall i :: 0 <= i < |pads| ==> Indentation(pads[i])
    ensures VerilatorLl.ParseCppMain(Indent(EmitMain(top, symbolic, outputs, clocks, delayScheduler, asWritten).value, pads))
              == Names(symbolic) + Names(outputs)
  {
    HandshakeFlushLeft(top, symbolic, outputs, clocks, delayScheduler, asWritten);
    ParseIgnoresIndent(EmitMain(top, symbolic, outputs, clocks, delayScheduler, asWritten).value, pads);
  }

  /** The handshake on the lines before indentation. */
  lemma HandshakeFlushLeft(top: string, symbolic: seq<Var>, outputs: seq<Var>, clocks: seq<Var>,
                  delayScheduler: bool, asWritten: bool)
    requires forall i :: 0 <= i < |symbolic| ==> VerilatorLl.IsWord(symbolic[i].name)
    requires forall i :: 0 <= i < |outputs| ==> VerilatorLl.IsWord(outputs[i].name)
    requires EmitMain(top, symbolic, outputs, clocks, delayScheduler, asWritten).Ok?
    ensures VerilatorLl.ParseCppMain(EmitMain(top, symbolic, outputs, clocks, delayScheduler, asWritten).value)
              == Names(symbolic) + Names(outputs)
  {
    var code := SymbolicCode(symbolic, asWritten).value;
    var head := Prologue("V" + top) + ["// Symbolic variables:\n"];
    var middle := AllLines(code) + ["\n", "// Output ports:\n"];
    var tail := ["\n"] + [Snapshot] + BetweenSnapshots(clocks, delayScheduler) + [Snapshot] + AfterSnapshot;
    EmitShape(top, symbolic, outputs, clocks, delayScheduler, asWritten);
    HeadPlain(top);
    MiddlePlain(code);
    TailPlain(clocks, delayScheduler);
    ParseAlternating(head, Infos(symbolic), middle, Infos(outputs), tail);
    InfosParse(symbolic);
    InfosParse(outputs);
  }

  // ------------------------------------------------------------ snapshots

  lemma {:induction false} InfosNoSnapshot(vs: seq<Var>)
    ensures NoSnapshot(Infos(vs))
  {
    if |vs| > 0 {
      assert VarInfo(vs[0])[0] == '/';
      InfosNoSnapshot(vs[1..]);
    }
  }

  lemma BeforeNoSnapshot(top: string, symbolic: seq<Var>, outputs: seq<Var>, stmts: seq<Stmt>)
    ensures Snapshot !in BeforeSnapshot(top, symbolic, outputs, stmts)
  {
    assert NoSnapshot(BeforeSnapshot(top, symbolic, outputs, stmts)) by {
      ProloguePlain(top);
      InfosNoSnapshot(symbolic);
      InfosNoSnapshot(outputs);
      AllLinesPlain(stmts);
    }
  }

  lemma AfterFirstSnapshot(clocks: seq<Var>, delayScheduler: bool)
    ensures Snapshot !in BetweenSnapshots(clocks, delayScheduler) && Snapshot !in AfterSnapshot
    ensures VerilatorLl.ParseCppMain(BetweenSnapshots(clocks, delayScheduler)) == []
    ensures VerilatorLl.ParseCppMain(AfterSnapshot) == []
  {
    FixedPlain(clocks, delayScheduler);
    PlainParse(BetweenSnapshots(clocks, delayScheduler));
    PlainParse(AfterSnapshot);
  }

  /** `block` occurs in `out` starting at line `p`. */
  predicate BlockAt(out: seq<string>, p: nat, block: seq<string>) {
    p + |block| <= |out| && out[p..p + |block|] == block
  }

  lemma BetweenBlocks(clocks: seq<Var>, delayScheduler: bool)
    ensures var m := BetweenSnapshots(clocks, delayScheduler);
      && |m| == |ClockLines(clocks)| + 2 + |StepLines(delayScheduler)|
      && BlockAt(m, 1, ClockLines(clocks))
      && BlockAt(m, |ClockLines(clocks)| + 2, StepLines(delayScheduler))
  {
    var m := BetweenSnapshots(clocks, delayScheduler);
    assert m == (["\n"] + ClockLines(clocks) + ["\n"]) + StepLines(delayScheduler);
    assert m[1..1 + |ClockLines(clocks)|] == ClockLines(clocks);
  }

  lemma BeforeBlock(top: string, symbolic: seq<Var>, outputs: seq<Var>, stmts: seq<Stmt>)
    returns (p: nat)
    ensures p + |AllLines(stmts)| < |BeforeSnapshot(top, symbolic, outputs, stmts)|
    ensures BlockAt(BeforeSnapshot(top, symbolic, outputs, stmts), p, AllLines(stmts))
  {
    var pre := Prologue("V" + top) + ["// Symbolic variables:\n"] + Infos(symbolic);
    var b := BeforeSnapshot(top, symbolic, outputs, stmts);
    p := |pre|;
    assert b == pre + AllLines(stmts) + (["\n"] + ["// Output ports:\n"] + Infos(outputs) + ["\n"]);
    assert b[p..p + |AllLines(stmts)|] == AllLines(stmts);
  }

  /** Where the snapshots fall in the generated `main`: it is cut by exactly
      two snapshot lines into a part before, a part between and a part
      after. The symbolic set-up code is one block of the part before; the
      part between starts with the clocks set high and ends with one
      evaluation step; no marker line follows the first snapshot. `Layout`
      turns these facts into positions in the whole file. */
  lemma SnapshotPlacement(top: string, symbolic: seq<Var>, outputs: seq<Var>, clocks: seq<Var>,
                  delayScheduler: bool, asWritten: bool, out: seq<string>)
    returns (b: seq<string>, m: seq<string>, a: seq<string>, p: nat)
    requires EmitMain(top, symbolic, outputs, clocks, delayScheduler, asWritten) == Ok(out)
    ensures out == b + [Snapshot] + m + [Snapshot] + a
    ensures p + |AllLines(SymbolicCode(symbolic, asWritten).value)| < |b|
    ensures BlockAt(b, p, AllLines(SymbolicCode(symbolic, asWritten).value))
    ensures |m| == |ClockLines(clocks)| + 2 + |StepLines(delayScheduler)|
    ensures BlockAt(m, 1, ClockLines(clocks))
    ensures BlockAt(m, |ClockLines(clocks)| + 2, StepLines(delayScheduler))
    ensures Snapshot !in b && Snapshot !in m && Snapshot !in a
    ensures VerilatorLl.ParseCppMain(m) == [] && VerilatorLl.ParseCppMain(a) == []
    ensures VerilatorLl.ParseCppMain(out[|b|..]) == []
  {
    var stmts := SymbolicCode(symbolic, asWritten).value;
    b := BeforeSnapshot(top, symbolic, outputs, stmts);
    m := BetweenSnapshots(clocks, delayScheduler);
    a := AfterSnapshot;
    p := BeforeBlock(top, symbolic, outputs, stmts);
    BeforeNoSnapshot(top, symbolic, outputs, stmts);
    AfterFirstSnapshot(clocks, delayScheduler);
    BetweenBlocks(clocks, delayScheduler);
    SnapshotNotMarker();
    NothingParsedAfter(b, m, a, Snapshot);
  }

  lemma SnapshotNotMarker()
    ensures VerilatorLl.VarDefName(Snapshot).None?
  {
    assert PlainLine(Snapshot) by {
      assert Snapshot[0] == 'k';
    }
    PlainNotMarker(Snapshot);
  }

  /** After the first mark no marker line follows. */
  lemma NothingParsedAfter(b: seq<string>, m: seq<string>, a: seq<string>, x: string)
    requires VerilatorLl.VarDefName(x).None?
    requires VerilatorLl.ParseCppMain(m) == [] && VerilatorLl.ParseCppMain(a) == []
    ensures VerilatorLl.ParseCppMain((b + [x] + m + [x] + a)[|b|..]) == []
  {
    var tail := [x] + m + [x] + a;
    assert (b + [x] + m + [x] + a)[|b|..] == tail;
    assert VerilatorLl.ParseCppMain([x]) == [];
    VerilatorLl.ParseCppMainConcat([x] + m + [x], a);
    VerilatorLl.ParseCppMainConcat([x] + m, [x]);
    VerilatorLl.ParseCppMainConcat([x], m);
  }

  /** A block of the part before the first snapshot keeps its place. */
  lemma BlockInBefore(b: seq<string>, m: seq<string>, a: seq<string>, x: string, p: nat, block: seq<string>)
    requires BlockAt(b, p, block)
    ensures BlockAt(b + [x] + m + [x] + a, p, block)
  {
    var out := b + [x] + m + [x] + a;
    assert out == b + ([x] + m + [x] + a);
    assert out[p..p + |block|] == b[p..p + |block|];
  }

  /** A block of the part between the snapshots moves by `|b| + 1`. */
  lemma BlockInBetween(b: seq<string>, m: seq<string>, a: seq<string>, x: string, q: nat, block: seq<string>)
    requires BlockAt(m, q, block)
    ensures BlockAt(b + [x] + m + [x] + a, |b| + 1 + q, block)
  {
    var out := b + [x] + m + [x] + a;
    assert out == (b + [x]) + m + ([x] + a);
    assert out[|b| + 1 + q..|b| + 1 + q + |block|] == m[q..q + |block|];
  }

  /** The layout argument on plain sequences: a block before, a block
      between and a block after two copies of a mark line `x`. */
  lemma Layout(out: seq<string>, b: seq<string>, m: seq<string>, a: seq<string>, x: string, p: nat,
               code: seq<string>, clocks: seq<string>, steps: seq<string>)
    requires out == b + [x] + m + [x] + a
    requires x !in b && x !in m && x !in a
    requires BlockAt(b, p, code)
    requires BlockAt(m, 1, clocks) && BlockAt(m, |clocks| + 2, steps)
    ensures out[|b|] == x && out[|b| + 1 + |m|] == x
    ensures Seqs.Count(out, x) == 2 && Seqs.Count(out[..|b|], x) == 0
    ensures BlockAt(out, p, code)
    ensures BlockAt(out, |b| + 1 + 1, clocks)
    ensures BlockAt(out, |b| + 1 + (|clocks| + 2), steps)
  {
    Seqs.CountAbsent(b, x);
    assert out[..|b|] == b;
    Seqs.CountAbsent(m, x);
    Seqs.CountAbsent(a, x);
    Seqs.CountConcat(b, [x], x);
    Seqs.CountConcat(b + [x], m, x);
    Seqs.CountConcat(b + [x] + m, [x], x);
    Seqs.CountConcat(b + [x] + m + [x], a, x);
    BlockInBefore(b, m, a, x, p, code);
    BlockInBetween(b, m, a, x, 1, clocks);
    BlockInBetween(b, m, a, x, |clocks| + 2, steps);
  }
}
