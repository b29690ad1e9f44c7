/** The pure parts of the triage tool.
    - A small predicate language (AND, OR, NOT over substring tests) that
      sorts crash reports into categories.
    - Recognition of a transformer invocation in one line of an
      `equivalence_classes` listing.
    - Grouping of the listing's lines into equivalence classes.
    - Naming of a difference category from those classes.
    Reading files and moving directories are left to the caller. A report
    directory is a map from file names to contents, and a listing is its
    list of lines. */
module Triage {
  import opened Wrappers
  import opened Strings
  import opened Seqs
  import StringOrder
  import Sorting
  import Assoc

  // ================================================================ predicates

  /** A JSON value of a filter: a string, or a list whose head names the
      operator and whose tail holds the operands. */
  datatype Term = Text(s: string) | List(items: seq<Term>)

  datatype Op = And | Or | Not

  /** The part of `predicate_maker(expressions)` that runs before the
      predicate is applied: it unpacks the operator and checks the arity of
      NOT. Nested operands are not looked at. */
  function Make(expressions: seq<Term>): (r: Result<Op>)
    ensures r.Ok? <==> (|expressions| > 0 &&
      (expressions[0] == Text("AND") || expressions[0] == Text("OR") ||
       (expressions[0] == Text("NOT") && |expressions| == 2)))
    ensures r == Err(NotImplementedError) <==>
      |expressions| > 0 && expressions[0] !in {Text("AND"), Text("OR"), Text("NOT")}
    ensures r.Err? ==> r.error in {ValueError, NotImplementedError}
  {
    if |expressions| == 0 then Err(ValueError)
    else if expressions[0] == Text("AND") then Ok(And)
    else if expressions[0] == Text("OR") then Ok(Or)
    else if expressions[0] == Text("NOT") then
      (if |expressions| == 2 then Ok(Not) else Err(ValueError))
    else Err(NotImplementedError)
  }

  /** The initial value of the fold: true for AND, false for OR. NOT
      ignores it. */
  function Initial(op: Op): bool
  {
    op == And
  }

  function Combine(op: Op, acc: bool, x: bool): bool
  {
    match op
    case And => acc && x
    case Or => acc || x
    case Not => !x
  }

  /** The value of one operand on `content`. A string is a substring test.
      A list is built into a predicate only now, so its errors surface when
      the enclosing predicate is applied. */
  function Value(t: Term, content: string): Result<bool>
    decreases t, 1
  {
    match t
    case Text(s) => Ok(Contains(content, s))
    case List(items) =>
      var op :- Make(items);
      Apply(t, op, 1, content, Initial(op))
  }

  /** The fold over the operands of `host` from index `i` on, with `acc`
      the value folded so far. Every operand is evaluated, in order and
      without a short cut, and the first error escapes. */
  function Apply(host: Term, op: Op, i: nat, content: string, acc: bool): Result<bool>
    requires host.List? && i <= |host.items|
    decreases host, 0, |host.items| - i
  {
    if i == |host.items| then Ok(acc)
    else
      var v :- Value(host.items[i], content);
      Apply(host, op, i + 1, content, Combine(op, acc, v))
  }

  /** `predicate_maker(expressions)(content)` */
  function Check(expressions: seq<Term>, content: string): Result<bool>
  {
    Value(List(expressions), content)
  }

  lemma {:induction false} ApplyAnd(host: Term, i: nat, content: string, acc: bool)
    requires host.List? && i <= |host.items|
    ensures Apply(host, And, i, content, acc) == Ok(true) <==>
      acc && forall j :: i <= j < |host.items| ==> Value(host.items[j], content) == Ok(true)
    ensures Apply(host, And, i, content, acc) == Ok(false) <==>
      (forall j :: i <= j < |host.items| ==> Value(host.items[j], content).Ok?) &&
      (!acc || exists j :: i <= j < |host.items| && Value(host.items[j], content) == Ok(false))
    decreases |host.items| - i
  {
    if i < |host.items| {
      var v := Value(host.items[i], content);
      if v.Ok? {
        ApplyAnd(host, i + 1, content, acc && v.value);
      }
    }
  }

  lemma {:induction false} ApplyOr(host: Term, i: nat, content: string, acc: bool)
    requires host.List? && i <= |host.items|
    ensures Apply(host, Or, i, content, acc) == Ok(false) <==>
      !acc && forall j :: i <= j < |host.items| ==> Value(host.items[j], content) == Ok(false)
    ensures Apply(host, Or, i, content, acc) == Ok(true) <==>
      (forall j :: i <= j < |host.items| ==> Value(host.items[j], content).Ok?) &&
      (acc || exists j :: i <= j < |host.items| && Value(host.items[j], content) == Ok(true))
    decreases |host.items| - i
  {
    if i < |host.items| {
      var v := Value(host.items[i], content);
      if v.Ok? {
        ApplyOr(host, i + 1, content, acc || v.value);
      }
    }
  }

  lemma {:induction false} ApplyFirstError(host: Term, op: Op, i: nat, content: string, acc: bool, k: nat)
    requires host.List? && i <= k < |host.items|
    requires Value(host.items[k], content).Err?
    requires forall j :: i <= j < k ==> Value(host.items[j], content).Ok?
    ensures Apply(host, op, i, content, acc) == Err(Value(host.items[k], content).error)
    decreases k - i
  {
    if i < k {
      var v := Value(host.items[i], content);
      ApplyFirstError(host, op, i + 1, content, Combine(op, acc, v.value), k);
    }
  }

  /** An AND predicate holds iff every operand holds; with no operands it
      holds. It is false iff every operand evaluates and one is false. */
  lemma AndMeaning(xs: seq<Term>, content: string)
    ensures Check([Text("AND")] + xs, content) == Ok(true) <==>
      forall j :: 0 <= j < |xs| ==> Value(xs[j], content) == Ok(true)
    ensures Check([Text("AND")] + xs, content) == Ok(false) <==>
      (forall j :: 0 <= j < |xs| ==> Value(xs[j], content).Ok?) &&
      exists j :: 0 <= j < |xs| && Value(xs[j], content) == Ok(false)
  {
    var host := List([Text("AND")] + xs);
    assert Make(host.items) == Ok(And);
    assert Check([Text("AND")] + xs, content) == Apply(host, And, 1, content, true);
    ApplyAnd(host, 1, content, true);
    ShiftedValues(host, xs, content);
  }

  /** An OR predicate holds iff every operand evaluates and one holds; with
      no operands it is false. It is false iff every operand is false. */
  lemma OrMeaning(xs: seq<Term>, content: string)
    ensures Check([Text("OR")] + xs, content) == Ok(false) <==>
      forall j :: 0 <= j < |xs| ==> Value(xs[j], content) == Ok(false)
    ensures Check([Text("OR")] + xs, content) == Ok(true) <==>
      (forall j :: 0 <= j < |xs| ==> Value(xs[j], content).Ok?) &&
      exists j :: 0 <= j < |xs| && Value(xs[j], content) == Ok(true)
  {
    var host := List([Text("OR")] + xs);
    assert Make(host.items) == Ok(Or);
    assert Check([Text("OR")] + xs, content) == Apply(host, Or, 1, content, false);
    ApplyOr(host, 1, content, false);
    ShiftedValues(host, xs, content);
  }

  /** NOT negates its one operand and passes its error on; with any other
      number of operands it fails with ValueError before it is applied. */
  lemma NotMeaning(xs: seq<Term>, content: string)
    ensures |xs| != 1 ==> Make([Text("NOT")] + xs) == Err(ValueError)
    ensures |xs| == 1 ==> (Check([Text("NOT")] + xs, content) ==
      match Value(xs[0], content)
      case Ok(b) => Ok(!b)
      case Err(e) => Err(e))
  {
    if |xs| == 1 {
      var host := List([Text("NOT")] + xs);
      assert host.items[1] == xs[0];
      assert Make(host.items) == Ok(Not);
      assert Check([Text("NOT")] + xs, content) == Apply(host, Not, 1, content, false);
      var v := Value(xs[0], content);
      if v.Ok? {
        assert Apply(host, Not, 2, content, !v.value) == Ok(!v.value);
      }
    }
  }

  /** The operands of `[op] + xs` are the elements of `xs`, one place on. */
  lemma ShiftedValues(host: Term, xs: seq<Term>, content: string)
    requires host.List? && |host.items| == |xs| + 1 && host.items[1..] == xs
    ensures forall j :: 1 <= j < |host.items| ==> Value(host.items[j], content) == Value(xs[j - 1], content)
    ensures forall j :: 0 <= j < |xs| ==> Value(xs[j], content) == Value(host.items[j + 1], content)
  {
    forall j | 1 <= j < |host.items|
      ensures Value(host.items[j], content) == Value(xs[j - 1], content)
    {
      assert host.items[1..][j - 1] == host.items[j];
    }
    forall j | 0 <= j < |xs|
      ensures Value(xs[j], content) == Value(host.items[j + 1], content)
    {
      assert host.items[1..][j] == host.items[j + 1];
    }
  }

  /** The operands of AND and OR are all evaluated in order: the first
      operand that fails decides the error, whatever the others hold. */
  lemma FirstErrorWins(op: string, xs: seq<Term>, content: string, k: nat)
    requires op == "AND" || op == "OR"
    requires k < |xs| && Value(xs[k], content).Err?
    requires forall j :: 0 <= j < k ==> Value(xs[j], content).Ok?
    ensures Check([Text(op)] + xs, content) == Err(Value(xs[k], content).error)
  {
    var host := List([Text(op)] + xs);
    assert forall j :: 1 <= j < |host.items| ==> host.items[j] == xs[j - 1];
    var o := if op == "AND" then And else Or;
    assert Make(host.items) == Ok(o);
    ApplyFirstError(host, o, 1, content, Initial(o), k + 1);
  }

  /** A malformed nested predicate does not stop the enclosing one from
      being built; the error comes only when it is applied. */
  lemma LazyNestedError(content: string)
    ensures Make([Text("AND"), List([])]).Ok?
    ensures Check([Text("AND"), List([])], content) == Err(ValueError)
  {
    var host := List([Text("AND"), List([])]);
    assert Value(host.items[1], content) == Err(ValueError);
    ApplyFirstError(host, And, 1, content, true, 1);
  }

  // ================================================================ inspect_subdir

  /** `inspect_subdir`: the entries of the trait, in order, each naming a
      file and the predicate its content must satisfy. The predicate is
      built before the file is read. A missing file ends the scan with
      false; an error from building or applying a predicate escapes. */
  function Inspect(dir: map<string, string>, rule: seq<(string, seq<Term>)>): Result<bool>
  {
    InspectFrom(dir, rule, 0, true)
  }

  function InspectFrom(dir: map<string, string>, rule: seq<(string, seq<Term>)>, i: nat, acc: bool): Result<bool>
    requires i <= |rule|
    decreases |rule| - i
  {
    if i == |rule| then Ok(acc)
    else if Make(rule[i].1).Err? then Err(Make(rule[i].1).error)
    else if rule[i].0 !in dir then Ok(false)
    else
      var v :- Check(rule[i].1, dir[rule[i].0]);
      InspectFrom(dir, rule, i + 1, acc && v)
  }

  /** The entry's file is present and its predicate holds on it. */
  predicate Holds(dir: map<string, string>, entry: (string, seq<Term>))
  {
    entry.0 in dir && Check(entry.1, dir[entry.0]) == Ok(true)
  }

  lemma {:induction false} InspectFromMeaning(dir: map<string, string>, rule: seq<(string, seq<Term>)>, i: nat, acc: bool)
    requires i <= |rule|
    ensures InspectFrom(dir, rule, i, acc) == Ok(true) <==>
      acc && forall j :: i <= j < |rule| ==> Holds(dir, rule[j])
    decreases |rule| - i
  {
    if i < |rule| && Make(rule[i].1).Ok? && rule[i].0 in dir {
      var v := Check(rule[i].1, dir[rule[i].0]);
      if v.Ok? {
        InspectFromMeaning(dir, rule, i + 1, acc && v.value);
      }
    }
  }

  /** A report matches a rule iff every file the rule names is present
      and satisfies its predicate; an empty rule matches every report. */
  lemma InspectMeaning(dir: map<string, string>, rule: seq<(string, seq<Term>)>)
    ensures Inspect(dir, rule) == Ok(true) <==> forall j :: 0 <= j < |rule| ==> Holds(dir, rule[j])
  {
    InspectFromMeaning(dir, rule, 0, true);
  }

  lemma {:induction false} InspectFromMissing(dir: map<string, string>, rule: seq<(string, seq<Term>)>, i: nat, acc: bool, k: nat)
    requires i <= k < |rule| && rule[k].0 !in dir && Make(rule[k].1).Ok?
    requires forall j :: i <= j < k ==> rule[j].0 in dir && Check(rule[j].1, dir[rule[j].0]).Ok?
    ensures InspectFrom(dir, rule, i, acc) == Ok(false)
    decreases k - i
  {
    if i < k {
      var v := Check(rule[i].1, dir[rule[i].0]);
      assert Make(rule[i].1).Ok?;
      InspectFromMissing(dir, rule, i + 1, acc && v.value, k);
    }
  }

  /** A missing file makes the report not match, unless an earlier entry
      has already failed with an error. */
  lemma InspectMissing(dir: map<string, string>, rule: seq<(string, seq<Term>)>, k: nat)
    requires k < |rule| && rule[k].0 !in dir && Make(rule[k].1).Ok?
    requires forall j :: 0 <= j < k ==> rule[j].0 in dir && Check(rule[j].1, dir[rule[j].0]).Ok?
    ensures Inspect(dir, rule) == Ok(false)
  {
    InspectFromMissing(dir, rule, 0, true, k);
  }

  // ================================================================ transformer lookup

  const Transformers: seq<string> :=
    ["SurelogPlugin", "SystemVerilogToVerilog", "VerilatorTransformer", "YosysWriteSmt2", "YosysWriteCxx"]

  /** Where the extra arguments of a recognised transformer come from:
      none for YosysWriteSmt2, otherwise the text of a dictionary literal
      that the tool evaluates. */
  datatype Args = NoArgs | DictText(text: string)

  datatype Lookup = NoTransformer | Found(name: string, args: Args)

  /** The loop of `get_transformer_and_args` over the names `ts`. An
      occurrence at position 0 does not count. After a name is found
      without a closing `})`, the later names are searched for only in the
      text after it. */
  function LookupFrom(line: string, ts: seq<string>): Lookup
    decreases |ts|
  {
    if |ts| == 0 then NoTransformer
    else
      var t := ts[0];
      var start := Find(line, t + "(");
      if start > 0 then
        if t == "YosysWriteSmt2" then Found(t, NoArgs)
        else
          var rest := line[start + |t| + 1..];
          var end := Find(rest, "})");
          if end > 0 then Found(t, DictText(rest[..end + 1]))
          else LookupFrom(rest, ts[1..])
      else LookupFrom(line, ts[1..])
  }

  /** `get_transformer_and_args(line)`, with the evaluation of the
      dictionary text left to the caller. */
  function TransformerAndArgs(line: string): Lookup
  {
    LookupFrom(line, Transformers)
  }

  /** `pat` occurs in `s` somewhere after its first character. */
  ghost predicate OccursLater(s: string, pat: string)
  {
    exists k :: 0 < k && MatchAt(s, k, pat)
  }

  lemma OccursInSuffix(s: string, off: nat, pat: string)
    requires off <= |s| && OccursLater(s[off..], pat)
    ensures OccursLater(s, pat)
  {
    var k :| 0 < k && MatchAt(s[off..], k, pat);
    assert s[off + k..off + k + |pat|] == s[off..][k..k + |pat|];
    assert MatchAt(s, off + k, pat);
  }

  /** What a found transformer guarantees about the line: its name is
      followed by `(` somewhere after the first character, and for every
      name but YosysWriteSmt2 the line holds `name(text)` with `text`
      ending in `}`. */
  ghost predicate Witnessed(line: string, name: string, args: Args)
  {
    OccursLater(line, name + "(") &&
    (args.NoArgs? <==> name == "YosysWriteSmt2") &&
    (args.DictText? ==>
      |args.text| >= 2 && args.text[|args.text| - 1] == '}' &&
      OccursLater(line, name + "(" + args.text + ")"))
  }

  lemma WitnessedYosys(line: string, t: string, start: nat)
    requires t == "YosysWriteSmt2" && 0 < start && MatchAt(line, start, t + "(")
    ensures Witnessed(line, t, NoArgs)
  {
  }

  lemma WitnessedDict(line: string, t: string, start: nat, end: nat)
    requires t != "YosysWriteSmt2" && 0 < start && MatchAt(line, start, t + "(")
    requires 0 < end && MatchAt(line[start + |t| + 1..], end, "})")
    ensures Witnessed(line, t, DictText(line[start + |t| + 1..][..end + 1]))
  {
    var after := start + |t| + 1;
    var rest := line[after..];
    var text := rest[..end + 1];
    assert rest[end..end + 2] == "})";
    assert rest[end] == rest[end..end + 2][0] == '}';
    assert text[|text| - 1] == '}';
    assert text + ")" == line[after..after + end + 2] by {
      assert rest[end + 1] == rest[end..end + 2][1] == ')';
      assert rest[..end + 2] == text + ")";
      assert rest[..end + 2] == line[after..after + end + 2];
    }
    assert line[start..after + end + 2] == line[start..after] + line[after..after + end + 2];
    assert t + "(" + text + ")" == (t + "(") + (text + ")");
    assert MatchAt(line, start, t + "(" + text + ")");
    assert MatchAt(line, start, t + "(");
  }

  lemma WitnessedSuffix(line: string, off: nat, name: string, args: Args)
    requires off <= |line| && Witnessed(line[off..], name, args)
    ensures Witnessed(line, name, args)
  {
    OccursInSuffix(line, off, name + "(");
    if args.DictText? {
      OccursInSuffix(line, off, name + "(" + args.text + ")");
    }
  }

  /** A lookup result that names one of `ts`, witnessed by `line`. */
  ghost predicate Sound(line: string, ts: seq<string>, r: Lookup)
  {
    r.Found? ==> r.name in ts && Witnessed(line, r.name, r.args)
  }

  /** What a lookup reports is there: the name is one of those searched
      and the line witnesses it. */
  lemma {:induction false} LookupSound(line: string, ts: seq<string>)
    ensures Sound(line, ts, LookupFrom(line, ts))
    decreases |ts|
  {
    if |ts| > 0 {
      var t := ts[0];
      var start := Find(line, t + "(");
      if start > 0 {
        if t == "YosysWriteSmt2" {
          assert LookupFrom(line, ts) == Found(t, NoArgs);
          WitnessedYosys(line, t, start);
        } else {
          var rest := line[start + |t| + 1..];
          var end := Find(rest, "})");
          if end > 0 {
            assert LookupFrom(line, ts) == Found(t, DictText(rest[..end + 1]));
            WitnessedDict(line, t, start, end);
          } else {
            assert LookupFrom(line, ts) == LookupFrom(rest, ts[1..]);
            LookupSoundSuffix(line, start + |t| + 1, ts);
          }
        }
      } else {
        assert LookupFrom(line, ts) == LookupFrom(line, ts[1..]);
        LookupSound(line, ts[1..]);
      }
    }
  }

  lemma {:induction false} LookupSoundSuffix(line: string, off: nat, ts: seq<string>)
    requires off <= |line| && |ts| > 0
    ensures Sound(line, ts, LookupFrom(line[off..], ts[1..]))
    decreases |ts|, 0
  {
    LookupSound(line[off..], ts[1..]);
    var r := LookupFrom(line[off..], ts[1..]);
    if r.Found? {
      WitnessedSuffix(line, off, r.name, r.args);
    }
  }

  /** A line mentioning none of the transformers (each followed by `(`)
      after its first character yields no transformer. */
  lemma LookupAbsent(line: string)
    requires forall t :: t in Transformers ==> !OccursLater(line, t + "(")
    ensures TransformerAndArgs(line) == NoTransformer
  {
    LookupSound(line, Transformers);
  }

  // ================================================================ equivalence classes

  /** One equivalence class: each transformer seen, in first-seen order,
      with the extra arguments of each of its occurrences. */
  type Class = seq<(string, seq<seq<string>>)>

  /** The number of transformer occurrences in a class. */
  function Weight(c: Class): nat
  {
    if |c| == 0 then 0 else |c[0].1| + Weight(c[1..])
  }

  lemma ConsParts(x: (string, seq<seq<string>>), rest: Class)
    ensures Assoc.Keys([x] + rest) == [x.0] + Assoc.Keys(rest)
    ensures Weight([x] + rest) == |x.1| + Weight(rest)
  {
    assert ([x] + rest)[1..] == rest;
  }

  /** `current_class[t].append(args)` on a `defaultdict(list)`. */
  function Append(c: Class, t: string, args: seq<string>): (r: Class)
    ensures Assoc.Keys(r) == if t in Assoc.Keys(c) then Assoc.Keys(c) else Assoc.Keys(c) + [t]
    ensures Weight(r) == Weight(c) + 1
    decreases |c|
  {
    if |c| == 0 then [(t, [args])]
    else
      assert c == [c[0]] + c[1..];
      ConsParts(c[0], c[1..]);
      if c[0].0 == t then
        ConsParts((t, c[0].1 + [args]), c[1..]);
        [(t, c[0].1 + [args])] + c[1..]
      else
        var rest := Append(c[1..], t, args);
        ConsParts(c[0], rest);
        [c[0]] + rest
  }

  /** The occurrence is recorded under its transformer, after the earlier
      ones; a new transformer starts with it. */
  lemma {:induction false} AppendRecords(c: Class, t: string, args: seq<string>)
    ensures var before := Assoc.Get(c, t);
      Assoc.Get(Append(c, t, args), t) == Some((if before.Some? then before.value else []) + [args])
    decreases |c|
  {
    if |c| == 0 {
      assert [] + [args] == [args];
    } else if c[0].0 != t {
      AppendRecords(c[1..], t, args);
      assert Append(c, t, args)[1..] == Append(c[1..], t, args);
    }
  }

  /** No other transformer's list changes. */
  lemma {:induction false} AppendKeepsOthers(c: Class, t: string, args: seq<string>, k: string)
    requires k != t
    ensures Assoc.Get(Append(c, t, args), k) == Assoc.Get(c, k)
    decreases |c|
  {
    if |c| > 0 && c[0].0 != t {
      AppendKeepsOthers(c[1..], t, args, k);
      assert Append(c, t, args)[1..] == Append(c[1..], t, args);
    }
  }

  lemma AppendDistinct(c: Class, t: string, args: seq<string>)
    requires Distinct(Assoc.Keys(c))
    ensures Distinct(Assoc.Keys(Append(c, t, args)))
  {
    var ks := Assoc.Keys(c);
    if t !in ks {
      assert forall j :: 0 <= j < |ks| ==> ks[j] != t;
    }
  }

  function ArgsOf(args: Args, extra: string -> seq<string>): seq<string>
  {
    match args
    case NoArgs => []
    case DictText(text) => extra(text)
  }

  /** `if current_class: classes.append(current_class)`: an empty class is
      dropped. */
  function Flush(done: seq<Class>, current: Option<Class>): seq<Class>
  {
    if current.Some? && |current.value| > 0 then done + [current.value] else done
  }

  /** A class as the listing builds it: non-empty, each transformer once. */
  predicate WellFormed(c: Class)
  {
    |c| > 0 && Distinct(Assoc.Keys(c))
  }

  /** A line that opens a new class. */
  predicate Opens(line: string)
  {
    Contains(line, "core.circuits")
  }

  /** The line loop of `get_equivalence_classes` from line `i` on, with the
      classes completed so far and the one being filled (None before the
      first line that opens a class). `recognise` finds the transformer on
      a line, and `extra` evaluates a transformer's dictionary text. */
  function ScanFrom(lines: seq<string>, i: nat, done: seq<Class>, current: Option<Class>,
                    recognise: string -> Lookup, extra: string -> seq<string>): (r: Result<seq<Class>>)
    requires i <= |lines|
    requires forall c :: c in done ==> WellFormed(c)
    requires current.Some? ==> Distinct(Assoc.Keys(current.value))
    ensures r.Ok? ==> forall c :: c in r.value ==> WellFormed(c)
    ensures r.Err? ==> r.error == TypeError
    ensures current.Some? ==> r.Ok?
    decreases |lines| - i
  {
    if i == |lines| then Ok(Flush(done, current))
    else
      var done' := if Opens(lines[i]) then Flush(done, current) else done;
      var current' := if Opens(lines[i]) then Some([]) else current;
      match recognise(lines[i])
      case NoTransformer => ScanFrom(lines, i + 1, done', current', recognise, extra)
      case Found(t, args) =>
        if current'.None? then Err(TypeError)
        else
          var c := Append(current'.value, t, ArgsOf(args, extra));
          AppendDistinct(current'.value, t, ArgsOf(args, extra));
          ScanFrom(lines, i + 1, done', Some(c), recognise, extra)
  }

  /** `get_equivalence_classes`: the listing's lines, or None when the
      file is missing. A transformer line before the first line that opens
      a class indexes `None` and fails with TypeError. */
  function EquivalenceClasses(listing: Option<seq<string>>, extra: string -> seq<string>): (r: Result<seq<Class>>)
    ensures r.Ok? ==> forall c :: c in r.value ==> WellFormed(c)
    ensures r.Err? ==> r.error == TypeError
  {
    match listing
    case None => Ok([])
    case Some(lines) => ScanFrom(lines, 0, [], None, TransformerAndArgs, extra)
  }

  function TotalWeight(classes: seq<Class>): nat
  {
    if |classes| == 0 then 0 else Weight(classes[0]) + TotalWeight(classes[1..])
  }

  /** The number of lines from `i` on on which a transformer is found. */
  function FoundCount(lines: seq<string>, i: nat, recognise: string -> Lookup): nat
    requires i <= |lines|
    decreases |lines| - i
  {
    if i == |lines| then 0
    else (if recognise(lines[i]).Found? then 1 else 0) + FoundCount(lines, i + 1, recognise)
  }

  lemma {:induction false} TotalWeightAppend(classes: seq<Class>, c: Class)
    ensures TotalWeight(classes + [c]) == TotalWeight(classes) + Weight(c)
    decreases |classes|
  {
    if |classes| > 0 {
      assert (classes + [c])[1..] == classes[1..] + [c];
      TotalWeightAppend(classes[1..], c);
    }
  }

  lemma FlushWeight(done: seq<Class>, current: Option<Class>)
    ensures TotalWeight(Flush(done, current)) ==
      TotalWeight(done) + (if current.Some? then Weight(current.value) else 0)
  {
    if current.Some? && |current.value| > 0 {
      TotalWeightAppend(done, current.value);
    }
  }

  lemma {:induction false} ScanFromWeight(lines: seq<string>, i: nat, done: seq<Class>, current: Option<Class>,
                                          recognise: string -> Lookup, extra: string -> seq<string>)
    requires i <= |lines|
    requires forall c :: c in done ==> WellFormed(c)
    requires current.Some? ==> Distinct(Assoc.Keys(current.value))
    ensures var r := ScanFrom(lines, i, done, current, recognise, extra);
      r.Ok? ==> (TotalWeight(r.value) ==
        TotalWeight(done) + (if current.Some? then Weight(current.value) else 0) + FoundCount(lines, i, recognise))
    decreases |lines| - i
  {
    FlushWeight(done, current);
    if i < |lines| {
      var done' := if Opens(lines[i]) then Flush(done, current) else done;
      var current' := if Opens(lines[i]) then Some([]) else current;
      match recognise(lines[i])
      case NoTransformer =>
        ScanFromWeight(lines, i + 1, done', current', recognise, extra);
      case Found(t, args) =>
        if current'.Some? {
          AppendDistinct(current'.value, t, ArgsOf(args, extra));
          ScanFromWeight(lines, i + 1, done', Some(Append(current'.value, t, ArgsOf(args, extra))), recognise, extra);
        }
    }
  }

  /** No transformer occurrence is lost or counted twice: the classes hold
      exactly as many occurrences as the listing has transformer lines. */
  lemma ClassesKeepOccurrences(lines: seq<string>, extra: string -> seq<string>)
    ensures var r := EquivalenceClasses(Some(lines), extra);
      r.Ok? ==> TotalWeight(r.value) == FoundCount(lines, 0, TransformerAndArgs)
  {
    ScanFromWeight(lines, 0, [], None, TransformerAndArgs, extra);
  }

  /** A transformer line before the first line that opens a class. */
  predicate Orphan(lines: seq<string>, recognise: string -> Lookup)
  {
    exists k :: 0 <= k < |lines| && recognise(lines[k]).Found? &&
      forall j :: 0 <= j <= k ==> !Opens(lines[j])
  }

  lemma {:induction false} ScanFromClosed(lines: seq<string>, i: nat, recognise: string -> Lookup, extra: string -> seq<string>)
    requires i <= |lines|
    requires forall j :: 0 <= j < i ==> !Opens(lines[j]) && recognise(lines[j]).NoTransformer?
    ensures ScanFrom(lines, i, [], None, recognise, extra).Err? <==> Orphan(lines, recognise)
    decreases |lines| - i
  {
    if i == |lines| {
      assert forall k :: 0 <= k < |lines| ==> recognise(lines[k]).NoTransformer?;
    } else if Opens(lines[i]) {
      forall k | 0 <= k < |lines| && recognise(lines[k]).Found?
        ensures exists j :: 0 <= j <= k && Opens(lines[j])
      {
        assert k >= i;
      }
    } else if recognise(lines[i]).Found? {
      assert forall j :: 0 <= j <= i ==> !Opens(lines[j]);
    } else {
      ScanFromClosed(lines, i + 1, recognise, extra);
    }
  }

  /** Reading a listing fails, with TypeError, exactly when a transformer
      line comes before every line that opens a class. */
  lemma OrphanIsTypeError(lines: seq<string>, extra: string -> seq<string>)
    ensures EquivalenceClasses(Some(lines), extra).Err? <==> Orphan(lines, TransformerAndArgs)
  {
    ScanFromClosed(lines, 0, TransformerAndArgs, extra);
  }

  // ================================================================ categories

  function AllKeys(classes: seq<Class>): seq<string>
  {
    if |classes| == 0 then [] else Assoc.Keys(classes[0]) + AllKeys(classes[1..])
  }

  /** The prime category: every transformer of every class, sorted with
      duplicates kept, joined by `-`. */
  function Prime(classes: seq<Class>): string
  {
    Join(StringOrder.Sort(AllKeys(classes)), "-")
  }

  function WeightKey(c: Class): Sorting.Key
  {
    (Weight(c), 0)
  }

  /** `sorted(classes, key=weight)[0]` */
  function Minority(classes: seq<Class>): (m: Class)
    requires |classes| > 0
    ensures m in classes
  {
    var sorted := Sorting.SortBy(classes, WeightKey);
    assert sorted[0] in multiset(sorted);
    sorted[0]
  }

  /** `''.join(chain(*args))` */
  function Flatten(args: seq<seq<string>>): string
  {
    if |args| == 0 then "" else Join(args[0], "") + Flatten(args[1..])
  }

  /** The sub-category. Two classes of one transformer each repeat the
      prime category. Otherwise the lightest class names it: by its sorted
      transformers when it has several, else by its one transformer
      followed by all its extra arguments. */
  function Sub(classes: seq<Class>): string
    requires |classes| > 0 && forall c :: c in classes ==> |c| > 0
  {
    if |classes| == 2 && |classes[0]| == 1 && |classes[1]| == 1 then Prime(classes)
    else
      var m := Minority(classes);
      if |m| > 1 then Join(StringOrder.Sort(Assoc.Keys(m)), "-")
      else m[0].0 + Flatten(m[0].1)
  }

  /** The (prime, sub) category of one report, if it has classes and both
      names are non-empty. */
  function Category(classes: seq<Class>): Option<(string, string)>
    requires forall c :: c in classes ==> |c| > 0
  {
    if |classes| == 0 then None
    else
      var prime, sub := Prime(classes), Sub(classes);
      if prime != "" && sub != "" then Some((prime, sub)) else None
  }

  /** The category of one report, `None` when its listing does not parse. */
  function ReportCategory(listing: Option<seq<string>>, extra: string -> seq<string>): Option<(string, string)>
  {
    match EquivalenceClasses(listing, extra)
    case Ok(classes) => Category(classes)
    case Err(_) => None
  }

  /** The distinct categories of the reports, gathered report by report. */
  function CategorySet(reports: seq<Option<seq<string>>>, extra: string -> seq<string>): set<(string, string)>
  {
    set i | 0 <= i < |reports| && ReportCategory(reports[i], extra).Some? :: ReportCategory(reports[i], extra).value
  }

  lemma CategorySetCons(reports: seq<Option<seq<string>>>, extra: string -> seq<string>)
    requires |reports| > 0
    ensures CategorySet(reports, extra) ==
      (if ReportCategory(reports[0], extra).Some? then {ReportCategory(reports[0], extra).value} else {})
        + CategorySet(reports[1..], extra)
  {
    var head := if ReportCategory(reports[0], extra).Some? then {ReportCategory(reports[0], extra).value} else {};
    forall p | p in CategorySet(reports, extra) ensures p in head + CategorySet(reports[1..], extra) {
      var i :| 0 <= i < |reports| && ReportCategory(reports[i], extra) == Some(p);
      if i > 0 { assert reports[1..][i - 1] == reports[i]; }
    }
    forall p | p in CategorySet(reports[1..], extra) ensures p in CategorySet(reports, extra) {
      var i :| 0 <= i < |reports| - 1 && ReportCategory(reports[1..][i], extra) == Some(p);
      assert reports[i + 1] == reports[1..][i];
    }
  }

  /** The categories of all reports, each report given by its listing: a
      TypeError from any listing escapes, and otherwise the result holds
      exactly the categories of the reports that have one. */
  function Categories(reports: seq<Option<seq<string>>>, extra: string -> seq<string>): (r: Result<set<(string, string)>>)
    ensures r.Err? <==> exists i :: 0 <= i < |reports| && EquivalenceClasses(reports[i], extra).Err?
    ensures r.Err? ==> r.error == TypeError
    ensures r.Ok? ==> r.value == CategorySet(reports, extra)
    ensures r.Ok? ==> |r.value| <= |reports|
    decreases |reports|
  {
    if |reports| == 0 then Ok({})
    else
      assert forall i :: 1 <= i < |reports| ==> reports[1..][i - 1] == reports[i];
      var classes :- EquivalenceClasses(reports[0], extra);
      var rest :- Categories(reports[1..], extra);
      var mine := Category(classes);
      CategorySetCons(reports, extra);
      Ok((if mine.Some? then {mine.value} else {}) + rest)
  }

  /** `diff_classifier`: the number of distinct (prime, sub) categories
      among the reports, never more than the number of reports; a TypeError
      from any listing escapes. */
  function DiffClassifier(reports: seq<Option<seq<string>>>, extra: string -> seq<string>): (r: Result<nat>)
    ensures r.Err? <==> exists i :: 0 <= i < |reports| && EquivalenceClasses(reports[i], extra).Err?
    ensures r.Ok? ==> r.value == |CategorySet(reports, extra)| && r.value <= |reports|
  {
    var cats :- Categories(reports, extra);
    Ok(|cats|)
  }

  /** The index of the first class of least weight. */
  function FirstLightest(classes: seq<Class>): (k: nat)
    requires |classes| > 0
    ensures k < |classes|
    ensures forall j :: 0 <= j < |classes| ==> Weight(classes[k]) <= Weight(classes[j])
    ensures forall j :: 0 <= j < k ==> Weight(classes[j]) > Weight(classes[k])
    decreases |classes|
  {
    if |classes| == 1 then 0
    else
      var k := FirstLightest(classes[1..]);
      if Weight(classes[0]) <= Weight(classes[k + 1]) then 0 else k + 1
  }

  lemma {:induction false} WithKeySkip<T>(s: seq<T>, key: T -> Sorting.Key, want: Sorting.Key, k: nat)
    requires k < |s| && key(s[k]) == want
    requires forall j :: 0 <= j < k ==> key(s[j]) != want
    ensures |Sorting.WithKey(s, key, want)| > 0 && Sorting.WithKey(s, key, want)[0] == s[k]
    decreases k
  {
    if k > 0 {
      WithKeySkip(s[1..], key, want, k - 1);
    }
  }

  /** The head of the sorted classes is as light as the first lightest. */
  lemma SortedHeadWeight(classes: seq<Class>)
    requires |classes| > 0
    ensures var sorted := Sorting.SortBy(classes, WeightKey);
      |sorted| > 0 && WeightKey(sorted[0]) == WeightKey(classes[FirstLightest(classes)])
  {
    var sorted := Sorting.SortBy(classes, WeightKey);
    var k := FirstLightest(classes);
    assert |sorted| > 0 by {
      assert |multiset(sorted)| == |multiset(classes)|;
    }
    assert sorted[0] in multiset(classes) by {
      assert sorted[0] in multiset(sorted);
    }
    var q :| 0 <= q < |classes| && classes[q] == sorted[0];
    assert Weight(classes[k]) <= Weight(classes[q]);
    assert classes[k] in multiset(sorted) by {
      assert classes[k] in multiset(classes);
    }
    var p :| 0 <= p < |sorted| && sorted[p] == classes[k];
    if p > 0 {
      assert Sorting.KeyLe(WeightKey(sorted[0]), WeightKey(sorted[p]));
    }
  }

  /** The minority class is the first class of least weight: Python's sort
      is stable, so among equally light classes the earliest wins. */
  lemma MinorityIsFirstLightest(classes: seq<Class>)
    requires |classes| > 0
    ensures Minority(classes) == classes[FirstLightest(classes)]
  {
    var sorted := Sorting.SortBy(classes, WeightKey);
    var k := FirstLightest(classes);
    SortedHeadWeight(classes);
    var want := WeightKey(classes[k]);
    Sorting.SortByStable(classes, WeightKey, want);
    WithKeySkip(sorted, WeightKey, want, 0);
    WithKeySkip(classes, WeightKey, want, k);
  }

  /** Outside the case of two one-transformer classes, the sub-category
      is named after the first class of least weight. */
  lemma SubOfLightest(classes: seq<Class>)
    requires |classes| > 0 && forall c :: c in classes ==> |c| > 0
    requires !(|classes| == 2 && |classes[0]| == 1 && |classes[1]| == 1)
    ensures var m := classes[FirstLightest(classes)];
      Sub(classes) == if |m| > 1 then Join(StringOrder.Sort(Assoc.Keys(m)), "-") else m[0].0 + Flatten(m[0].1)
  {
    MinorityIsFirstLightest(classes);
  }

  /** Two classes of one transformer each: both names are the two
      transformers in order, joined by `-`. */
  lemma TwoSingletons(classes: seq<Class>)
    requires |classes| == 2 && |classes[0]| == 1 && |classes[1]| == 1
    ensures var a, b := classes[0][0].0, classes[1][0].0;
      Sub(classes) == Prime(classes) &&
      Prime(classes) == if StringOrder.AtMost(a, b) then a + "-" + b else b + "-" + a
  {
    var a, b := classes[0][0].0, classes[1][0].0;
    assert Assoc.Keys(classes[0]) == [a];
    assert Assoc.Keys(classes[1]) == [b];
    assert AllKeys(classes) == [a, b] by {
      assert classes[1..][0] == classes[1];
      assert AllKeys(classes[1..][1..]) == [];
      assert AllKeys(classes[1..]) == [b];
    }
    var ordered := if StringOrder.AtMost(a, b) then [a, b] else [b, a];
    StringOrder.LessTotal(a, b);
    assert StringOrder.Sorted(ordered);
    assert multiset(ordered) == multiset([a, b]);
    StringOrder.SortedUnique(StringOrder.Sort([a, b]), ordered);
    assert Join(ordered, "-") == ordered[0] + "-" + ordered[1] by {
      assert ordered[1..] == [ordered[1]];
    }
  }

  lemma {:induction false} AllKeysConcat(a: seq<Class>, b: seq<Class>)
    ensures AllKeys(a + b) == AllKeys(a) + AllKeys(b)
    decreases |a|
  {
    if |a| > 0 {
      assert (a + b)[1..] == a[1..] + b;
      assert AllKeys(a + b) == Assoc.Keys(a[0]) + AllKeys(a[1..] + b);
      AllKeysConcat(a[1..], b);
    } else {
      assert a + b == b;
    }
  }

  /** The prime category does not depend on the order of the classes. */
  lemma PrimeIgnoresOrder(a: seq<Class>, b: seq<Class>)
    ensures Prime(a + b) == Prime(b + a)
  {
    AllKeysConcat(a, b);
    AllKeysConcat(b, a);
    StringOrder.SortByElements(AllKeys(a + b), AllKeys(b + a));
  }

  /** When no transformer name holds a `-`, the prime category splits back
      into every transformer of every class, sorted, duplicates kept. */
  lemma PrimeLists(classes: seq<Class>)
    requires |AllKeys(classes)| > 0
    requires forall j :: 0 <= j < |AllKeys(classes)| ==> Lacks(AllKeys(classes)[j], '-')
    ensures Split(Prime(classes), "-") == StringOrder.Sort(AllKeys(classes))
  {
    var sorted := StringOrder.Sort(AllKeys(classes));
    forall j | 0 <= j < |sorted|
      ensures Lacks(sorted[j], "-"[0])
    {
      assert sorted[j] in multiset(AllKeys(classes)) by {
        assert sorted[j] in multiset(sorted);
      }
    }
    SplitJoin(sorted, "-");
  }
}
