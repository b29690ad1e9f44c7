/** Translators and their command-line option spaces: how a translator class
    is declared, how its instances are enumerated, and how a chain of
    translators is applied to a circuit. */
module Translator {
  import opened Wrappers
  import opened Seqs
  import opened Combinatorics

  // ------------------------------------------------------------- options

  /** A format string with at most one replacement field `{}`. */
  datatype Template = Fixed(text: string) | Field(before: string, after: string)

  /** `str(v)` of a domain value: Python's `None` prints as "None". */
  function Show(v: Option<string>): string
  {
    if v.None? then "None" else v.value
  }

  /** `template.format(v)` */
  function Format(t: Template, v: Option<string>): (r: string)
    ensures t.Field? ==> |r| == |t.before| + |Show(v)| + |t.after|
    ensures t.Fixed? ==> r == t.text
  {
    match t
    case Fixed(text) => text
    case Field(before, after) => before + Show(v) + after
  }

  /** A command-line switch together with the values it may take. */
  datatype CmdlineOption = CmdlineOption(template: Template, domain: seq<Option<string>>)

  /** An option built without an explicit domain takes the single value `None`. */
  function DefaultOption(template: Template): (r: CmdlineOption)
    ensures r.template == template && |r.domain| == 1 && r.domain[0].None?
    ensures Count(r) == 2 && Alternatives(r) == [None, Some(None)]
  {
    CmdlineOption(template, [None])
  }

  /** The ways an option can appear on a command line: absent, or with one
      value of its domain. */
  function Alternatives(opt: CmdlineOption): (r: seq<Option<Option<string>>>)
    ensures |r| == |opt.domain| + 1
    ensures r[0].None? && forall i :: 0 <= i < |opt.domain| ==> r[i + 1] == Some(opt.domain[i])
  {
    [None] + seq(|opt.domain|, i requires 0 <= i < |opt.domain| => Some(opt.domain[i]))
  }

  /** `CmdlineOption.count`: one more than the domain size. */
  function Count(opt: CmdlineOption): (r: nat)
    ensures r == |Alternatives(opt)|
  {
    |opt.domain| + 1
  }

  /** A value `Sample` may return for `opt`. */
  predicate Sampled(opt: CmdlineOption, s: string)
  {
    exists c :: 0 <= c < |opt.domain| && s == Format(opt.template, opt.domain[c])
  }

  /** `CmdlineOption.sample`, where `c` is the index `random.choice` picks.
      An empty domain makes `choice` raise `IndexError`. */
  function Sample(opt: CmdlineOption, c: nat): (r: Result<string>)
    requires |opt.domain| > 0 ==> c < |opt.domain|
    ensures r.Err? <==> |opt.domain| == 0
    ensures r.Err? ==> r.error == IndexError
    ensures r.Ok? ==> Sampled(opt, r.value)
  {
    if |opt.domain| == 0 then Err(IndexError)
    else Ok(Format(opt.template, opt.domain[c]))
  }

  /** Every option with a non-empty domain has its pick in range. */
  predicate ChoicesFit(options: seq<CmdlineOption>, cs: seq<nat>)
  {
    |cs| == |options| &&
    forall j :: 0 <= j < |options| ==> (|options[j].domain| > 0 ==> cs[j] < |options[j].domain|)
  }

  /** One sample of every option, in order; the first empty domain raises. */
  function SampleAll(options: seq<CmdlineOption>, cs: seq<nat>): (r: Result<seq<string>>)
    requires ChoicesFit(options, cs)
    ensures r.Err? <==> exists j :: 0 <= j < |options| && |options[j].domain| == 0
    ensures r.Err? ==> r.error == IndexError
    ensures r.Ok? ==> |r.value| == |options| && forall j :: 0 <= j < |options| ==> Sampled(options[j], r.value[j])
    decreases |options|
  {
    if |options| == 0 then Ok([])
    else
      assert ChoicesFit(options[1..], cs[1..]) by {
        forall j | 0 <= j < |options| - 1 ensures options[1..][j] == options[j + 1] && cs[1..][j] == cs[j + 1] { }
      }
      var first := Sample(options[0], cs[0]);
      var rest := SampleAll(options[1..], cs[1..]);
      if first.Err? then
        Err(first.error)
      else if rest.Err? then
        var j :| 0 <= j < |options| - 1 && |options[1..][j].domain| == 0;
        assert |options[j + 1].domain| == 0;
        Err(rest.error)
      else
        assert forall j :: 0 <= j < |options| - 1 ==> |options[1..][j].domain| > 0;
        assert forall j :: 0 <= j < |options| ==> |options[j].domain| > 0 by {
          forall j | 0 <= j < |options| ensures |options[j].domain| > 0 {
            if j > 0 { assert options[j] == options[1..][j - 1]; }
          }
        }
        Ok([first.value] + rest.value)
  }

  // --------------------------------------------------------- translators

  /** A translator class: its name, the circuit-type edges it converts
      along, and its alternative options. */
  datatype TranslatorClass = TranslatorClass(
    name: string,
    edges: seq<(string, string)>,
    options: seq<CmdlineOption>)

  /** A translator instance; `policy` holds the `extra_args` it was built
      with, or is absent for a translator without options. */
  datatype Instance = Instance(cls: string, policy: Option<seq<string>>)

  /** `MetaTranslator.__init_subclass__`: a subclass whose `edges` is unset
      or empty is rejected with `ValueError`; otherwise it is registered. */
  function DefineTranslator(name: string, edges: Option<seq<(string, string)>>, options: seq<CmdlineOption>)
    : (r: Result<TranslatorClass>)
    ensures r.Err? <==> (edges.None? || |edges.value| == 0)
    ensures r.Err? ==> r.error == ValueError
    ensures r.Ok? ==> r.value.name == name && r.value.options == options && r.value.edges == edges.value
  {
    if edges.None? || |edges.value| == 0 then Err(ValueError)
    else Ok(TranslatorClass(name, edges.value, options))
  }

  /** The instances with exactly `k` of the sampled option values. */
  function WithArgs(name: string, samples: seq<string>, k: nat): (r: seq<Instance>)
    ensures |r| == Binom(|samples|, k)
    ensures forall i :: 0 <= i < |r| ==>
      (r[i].cls == name && r[i].policy.Some? && r[i].policy.value == Combinations(samples, k)[i])
  {
    var cs := Combinations(samples, k);
    seq(|cs|, i requires 0 <= i < |cs| => Instance(name, Some(cs[i])))
  }

  /** Choices of `random.choice` for every round of sampling below `m`. */
  predicate RoundsFit(options: seq<CmdlineOption>, choices: seq<seq<nat>>, m: nat)
  {
    |choices| >= m && forall k :: 0 <= k < m ==> ChoicesFit(options, choices[k])
  }

  /** The instances of rounds `0 .. m-1`; each round re-samples every option. */
  function Rounds(tr: TranslatorClass, m: nat, choices: seq<seq<nat>>): (r: Result<seq<Instance>>)
    requires RoundsFit(tr.options, choices, m)
    decreases m
  {
    if m == 0 then Ok([])
    else
      var earlier :- Rounds(tr, m - 1, choices);
      var samples :- SampleAll(tr.options, choices[m - 1]);
      Ok(earlier + WithArgs(tr.name, samples, m - 1))
  }

  /** `MetaTranslator.all_instances(max_op)`: a translator without options
      has the one instance without policy; otherwise round `k` for every
      `k < max_op` samples every option once and yields an instance per
      `k`-combination of the samples. `choices[k]` are round `k`'s picks. */
  function AllInstances(tr: TranslatorClass, maxOp: int, choices: seq<seq<nat>>): (r: Result<seq<Instance>>)
    requires RoundsFit(tr.options, choices, if maxOp < 0 then 0 else maxOp)
    ensures |tr.options| == 0 ==> r == Ok([Instance(tr.name, None)])
  {
    if |tr.options| == 0 then Ok([Instance(tr.name, None)])
    else Rounds(tr, if maxOp < 0 then 0 else maxOp, choices)
  }

  /** Sampling fails exactly when a round happens and some option has an
      empty domain. */
  lemma {:induction false} RoundsError(tr: TranslatorClass, m: nat, choices: seq<seq<nat>>)
    requires RoundsFit(tr.options, choices, m)
    ensures Rounds(tr, m, choices).Err? <==>
      (m > 0 && exists j :: 0 <= j < |tr.options| && |tr.options[j].domain| == 0)
    ensures Rounds(tr, m, choices).Err? ==> Rounds(tr, m, choices).error == IndexError
    decreases m
  {
    if m > 0 {
      RoundsError(tr, m - 1, choices);
    }
  }

  /** Successful rounds below `m` yield `C(n,0) + ... + C(n,m-1)` instances. */
  lemma {:induction false} RoundsCount(tr: TranslatorClass, m: nat, choices: seq<seq<nat>>)
    requires RoundsFit(tr.options, choices, m)
    requires Rounds(tr, m, choices).Ok?
    ensures |Rounds(tr, m, choices).value| == BinomSum(|tr.options|, m)
    decreases m
  {
    if m > 0 {
      RoundsCount(tr, m - 1, choices);
    }
  }

  /** Every instance of the rounds below `m` carries `k < m` option values,
      chosen in order from round `k`'s samples. */
  lemma {:induction false} RoundsShape(tr: TranslatorClass, m: nat, choices: seq<seq<nat>>, x: Instance)
    requires RoundsFit(tr.options, choices, m)
    requires Rounds(tr, m, choices).Ok? && x in Rounds(tr, m, choices).value
    ensures x.cls == tr.name && x.policy.Some?
    ensures |x.policy.value| < m
    ensures SampleAll(tr.options, choices[|x.policy.value|]).Ok?
    ensures IsSubsequence(x.policy.value, SampleAll(tr.options, choices[|x.policy.value|]).value)
    decreases m
  {
    RoundsSplit(tr, m, choices);
    var earlier := Rounds(tr, m - 1, choices).value;
    var samples := SampleAll(tr.options, choices[m - 1]).value;
    var last := WithArgs(tr.name, samples, m - 1);
    assert x in earlier + last;
    if x in earlier {
      RoundsShape(tr, m - 1, choices, x);
    } else {
      LastRoundShape(tr, m, choices, x);
    }
  }

  /** An instance of the last round below `m` has `m - 1` option values. */
  lemma LastRoundShape(tr: TranslatorClass, m: nat, choices: seq<seq<nat>>, x: Instance)
    requires 0 < m <= |choices| && ChoicesFit(tr.options, choices[m - 1])
    requires SampleAll(tr.options, choices[m - 1]).Ok?
    requires x in WithArgs(tr.name, SampleAll(tr.options, choices[m - 1]).value, m - 1)
    ensures x.cls == tr.name && x.policy.Some? && |x.policy.value| == m - 1
    ensures SampleAll(tr.options, choices[|x.policy.value|]).Ok?
    ensures IsSubsequence(x.policy.value, SampleAll(tr.options, choices[|x.policy.value|]).value)
  {
    var samples := SampleAll(tr.options, choices[m - 1]).value;
    var last := WithArgs(tr.name, samples, m - 1);
    var i :| 0 <= i < |last| && last[i] == x;
    WithArgsShape(tr.name, samples, m - 1, i);
  }

  /** The rounds below `m` are those below `m - 1` and then round `m - 1`. */
  lemma RoundsSplit(tr: TranslatorClass, m: nat, choices: seq<seq<nat>>)
    requires RoundsFit(tr.options, choices, m) && m > 0
    requires Rounds(tr, m, choices).Ok?
    ensures RoundsFit(tr.options, choices, m - 1) && Rounds(tr, m - 1, choices).Ok?
    ensures SampleAll(tr.options, choices[m - 1]).Ok?
    ensures Rounds(tr, m, choices).value ==
      Rounds(tr, m - 1, choices).value + WithArgs(tr.name, SampleAll(tr.options, choices[m - 1]).value, m - 1)
  {
  }

  /** An instance of one round carries `k` of the round's samples, in order. */
  lemma WithArgsShape(name: string, samples: seq<string>, k: nat, i: nat)
    requires i < |WithArgs(name, samples, k)|
    ensures var x := WithArgs(name, samples, k)[i];
      x.cls == name && x.policy.Some? && |x.policy.value| == k && IsSubsequence(x.policy.value, samples)
  {
    CombinationsAreSubsequences(samples, k, Combinations(samples, k)[i]);
  }

  /** `all_instances` raises `IndexError` exactly when an option has an empty
      domain and `max_op` is positive. */
  lemma AllInstancesError(tr: TranslatorClass, maxOp: int, choices: seq<seq<nat>>)
    requires RoundsFit(tr.options, choices, if maxOp < 0 then 0 else maxOp)
    ensures AllInstances(tr, maxOp, choices).Err? <==>
      (maxOp > 0 && exists j :: 0 <= j < |tr.options| && |tr.options[j].domain| == 0)
    ensures AllInstances(tr, maxOp, choices).Err? ==> AllInstances(tr, maxOp, choices).error == IndexError
  {
    if |tr.options| > 0 {
      RoundsError(tr, if maxOp < 0 then 0 else maxOp, choices);
    }
  }

  /** A translator with `n > 0` options has `C(n,0) + ... + C(n,max_op-1)`
      instances, and never more than `2^n`. */
  lemma AllInstancesCount(tr: TranslatorClass, maxOp: int, choices: seq<seq<nat>>)
    requires RoundsFit(tr.options, choices, if maxOp < 0 then 0 else maxOp)
    requires |tr.options| > 0 && AllInstances(tr, maxOp, choices).Ok?
    ensures |AllInstances(tr, maxOp, choices).value| == BinomSum(|tr.options|, if maxOp < 0 then 0 else maxOp)
    ensures |AllInstances(tr, maxOp, choices).value| <= Pow2(|tr.options|)
  {
    RoundsCount(tr, if maxOp < 0 then 0 else maxOp, choices);
    BinomSumAtMostPow2(|tr.options|, if maxOp < 0 then 0 else maxOp);
  }

  /** Each instance of a translator with options carries fewer than `max_op`
      sampled values, in option order. */
  lemma AllInstancesShape(tr: TranslatorClass, maxOp: int, choices: seq<seq<nat>>, x: Instance)
    requires RoundsFit(tr.options, choices, if maxOp < 0 then 0 else maxOp)
    requires |tr.options| > 0 && AllInstances(tr, maxOp, choices).Ok? && x in AllInstances(tr, maxOp, choices).value
    ensures x.cls == tr.name && x.policy.Some? && |x.policy.value| < maxOp
    ensures SampleAll(tr.options, choices[|x.policy.value|]).Ok?
    ensures IsSubsequence(x.policy.value, SampleAll(tr.options, choices[|x.policy.value|]).value)
  {
    RoundsShape(tr, if maxOp < 0 then 0 else maxOp, choices, x);
  }

  /** `MetaTranslator.instance_count`: the product of the options' counts. */
  function InstanceCount(options: seq<CmdlineOption>): (r: nat)
    ensures r >= 1
    decreases |options|
  {
    if |options| == 0 then 1 else Count(options[0]) * InstanceCount(options[1..])
  }

  /** The alternatives of every option, in order. */
  function AllAlternatives(options: seq<CmdlineOption>): (r: seq<seq<Option<Option<string>>>>)
    ensures |r| == |options| && forall i :: 0 <= i < |options| ==> r[i] == Alternatives(options[i])
  {
    seq(|options|, i requires 0 <= i < |options| => Alternatives(options[i]))
  }

  /** `instance_count` is the number of command-line configurations: one
      alternative (absent or a value) per option. */
  lemma {:induction false} InstanceCountConfigurations(options: seq<CmdlineOption>)
    ensures |Product(AllAlternatives(options))| == InstanceCount(options)
    decreases |options|
  {
    if |options| > 0 {
      InstanceCountConfigurations(options[1..]);
      assert AllAlternatives(options)[1..] == AllAlternatives(options[1..]);
    }
  }

  // --------------------------------------------------------- conversions

  /** `Conversion.apply_to`: translate the circuit through the chain in
      order; a translator's failure ends the chain with its error. */
  function ApplyTo<T, C>(chain: seq<T>, translate: (T, C) -> Result<C>, c: C): (r: Result<C>)
    ensures |chain| == 0 ==> r == Ok(c)
    decreases |chain|
  {
    if |chain| == 0 then Ok(c)
    else
      var next :- translate(chain[0], c);
      ApplyTo(chain[1..], translate, next)
  }

  /** Applying `a + b` is applying `a` and then `b` to its result. */
  lemma {:induction false} ApplyToConcat<T, C>(a: seq<T>, b: seq<T>, translate: (T, C) -> Result<C>, c: C)
    ensures ApplyTo(a + b, translate, c) ==
      match ApplyTo(a, translate, c)
      case Err(e) => Err(e)
      case Ok(m) => ApplyTo(b, translate, m)
    decreases |a|
  {
    if |a| > 0 {
      assert (a + b)[0] == a[0] && (a + b)[1..] == a[1..] + b;
      var next := translate(a[0], c);
      if next.Ok? {
        ApplyToConcat(a[1..], b, translate, next.value);
      }
    } else {
      assert a + b == b;
    }
  }

  /** A chain of one translator is that translator. */
  lemma ApplyToSingle<T, C>(t: T, translate: (T, C) -> Result<C>, c: C)
    ensures ApplyTo([t], translate, c) == translate(t, c)
  {
    assert [t][1..] == [];
  }
}
