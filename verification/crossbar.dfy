/** Name translation and memory layout of `core/ir/crossbar.py`: how a
    hierarchical item name is written in Verilator's generated C++ (and
    read back), how CXXRTL mangles module names, and how KLEE sees the
    bytes of an item as a list of atoms. */
module Crossbar {
  import opened Wrappers
  import opened Seqs
  import opened Strings
  import opened Items
  import opened ModuleIR
  import opened View

  const DOT: string := "__DOT__"
  const BRA: string := "__BRA__"
  const KET: string := "__KET__"
  const DOLLAR: string := "__024"

  // ------------------------------------------------------ split and merge

  /** `VerilatorNamingHelper.split`: decode `$` first; a name without a
      separator is a top-level port, anything else is split into its
      hierarchy after decoding the brackets. */
  function SplitName(fullName: string): (r: seq<string>)
    ensures !Contains(ReplaceAll(fullName, DOLLAR, "$"), DOT) ==> r == [ReplaceAll(fullName, DOLLAR, "$")]
  {
    var name := ReplaceAll(fullName, DOLLAR, "$");
    if !Contains(name, DOT) then [name]
    else Split(ReplaceAll(ReplaceAll(name, BRA, "["), KET, "]"), DOT)
  }

  /** The bracket and dollar encoding `merge` applies to a joined name. */
  function Encode(s: string): string
  {
    ReplaceAll(ReplaceAll(ReplaceAll(s, "[", BRA), "]", KET), "$", DOLLAR)
  }

  /** What `merge` returns, and the caller's `submodules` list after the
      call: `merge` appends the item to it in place. */
  datatype Merged = Merged(name: string, submodules: seq<string>)

  /** `VerilatorNamingHelper.merge` */
  function Merge(submodules: seq<string>, item: string, isPort: bool): (r: Merged)
    ensures Lacks(r.name, '$')
    ensures !(|submodules| == 1 && isPort) ==> Lacks(r.name, '[') && Lacks(r.name, ']')
    ensures r.submodules == if |submodules| == 1 && isPort then submodules else submodules + [item]
  {
    if |submodules| == 1 && isPort then
      ReplaceCharRemoves(item, '$', DOLLAR);
      Merged(ReplaceAll(item, "$", DOLLAR), submodules)
    else
      var names := submodules + [item];
      var joined := Join(names, DOT);
      ReplaceCharRemoves(joined, '[', BRA);
      ReplaceKeepsLacking(ReplaceAll(joined, "[", BRA), "]", KET, '[');
      ReplaceCharRemoves(ReplaceAll(joined, "[", BRA), ']', KET);
      var e2 := ReplaceAll(ReplaceAll(joined, "[", BRA), "]", KET);
      ReplaceKeepsLacking(e2, "$", DOLLAR, '[');
      ReplaceKeepsLacking(e2, "$", DOLLAR, ']');
      ReplaceCharRemoves(e2, '$', DOLLAR);
      Merged(Encode(joined), names)
  }

  /** `VerilatorCppCrossbar.escape_name`: only `$` is encoded. */
  function EscapeName(name: string): (r: string)
    ensures Lacks(r, '$')
    ensures forall tag :: r == Merge([tag], name, true).name
  {
    ReplaceCharRemoves(name, '$', DOLLAR);
    ReplaceAll(name, "$", DOLLAR)
  }

  /** A simple identifier or instance name: what the round trip needs. It is
      not empty, does not start with a digit, holds no `_`, `[` or `]`, and
      is not one of the words `BRA` and `KET` that the encoding spells
      between underscores. */
  predicate Plain(n: string)
  {
    |n| > 0 && !('0' <= n[0] <= '9') && Lacks(n, '_') && Lacks(n, '[') && Lacks(n, ']') &&
    n != "BRA" && n != "KET"
  }

  function EncodeDollar(n: string): string
  {
    ReplaceAll(n, "$", DOLLAR)
  }

  /** Decoding `__024` undoes the dollar encoding of a name without `_`,
      whatever follows it. */
  lemma {:induction false} DecodeName(n: string, t: string)
    requires Lacks(n, '_')
    ensures ReplaceAll(EncodeDollar(n) + t, DOLLAR, "$") == n + ReplaceAll(t, DOLLAR, "$")
    decreases |n|
  {
    if |n| == 0 {
      assert EncodeDollar(n) + t == t;
    } else {
      var c, m := n[0], n[1..];
      assert n == [c] + m;
      ReplaceCharCons(c, m, '$', DOLLAR);
      DecodeName(m, t);
      var rest := EncodeDollar(m) + t;
      if c == '$' {
        assert EncodeDollar(n) + t == DOLLAR + rest;
        ReplaceAllHead(DOLLAR, rest, "$");
      } else {
        assert EncodeDollar(n) + t == [c] + rest;
        KeepChar(c, rest);
      }
    }
  }

  lemma KeepChar(c: char, rest: string)
    requires c != '_' && c != '$'
    ensures ReplaceAll([c] + rest, DOLLAR, "$") == [c] + ReplaceAll(rest, DOLLAR, "$")
  {
    if 5 <= |[c] + rest| {
      assert ([c] + rest)[0..5][0] == c;
    }
    ReplaceAllNoMatchPrefix([c], rest, DOLLAR, "$");
  }

  /** How the encoding of a plain name begins. */
  lemma EncodedStart(n: string)
    requires Plain(n)
    ensures var e := EncodeDollar(n);
      |e| > 0 && e[0] != '0' && (e[0] == '_' ==> |e| > 1 && e[1] == '_')
  {
    ReplaceCharCons(n[0], n[1..], '$', DOLLAR);
    assert n == [n[0]] + n[1..];
  }

  /** No `__024` starts inside a separator followed by an encoded plain name. */
  lemma SeparatorNoDollar(rest: string)
    requires |rest| > 0 && rest[0] != '0' && (rest[0] == '_' ==> |rest| > 1 && rest[1] == '_')
    ensures forall k :: 0 <= k < |DOT| ==> !MatchAt(DOT + rest, k, DOLLAR)
  {
    var s := DOT + rest;
    assert s[..7] == DOT;
    assert s[7] == rest[0];
    assert |s| > 8 ==> s[8] == rest[1];
    forall k | 0 <= k < |DOT|
      ensures !MatchAt(s, k, DOLLAR)
    {
      if k + 5 <= |s| {
        var m := s[k..k + 5];
        assert m[0] == s[k] && m[1] == s[k + 1] && m[2] == s[k + 2];
      }
    }
  }

  /** Decoding the dollar signs of the joined, encoded names gives the
      joined names. */
  lemma {:induction false} DecodeJoin(names: seq<string>)
    requires |names| > 0 && forall i :: 0 <= i < |names| ==> Plain(names[i])
    ensures ReplaceAll(Join(ReplaceEach(names, '$', DOLLAR), DOT), DOLLAR, "$") == Join(names, DOT)
    decreases |names|
  {
    var encs := ReplaceEach(names, '$', DOLLAR);
    if |names| == 1 {
      DecodeName(names[0], "");
      assert EncodeDollar(names[0]) + "" == EncodeDollar(names[0]);
      ReplaceAllShort("", DOLLAR, "$");
    } else {
      var rest := Join(encs[1..], DOT);
      assert encs[1..] == ReplaceEach(names[1..], '$', DOLLAR);
      DecodeJoin(names[1..]);
      EncodedStart(names[1]);
      assert rest[..|encs[1]|] == encs[1] by {
        JoinStart(encs[1..], DOT);
      }
      SeparatorNoDollar(rest);
      ReplaceAllNoMatchPrefix(DOT, rest, DOLLAR, "$");
      DecodeName(names[0], DOT + rest);
      assert Join(encs, DOT) == EncodeDollar(names[0]) + (DOT + rest);
    }
  }

  lemma JoinStart(xs: seq<string>, sep: string)
    requires |xs| > 0
    ensures |Join(xs, sep)| >= |xs[0]| && Join(xs, sep)[..|xs[0]|] == xs[0]
  {
    if |xs| > 1 {
      assert Join(xs, sep) == xs[0] + (sep + Join(xs[1..], sep));
    }
  }

  /** A plain name followed by a separator (or by nothing) never spells
      `w__` in its first five characters. */
  lemma WordBoundary(n: string, tail: string, w: string)
    requires Plain(n) && |w| == 3 && Lacks(w, '_') && n != w
    requires tail == [] || tail[0] == '_'
    ensures !(|n + tail| >= 5 && (n + tail)[..5] == w + "__")
  {
    var s := n + tail;
    if |s| >= 5 {
      if |n| >= 4 {
        assert s[3] == n[3] && s[3] != '_';
        assert s[..5][3] == s[3];
      } else if |n| == 3 {
        assert s[..5][..3] == n;
      } else {
        assert s[|n|] == '_';
        assert s[..5][|n|] == s[|n|];
      }
    }
  }

  /** No `__w__` starts inside a separator followed by a plain name other
      than `w`. */
  lemma SeparatorNoWord(n: string, tail: string, w: string)
    requires Plain(n) && |w| == 3 && Lacks(w, '_') && n != w && w != "DOT"
    requires tail == [] || tail[0] == '_'
    ensures forall k :: 0 <= k < |DOT| ==> !MatchAt(DOT + (n + tail), k, "__" + w + "__")
  {
    var pat := "__" + w + "__";
    var s := DOT + (n + tail);
    WordBoundary(n, tail, w);
    assert s[..7] == DOT;
    assert s[7] == n[0];
    assert pat[2..5] == w;
    forall k | 0 <= k < |DOT|
      ensures !MatchAt(s, k, pat)
    {
      if k + 7 <= |s| {
        var m := s[k..k + 7];
        assert m[0] == s[k] && m[1] == s[k + 1];
        if k == 0 {
          assert m == DOT && DOT[2..5] == "DOT";
        } else if k == 5 {
          assert m[2..] == (n + tail)[..5];
          assert pat[2..] == w + "__";
        }
      }
    }
  }

  /** One separator and plain name ahead of text the decoding keeps. */
  lemma NoWordStep(a: string, n: string, tail: string, w: string, rep: string)
    requires Plain(a) && Plain(n) && n != w && |w| == 3 && Lacks(w, '_') && w != "DOT"
    requires tail == [] || tail[0] == '_'
    requires ReplaceAll(n + tail, "__" + w + "__", rep) == n + tail
    ensures ReplaceAll(a + (DOT + (n + tail)), "__" + w + "__", rep) == a + (DOT + (n + tail))
  {
    SeparatorNoWord(n, tail, w);
    ReplaceAllNoMatchPrefix(DOT, n + tail, "__" + w + "__", rep);
    ReplaceAllSkipsPrefix(a, DOT + (n + tail), "__" + w + "__", rep);
  }

  /** The bracket decoding leaves joined plain names alone. */
  lemma {:induction false} NoWordInJoin(names: seq<string>, w: string, rep: string)
    requires |names| > 0 && forall i :: 0 <= i < |names| ==> Plain(names[i]) && names[i] != w
    requires |w| == 3 && Lacks(w, '_') && w != "DOT"
    ensures ReplaceAll(Join(names, DOT), "__" + w + "__", rep) == Join(names, DOT)
    decreases |names|
  {
    if |names| == 1 {
      ReplaceAllAbsent(names[0], "__" + w + "__", rep);
    } else {
      NoWordInJoin(names[1..], w, rep);
      var tail := if |names| == 2 then [] else DOT + Join(names[2..], DOT);
      assert Join(names[1..], DOT) == names[1] + tail;
      NoWordStep(names[0], names[1], tail, w, rep);
      assert Join(names, DOT) == names[0] + (DOT + (names[1] + tail));
    }
  }

  lemma JoinContainsDot(names: seq<string>)
    requires |names| > 0 && forall i :: 0 <= i < |names| ==> Lacks(names[i], '_')
    ensures Contains(Join(names, DOT), DOT) <==> |names| > 1
  {
    if |names| > 1 {
      ContainsMiddle(names[0], DOT, Join(names[1..], DOT));
    } else {
      NotContainsLacking(names[0], DOT);
    }
  }

  /** `split` undoes `merge`: the hierarchy comes back, or just the port
      name for a port of the top module. */
  lemma MergeSplit(tags: seq<string>, item: string, isPort: bool)
    requires forall i :: 0 <= i < |tags| ==> Plain(tags[i])
    requires Plain(item)
    ensures SplitName(Merge(tags, item, isPort).name) == if |tags| == 1 && isPort then [item] else tags + [item]
  {
    if |tags| == 1 && isPort {
      DecodeName(item, "");
      assert EncodeDollar(item) + "" == EncodeDollar(item);
      ReplaceAllShort("", DOLLAR, "$");
      assert item + "" == item;
      NotContainsLacking(item, DOT);
    } else {
      var names := tags + [item];
      assert forall i :: 0 <= i < |names| ==> Plain(names[i]);
      var joined := Join(names, DOT);
      JoinLacks(names, DOT, '[');
      JoinLacks(names, DOT, ']');
      ReplaceAllAbsent(joined, "[", BRA);
      ReplaceAllAbsent(joined, "]", KET);
      ReplaceCharJoin(names, DOT, '$', DOLLAR);
      DecodeJoin(names);
      JoinContainsDot(names);
      if |names| > 1 {
        NoWordInJoin(names, "BRA", "[");
        NoWordInJoin(names, "KET", "]");
        assert "__" + "BRA" + "__" == BRA && "__" + "KET" + "__" == KET;
        SplitJoin(names, DOT);
      }
    }
  }

  /** Names free of the four encoded tokens are not enough: an instance
      named `BRA` in the middle of a path is read back as part of a bracket,
      and the whole path collapses into one name. */
  lemma MergeSplitNeedsPlainNames(tags: seq<string>, item: string)
    requires tags == ["top", "BRA"] && item == "x"
    ensures var merged := Merge(tags, item, false).name;
      merged == "top__DOT__BRA__DOT__x" && SplitName(merged) == ["top__DOT[DOT__x"]
  {
    CounterMerge(tags, item);
    CounterDecode("top__DOT__BRA__DOT__x");
  }

  lemma CounterMerge(tags: seq<string>, item: string)
    requires tags == ["top", "BRA"] && item == "x"
    ensures Merge(tags, item, false).name == "top__DOT__BRA__DOT__x"
  {
    CounterJoin(tags[0], tags[1], item);
    assert tags == [tags[0], tags[1]];
    CounterEncode(Join(tags + [item], DOT));
  }

  lemma CounterJoin(top: string, inst: string, item: string)
    ensures Join([top, inst] + [item], DOT) == top + DOT + inst + DOT + item
  {
    var names := [top, inst, item];
    assert [top, inst] + [item] == names;
    assert names[1..][1..] == [item];
    assert Join(names[1..], DOT) == inst + DOT + item;
  }

  lemma CounterEncode(s: string)
    requires s == "top__DOT__BRA__DOT__x"
    ensures Encode(s) == s
  {
    assert Lacks(s, '[') && Lacks(s, ']') && Lacks(s, '$');
    ReplaceAllAbsent(s, "[", BRA);
    ReplaceAllAbsent(s, "]", KET);
    ReplaceAllAbsent(s, "$", DOLLAR);
  }

  lemma CounterDecode(s: string)
    requires s == "top__DOT__BRA__DOT__x"
    ensures SplitName(s) == ["top__DOT[DOT__x"]
  {
    CounterDollar(s);
    CounterHasDot(s);
    var t := CounterBracket(s);
    CounterKet(t);
    CounterNoDot(t);
    SplitFromNotContains(t, DOT, []);
    assert [] + t == t;
  }

  lemma CounterDollar(s: string)
    requires s == "top__DOT__BRA__DOT__x"
    ensures ReplaceAll(s, DOLLAR, "$") == s
  {
    assert Lacks(s, '0');
    ReplaceAllMissing(s, DOLLAR, "$", 2);
  }

  lemma CounterHasDot(s: string)
    requires s == "top__DOT__BRA__DOT__x"
    ensures Contains(s, DOT)
  {
    ContainsMiddle(s[..3], DOT, s[10..]);
    assert s[..3] + DOT + s[10..] == s;
  }

  lemma CounterKet(t: string)
    requires t == "top__DOT[DOT__x"
    ensures ReplaceAll(t, KET, "]") == t
  {
    assert Lacks(t, 'K');
    ReplaceAllMissing(t, KET, "]", 2);
  }

  lemma CounterBracket(s: string) returns (t: string)
    requires s == "top__DOT__BRA__DOT__x"
    ensures t == "top__DOT[DOT__x" && ReplaceAll(s, BRA, "[") == t
  {
    var pre, post := s[..8], s[15..];
    assert pre == "top__DOT" && post == "DOT__x";
    assert s == pre + (BRA + post);
    CounterPrefix(s, pre);
    assert Lacks(post, 'B');
    DecodeOneBracket(pre, post);
    t := pre + ("[" + post);
  }

  /** A single `__BRA__`, with no other one around it, becomes `[`. */
  lemma DecodeOneBracket(pre: string, post: string)
    requires forall k :: 0 <= k < |pre| ==> !MatchAt(pre + (BRA + post), k, BRA)
    requires Lacks(post, 'B')
    ensures ReplaceAll(pre + (BRA + post), BRA, "[") == pre + ("[" + post)
  {
    assert BRA[2] == 'B';
    ReplaceOnlyMatch(pre, BRA, post, "[", 2);
  }

  /** One occurrence of `pat`, with none in `pre` and a character of `pat`
      missing from `post`, is the only one replaced. */
  lemma ReplaceOnlyMatch(pre: string, pat: string, post: string, rep: string, i: nat)
    requires i < |pat| && Lacks(post, pat[i])
    requires forall k :: 0 <= k < |pre| ==> !MatchAt(pre + (pat + post), k, pat)
    ensures ReplaceAll(pre + (pat + post), pat, rep) == pre + (rep + post)
  {
    ReplaceAllNoMatchPrefix(pre, pat + post, pat, rep);
    ReplaceAllHead(pat, post, rep);
    ReplaceAllMissing(post, pat, rep, i);
  }

  lemma CounterPrefix(s: string, pre: string)
    requires s == "top__DOT__BRA__DOT__x" && pre == s[..8]
    ensures forall k :: 0 <= k < |pre| ==> !MatchAt(s, k, BRA)
  {
    assert Lacks(s[2..10], 'B');
    forall k | 0 <= k < |pre|
      ensures !MatchAt(s, k, BRA)
    {
      assert s[k + 2] == s[2..10][k];
      assert s[k..k + 7][2] == s[k + 2];
    }
  }

  lemma CounterNoDot(t: string)
    requires t == "top__DOT[DOT__x"
    ensures !Contains(t, DOT)
  {
    forall k | 0 <= k < |t|
      ensures !MatchAt(t, k, DOT)
    {
      if k + 7 <= |t| {
        var m := t[k..k + 7];
        assert m[0] == t[k] && m[1] == t[k + 1] && m[5] == t[k + 5];
        assert k == 0 || k == 1 || k == 2 || k == 3 || k == 4 || k == 5 || k == 6 || k == 7 || k == 8;
      }
    }
    NotContainsNoMatch(t, DOT);
  }

  /** A character of `pat` missing from `s` leaves `s` unchanged. */
  lemma {:induction false} ReplaceAllMissing(s: string, pat: string, rep: string, i: nat)
    requires i < |pat| && Lacks(s, pat[i])
    ensures ReplaceAll(s, pat, rep) == s
    decreases |s|
  {
    if |s| >= |pat| {
      assert s[..|pat|][i] == s[i];
      ReplaceAllMissing(s[1..], pat, rep, i);
    }
  }

  // --------------------------------------------------------- mangle_name

  /** `YosysCxxCrossbar.mangle_name`: double every `_`, then spell `$` as
      `_24_`. */
  function MangleName(name: string): (r: string)
    ensures Lacks(r, '$')
  {
    var doubled := ReplaceAll(name, "_", "__");
    ReplaceCharRemoves(doubled, '$', "_24_");
    ReplaceAll(doubled, "$", "_24_")
  }

  /** The inverse scan: `__` is `_`, `_24_` is `$`, anything else stands
      for itself. */
  function Demangle(s: string): string
    decreases |s|
  {
    if |s| == 0 then ""
    else if |s| >= 2 && s[..2] == "__" then "_" + Demangle(s[2..])
    else if |s| >= 4 && s[..4] == "_24_" then "$" + Demangle(s[4..])
    else [s[0]] + Demangle(s[1..])
  }

  /** The mangled name, one character at a time. */
  function MangleChar(c: char): string
  {
    if c == '_' then "__" else if c == '$' then "_24_" else [c]
  }

  lemma {:induction false} MangleByChar(name: string)
    ensures |name| > 0 ==> MangleName(name) == MangleChar(name[0]) + MangleName(name[1..])
    ensures |name| == 0 ==> MangleName(name) == ""
  {
    if |name| > 0 {
      var c, t := name[0], name[1..];
      assert name == [c] + t;
      ReplaceCharCons(c, t, '_', "__");
      var d := ReplaceAll(t, "_", "__");
      ReplaceCharConcat(if c == '_' then "__" else [c], d, '$', "_24_");
      if c == '_' {
        ReplaceAllAbsent("__", "$", "_24_");
      } else {
        ReplaceCharCons(c, [], '$', "_24_");
        assert [c] + [] == [c];
        assert ReplaceAll([], "$", "_24_") == [];
      }
    }
  }

  /** Mangling loses nothing: the original name can be read back. */
  lemma {:induction false} MangleRoundTrip(name: string)
    ensures Demangle(MangleName(name)) == name
    decreases |name|
  {
    MangleByChar(name);
    if |name| > 0 {
      MangleRoundTrip(name[1..]);
      var c, rest := name[0], MangleName(name[1..]);
      var s := MangleChar(c) + rest;
      if c == '_' {
        assert s[..2] == "__" && s[2..] == rest;
      } else if c == '$' {
        assert s[..2] != "__" by {
          assert s[1] == '2';
        }
        assert s[..4] == "_24_" && s[4..] == rest;
      } else {
        assert s[0] == c && s[1..] == rest;
        assert |s| >= 2 ==> s[..2][0] == c;
        assert |s| >= 4 ==> s[..4][0] == c;
      }
      assert name == [c] + name[1..];
    }
  }

  /** Each `_` gains one character and each `$` three. */
  lemma {:induction false} MangleLength(name: string)
    ensures |MangleName(name)| == |name| + Count(name, '_') + 3 * Count(name, '$')
    decreases |name|
  {
    MangleByChar(name);
    if |name| > 0 {
      MangleLength(name[1..]);
    }
  }

  // ------------------------------------------------------ KLEE atom layout

  /** `KleeSmtCrossbar.AtomVariable`: a named run of bytes in KLEE's
      memory image of the model. */
  datatype Atom = Atom(name: string, offset: int, bytes: int)

  /** `f'{var_name}_{i}'` */
  function Indexed(varName: string, i: nat): string
  {
    varName + "_" + NatToString(i)
  }

  lemma IndexedInjective(varName: string, i: nat, j: nat)
    requires Indexed(varName, i) == Indexed(varName, j)
    ensures i == j
  {
    var n := |varName| + 1;
    assert Indexed(varName, i)[n..] == NatToString(i);
    assert Indexed(varName, j)[n..] == NatToString(j);
    NatToStringRoundTrip(i);
    NatToStringRoundTrip(j);
  }

  predicate HasAttr(item: Item, key: string)
  {
    item.inst.Some? && key in item.inst.value
  }

  /** `count` 4-byte words from `base`, named by a running index that
      starts at `first`. */
  function WordAtoms(varName: string, base: int, first: nat, count: nat): (r: seq<Atom>)
    ensures |r| == count
  {
    seq(count, i requires 0 <= i < count => Atom(Indexed(varName, first + i), base + 4 * i, 4))
  }

  /** Atoms per element of an array whose elements take `eb` bytes. */
  function PerElement(eb: int): nat
  {
    if eb < 8 then 1 else eb / 4
  }

  /** The atoms of element `k`: the element itself when it is narrower than
      8 bytes, otherwise its 4-byte words. */
  function ElementAtoms(varName: string, offset: int, eb: int, k: nat): (r: seq<Atom>)
    ensures |r| == PerElement(eb)
  {
    var elementOffset := offset + k * eb;
    if eb < 8 then [Atom(Indexed(varName, k), elementOffset, eb)]
    else
      var words := eb / 4;
      WordAtoms(varName, elementOffset, k * words, words)
  }

  /** The atoms of elements `0 .. cap-1`, in loop order. */
  function CompoundAtoms(varName: string, offset: int, eb: int, cap: nat): seq<Atom>
    decreases cap
  {
    if cap == 0 then [] else CompoundAtoms(varName, offset, eb, cap - 1) + ElementAtoms(varName, offset, eb, cap - 1)
  }

  /** Where atom `j` of an array sits, computed directly from `j`. */
  function ArrayAtomAt(varName: string, offset: int, eb: int, j: nat): Atom
  {
    if eb < 8 then Atom(Indexed(varName, j), offset + j * eb, eb)
    else
      var words := eb / 4;
      Atom(Indexed(varName, j), offset + (j / words) * eb + 4 * (j % words), 4)
  }

  lemma MulMono(a: int, b: int, p: nat)
    requires a <= b
    ensures a * p <= b * p
  {
    assert b * p - a * p == (b - a) * p;
  }

  lemma DivModOf(k: nat, i: nat, p: nat)
    requires i < p
    ensures (k * p + i) / p == k && (k * p + i) % p == i
  {
    var n := k * p + i;
    var q, r := n / p, n % p;
    assert q * p + r == n;
    assert (k + 1) * p == k * p + p;
    assert (q + 1) * p == q * p + p;
    if q > k {
      MulMono(k + 1, q, p);
    } else if q < k {
      MulMono(q + 1, k, p);
    }
  }

  lemma {:induction false} CompoundAtomsAt(varName: string, offset: int, eb: int, cap: nat)
    ensures |CompoundAtoms(varName, offset, eb, cap)| == cap * PerElement(eb)
    ensures forall j :: 0 <= j < cap * PerElement(eb) ==>
      CompoundAtoms(varName, offset, eb, cap)[j] == ArrayAtomAt(varName, offset, eb, j)
    decreases cap
  {
    if cap > 0 {
      var p := PerElement(eb);
      var prev := CompoundAtoms(varName, offset, eb, cap - 1);
      var last := ElementAtoms(varName, offset, eb, cap - 1);
      CompoundAtomsAt(varName, offset, eb, cap - 1);
      assert (cap - 1) * p + p == cap * p;
      forall j | 0 <= j < cap * p
        ensures CompoundAtoms(varName, offset, eb, cap)[j] == ArrayAtomAt(varName, offset, eb, j)
      {
        if j >= (cap - 1) * p {
          var i := j - (cap - 1) * p;
          DivModOf(cap - 1, i, p);
          assert CompoundAtoms(varName, offset, eb, cap)[j] == last[i];
          if eb >= 8 {
            assert (cap - 1) * (eb / 4) + i == j;
          }
        } else {
          assert CompoundAtoms(varName, offset, eb, cap)[j] == prev[j];
        }
      }
    }
  }

  /** The atoms `to_data(split=True)` yields for one item found under the
      Verilator name `varName`. Attribute lookups go through the item's
      instance attributes, so a declaration without them fails. */
  function ToAtoms(varName: string, item: Item): (r: Result<seq<Atom>>)
    ensures r.Err? <==> (match item
        case Compound(_, _, _, _, _) => !HasAttr(item, "bytes") || item.Capacity() == 0 || !HasAttr(item, "offset")
        case Primitive(_, _, _, _, _) =>
          if IsWide(item.width) then !HasAttr(item, "bytes") || (item.inst.value["bytes"] / 4 > 0 && !HasAttr(item, "offset"))
          else !HasAttr(item, "offset") || !HasAttr(item, "bytes"))
    ensures r.Err? ==> r.error == (if item.Compound? && HasAttr(item, "bytes") && item.Capacity() == 0 then ZeroDivisionError else AttributeError)
    ensures r.Ok? && item.Primitive? && !IsWide(item.width) ==>
      r.value == [Atom(varName, item.inst.value["offset"], item.inst.value["bytes"])]
    ensures r.Ok? && item.Primitive? && IsWide(item.width) ==>
      var bytes := item.inst.value["bytes"];
      |r.value| == Max(bytes / 4, 0) &&
      forall i :: 0 <= i < |r.value| ==> r.value[i] == Atom(Indexed(varName, i), item.inst.value["offset"] + 4 * i, 4)
    ensures r.Ok? && item.Compound? ==>
      var eb := item.inst.value["bytes"] / item.Capacity();
      |r.value| == item.Capacity() * PerElement(eb) &&
      forall j :: 0 <= j < |r.value| ==> r.value[j] == ArrayAtomAt(varName, item.inst.value["offset"], eb, j)
  {
    match item
    case Compound(_, _, _, _, _) =>
      var bytes :- GetAttr(item, "bytes");
      if item.Capacity() == 0 then Err(ZeroDivisionError)
      else
        var offset :- GetAttr(item, "offset");
        var eb := bytes / item.Capacity();
        CompoundAtomsAt(varName, offset, eb, item.Capacity());
        Ok(CompoundAtoms(varName, offset, eb, item.Capacity()))
    case Primitive(_, _, _, _, _) =>
      if IsWide(item.width) then
        var bytes :- GetAttr(item, "bytes");
        if bytes / 4 <= 0 then Ok([])
        else
          var offset :- GetAttr(item, "offset");
          Ok(WordAtoms(varName, offset, 0, bytes / 4))
      else
        var offset :- GetAttr(item, "offset");
        var bytes :- GetAttr(item, "bytes");
        Ok([Atom(varName, offset, bytes)])
  }

  /** The item's byte range `[offset, offset + bytes)`, when it has one. */
  predicate Within(a: Atom, offset: int, bytes: int)
  {
    offset <= a.offset && a.offset + a.bytes <= offset + bytes
  }

  lemma ArrayAtomWithin(offset: int, eb: int, cap: nat, j: nat)
    requires eb >= 0 && j < cap * PerElement(eb)
    ensures Within(ArrayAtomAt("", offset, eb, j), offset, cap * eb)
  {
    var p := PerElement(eb);
    var k, i := j / p, j % p;
    ElementIndexBound(j, p, cap);
    MulMono(k + 1, cap, eb);
    MulMono(0, k, eb);
    assert (k + 1) * eb == k * eb + eb;
    if eb >= 8 {
      assert 4 * i + 4 <= 4 * p <= eb;
    }
  }

  lemma ElementIndexBound(j: nat, p: nat, cap: nat)
    requires p > 0 && j < cap * p
    ensures j / p < cap
  {
    assert (j / p) * p <= j;
    if j / p >= cap {
      MulMono(cap, j / p, p);
    }
  }

  /** `(n // d) * d` never exceeds `n` for a positive `d`. */
  lemma FloorTimes(n: int, d: nat)
    requires d > 0
    ensures d * (n / d) <= n
  {
  }

  /** Every atom lies inside the item's own bytes. */
  lemma AtomsWithin(varName: string, item: Item)
    requires ToAtoms(varName, item).Ok? && HasAttr(item, "bytes") && item.inst.value["bytes"] >= 0
    requires HasAttr(item, "offset")
    ensures forall a :: a in ToAtoms(varName, item).value ==> Within(a, item.inst.value["offset"], item.inst.value["bytes"])
  {
    var atoms := ToAtoms(varName, item).value;
    var offset, bytes := item.inst.value["offset"], item.inst.value["bytes"];
    if item.Compound? {
      ArrayAtomsWithin(atoms, varName, offset, bytes, item.Capacity());
    } else if IsWide(item.width) {
      WordAtomsWithin(atoms, varName, offset, bytes);
    }
  }

  lemma ArrayAtomsWithin(atoms: seq<Atom>, varName: string, offset: int, bytes: int, cap: nat)
    requires bytes >= 0 && cap > 0 && |atoms| == cap * PerElement(bytes / cap)
    requires forall j :: 0 <= j < |atoms| ==> atoms[j] == ArrayAtomAt(varName, offset, bytes / cap, j)
    ensures forall a :: a in atoms ==> Within(a, offset, bytes)
  {
    var eb := bytes / cap;
    FloorTimes(bytes, cap);
    forall j | 0 <= j < |atoms|
      ensures Within(atoms[j], offset, bytes)
    {
      ArrayAtomWithin(offset, eb, cap, j);
    }
  }

  lemma WordAtomsWithin(atoms: seq<Atom>, varName: string, offset: int, bytes: int)
    requires |atoms| == Max(bytes / 4, 0)
    requires forall i :: 0 <= i < |atoms| ==> atoms[i] == Atom(Indexed(varName, i), offset + 4 * i, 4)
    ensures forall a :: a in atoms ==> Within(a, offset, bytes)
  {
    FloorTimes(bytes, 4);
    forall j | 0 <= j < |atoms|
      ensures Within(atoms[j], offset, bytes)
    {
      assert 4 * j + 4 <= 4 * (bytes / 4);
    }
  }

  /** Atoms follow each other in memory without overlapping, so sorting by
      offset keeps their order. */
  lemma AtomsInOrder(varName: string, item: Item)
    requires ToAtoms(varName, item).Ok? && HasAttr(item, "bytes") && item.inst.value["bytes"] >= 0
    ensures var atoms := ToAtoms(varName, item).value;
      forall j :: 0 <= j < |atoms| - 1 ==> atoms[j].offset + atoms[j].bytes <= atoms[j + 1].offset
  {
    if item.Compound? {
      CompoundAtomsInOrder(varName, item);
    }
  }

  lemma CompoundAtomsInOrder(varName: string, item: Item)
    requires item.Compound? && ToAtoms(varName, item).Ok? && HasAttr(item, "bytes") && item.inst.value["bytes"] >= 0
    ensures var atoms := ToAtoms(varName, item).value;
      forall j :: 0 <= j < |atoms| - 1 ==> atoms[j].offset + atoms[j].bytes <= atoms[j + 1].offset
  {
    var eb := item.inst.value["bytes"] / item.Capacity();
    ArrayAtomsInOrder(varName, item.inst.value["offset"], eb, ToAtoms(varName, item).value);
  }

  lemma ArrayAtomsInOrder(varName: string, offset: int, eb: int, atoms: seq<Atom>)
    requires eb >= 0
    requires forall j :: 0 <= j < |atoms| ==> atoms[j] == ArrayAtomAt(varName, offset, eb, j)
    ensures forall j :: 0 <= j < |atoms| - 1 ==> atoms[j].offset + atoms[j].bytes <= atoms[j + 1].offset
  {
    forall j | 0 <= j < |atoms| - 1
      ensures atoms[j].offset + atoms[j].bytes <= atoms[j + 1].offset
    {
      ArrayAtomsStep(varName, offset, eb, j);
    }
  }

  lemma ArrayAtomsStep(varName: string, offset: int, eb: int, j: nat)
    requires eb >= 0
    ensures ArrayAtomAt(varName, offset, eb, j).offset + ArrayAtomAt(varName, offset, eb, j).bytes
      <= ArrayAtomAt(varName, offset, eb, j + 1).offset
  {
    if eb >= 8 {
      var p := eb / 4;
      var k, i := j / p, j % p;
      assert j == k * p + i;
      if i + 1 < p {
        WordStepWithin(varName, offset, eb, j, k, i);
      } else {
        WordStepAcross(varName, offset, eb, j, k, i);
      }
    } else {
      MulSucc(j, eb);
    }
  }

  lemma WordStepWithin(varName: string, offset: int, eb: int, j: nat, k: nat, i: nat)
    requires eb >= 8 && i + 1 < eb / 4 && j == k * (eb / 4) + i
    ensures ArrayAtomAt(varName, offset, eb, j).offset + ArrayAtomAt(varName, offset, eb, j).bytes
      <= ArrayAtomAt(varName, offset, eb, j + 1).offset
  {
    WordAtomAt(varName, offset, eb, j, k, i);
    WordAtomAt(varName, offset, eb, j + 1, k, i + 1);
  }

  lemma WordStepAcross(varName: string, offset: int, eb: int, j: nat, k: nat, i: nat)
    requires eb >= 8 && i + 1 == eb / 4 && j == k * (eb / 4) + i
    ensures ArrayAtomAt(varName, offset, eb, j).offset + ArrayAtomAt(varName, offset, eb, j).bytes
      <= ArrayAtomAt(varName, offset, eb, j + 1).offset
  {
    WordAtomAt(varName, offset, eb, j, k, i);
    MulSucc(k, eb / 4);
    WordAtomAt(varName, offset, eb, j + 1, k + 1, 0);
    MulSucc(k, eb);
  }

  lemma MulSucc(k: int, m: int)
    ensures (k + 1) * m == k * m + m
  {
  }

  /** Word `i` of element `k` sits `4 * i` bytes into the element. */
  lemma WordAtomAt(varName: string, offset: int, eb: int, j: nat, k: nat, i: nat)
    requires eb >= 8 && i < eb / 4 && j == k * (eb / 4) + i
    ensures ArrayAtomAt(varName, offset, eb, j).offset == offset + k * eb + 4 * i
    ensures ArrayAtomAt(varName, offset, eb, j).bytes == 4
  {
    DivModOf(k, i, eb / 4);
  }

  /** Atom names carry their position, so no two atoms share a name. */
  lemma AtomNamesDistinct(varName: string, item: Item)
    requires ToAtoms(varName, item).Ok?
    ensures var atoms := ToAtoms(varName, item).value;
      forall i, j :: 0 <= i < j < |atoms| ==> atoms[i].name != atoms[j].name
  {
    var atoms := ToAtoms(varName, item).value;
    forall i, j | 0 <= i < j < |atoms|
      ensures atoms[i].name != atoms[j].name
    {
      if atoms[i].name == atoms[j].name {
        IndexedInjective(varName, i, j);
      }
    }
  }

  // ------------------------------------------- accessor functions (SMT side)

  /** `[s[i:i+n] for i in range(0, len(s), n)]` */
  function ChunksOf<T>(s: seq<T>, n: nat): seq<seq<T>>
    requires n > 0
    decreases |s|
  {
    if |s| == 0 then [] else [s[..Min(n, |s|)]] + ChunksOf(s[Min(n, |s|)..], n)
  }

  function Flatten<T>(ss: seq<seq<T>>): seq<T>
  {
    if |ss| == 0 then [] else ss[0] + Flatten(ss[1..])
  }

  lemma {:induction false} ChunksFlatten<T>(s: seq<T>, n: nat)
    requires n > 0
    ensures Flatten(ChunksOf(s, n)) == s
    decreases |s|
  {
    if |s| > 0 {
      var c := ChunksOf(s, n);
      ChunksFlatten(s[Min(n, |s|)..], n);
      assert c[1..] == ChunksOf(s[Min(n, |s|)..], n);
      assert s == s[..Min(n, |s|)] + s[Min(n, |s|)..];
    }
  }

  /** A sequence of `m` blocks of `n` splits into exactly those blocks. */
  lemma {:induction false} ChunksOfBlocks<T>(s: seq<T>, n: nat, m: nat)
    requires n > 0 && |s| == m * n
    ensures |ChunksOf(s, n)| == m
    ensures forall g :: 0 <= g < m ==> g * n + n <= |s| && ChunksOf(s, n)[g] == s[g * n..g * n + n]
    decreases m
  {
    if m > 0 {
      assert |s| == (m - 1) * n + n;
      var rest := s[n..];
      ChunksOfBlocks(rest, n, m - 1);
      var c := ChunksOf(s, n);
      assert c == [s[..n]] + ChunksOf(rest, n);
      forall g | 0 <= g < m
        ensures g * n + n <= |s| && c[g] == s[g * n..g * n + n]
      {
        BlockBound(g, m, n);
        if g > 0 {
          BlockShift(s, n, g);
        }
      }
    }
  }

  lemma BlockBound(g: nat, m: nat, n: nat)
    requires g < m
    ensures g * n + n <= m * n
  {
    MulMono(g + 1, m, n);
    assert (g + 1) * n == g * n + n;
  }

  lemma BlockShift<T>(s: seq<T>, n: nat, g: nat)
    requires g > 0 && g * n + n <= |s|
    ensures n <= |s| && (g - 1) * n + n <= |s[n..]| && s[n..][(g - 1) * n..(g - 1) * n + n] == s[g * n..g * n + n]
  {
    assert (g - 1) * n + n == g * n;
    MulMono(1, g, n);
  }

  function Singles<T>(s: seq<T>): (r: seq<seq<T>>)
    ensures |r| == |s| && forall i :: 0 <= i < |s| ==> r[i] == [s[i]]
  {
    seq(|s|, i requires 0 <= i < |s| => [s[i]])
  }

  lemma {:induction false} SinglesFlatten<T>(s: seq<T>)
    ensures Flatten(Singles(s)) == s
    decreases |s|
  {
    if |s| > 0 {
      SinglesFlatten(s[1..]);
      assert Singles(s)[1..] == Singles(s[1..]);
      assert s == [s[0]] + s[1..];
    }
  }

  /** How `to_data(split=False)` groups the atoms of one item into accessor
      functions, as written: a wide primitive is one accessor over all its
      words, an array with more atoms than elements is cut into groups of
      `capacity` atoms, and anything else gets one accessor per atom. */
  function AccessorGroups(varName: string, item: Item): (r: Result<seq<seq<Atom>>>)
    ensures r.Ok? <==> ToAtoms(varName, item).Ok?
    ensures r.Ok? ==> Flatten(r.value) == ToAtoms(varName, item).value
  {
    var atoms :- ToAtoms(varName, item);
    if item.Primitive? && |atoms| > 1 then
      assert Flatten([atoms]) == atoms + [];
      Ok([atoms])
    else if item.Compound? && |atoms| > item.Capacity() then
      ChunksFlatten(atoms, item.Capacity());
      Ok(ChunksOf(atoms, item.Capacity()))
    else
      SinglesFlatten(atoms);
      Ok(Singles(atoms))
  }

  /** The grouping as written yields one accessor per word of an element,
      not one per element: for a wide array it makes `words` groups. */
  lemma AccessorGroupsAsWritten(varName: string, item: Item)
    requires item.Compound? && ToAtoms(varName, item).Ok?
    requires item.inst.value["bytes"] / item.Capacity() >= 8
    ensures var eb := item.inst.value["bytes"] / item.Capacity();
      |AccessorGroups(varName, item).value| == PerElement(eb)
  {
    var cap := item.Capacity();
    var eb := item.inst.value["bytes"] / cap;
    var atoms := ToAtoms(varName, item).value;
    assert |atoms| == PerElement(eb) * cap;
    MulMono(1, PerElement(eb), cap);
    ChunksOfBlocks(atoms, cap, PerElement(eb));
  }

  /** An array of two 12-byte elements: the second accessor as written
      takes the last word of element 0 and the first word of element 1. */
  lemma AccessorGroupsMixElements(varName: string, item: Item)
    requires item.Compound? && item.Capacity() == 2 && item.inst == Some(map["bytes" := 24, "offset" := 0])
    ensures AccessorGroups(varName, item).Ok?
    ensures var groups := AccessorGroups(varName, item).value;
      |groups| == 3 && |groups[1]| == 2 && groups[1][0].offset == 8 && groups[1][1].offset == 12
  {
    var atoms := ToAtoms(varName, item).value;
    assert item.inst.value["bytes"] / item.Capacity() == 12;
    assert |atoms| == 6;
    ChunksOfBlocks(atoms, 2, 3);
    WordAtomAt(varName, 0, 12, 2, 0, 2);
    WordAtomAt(varName, 0, 12, 3, 1, 0);
  }

  /** The intended grouping: one accessor per array element, over exactly
      that element's words. */
  function ElementAccessorGroups(varName: string, item: Item): (r: Result<seq<seq<Atom>>>)
    ensures r.Ok? <==> ToAtoms(varName, item).Ok?
    ensures r.Ok? ==> Flatten(r.value) == ToAtoms(varName, item).value
    ensures r.Ok? && item.Compound? ==>
      var eb := item.inst.value["bytes"] / item.Capacity();
      eb >= 8 ==> (|r.value| == item.Capacity() &&
        forall g :: 0 <= g < item.Capacity() ==> r.value[g] == ElementAtoms(varName, item.inst.value["offset"], eb, g))
  {
    var atoms :- ToAtoms(varName, item);
    if item.Primitive? && |atoms| > 1 then
      assert Flatten([atoms]) == atoms + [];
      Ok([atoms])
    else if item.Compound? && |atoms| > item.Capacity() then
      var eb := item.inst.value["bytes"] / item.Capacity();
      ChunksFlatten(atoms, PerElement(eb));
      ElementGroups(varName, item.inst.value["offset"], eb, item.Capacity(), atoms);
      Ok(ChunksOf(atoms, PerElement(eb)))
    else
      assert item.Compound? ==> item.inst.value["bytes"] / item.Capacity() < 8 by {
        if item.Compound? {
          WideElementsOutnumber(item.Capacity(), item.inst.value["bytes"] / item.Capacity());
        }
      }
      SinglesFlatten(atoms);
      Ok(Singles(atoms))
  }

  /** An array of wide elements has more atoms than elements. */
  lemma WideElementsOutnumber(cap: nat, eb: int)
    requires cap > 0
    ensures eb >= 8 ==> cap * PerElement(eb) > cap
  {
    if eb >= 8 {
      assert PerElement(eb) >= 2;
      assert cap * PerElement(eb) >= cap * 2;
    }
  }

  lemma ElementGroups(varName: string, offset: int, eb: int, cap: nat, atoms: seq<Atom>)
    requires eb >= 8 && |atoms| == cap * PerElement(eb)
    requires forall j :: 0 <= j < |atoms| ==> atoms[j] == ArrayAtomAt(varName, offset, eb, j)
    ensures |ChunksOf(atoms, PerElement(eb))| == cap
    ensures forall g :: 0 <= g < cap ==> ChunksOf(atoms, PerElement(eb))[g] == ElementAtoms(varName, offset, eb, g)
  {
    var p := PerElement(eb);
    ChunksOfBlocks(atoms, p, cap);
    forall g | 0 <= g < cap
      ensures ChunksOf(atoms, p)[g] == ElementAtoms(varName, offset, eb, g)
    {
      var chunk := atoms[g * p..g * p + p];
      var element := ElementAtoms(varName, offset, eb, g);
      forall i | 0 <= i < p
        ensures chunk[i] == element[i]
      {
        DivModOf(g, i, p);
      }
    }
  }

  // ------------------------------------------------------------ preprocess

  /** An entry of CXXRTL's debug information: the space-separated
      hierarchical name, the width, and whether the item is writable and
      not an output. */
  datatype DebugItem = DebugItem(name: string, width: nat, writableNonOutput: bool)

  datatype CxxImplItem = CxxImplItem(originName: string, cxxName: string, arraySize: nat, bitWidth: nat, isSymbolic: bool)

  /** The submodule names and the item name of a debug item, with the index
      of an array element dropped from the item name. */
  function Tokens(d: DebugItem): (r: (seq<string>, string))
    ensures var tokens := Split(d.name, " ");
      r.0 == tokens[..|tokens| - 1] &&
      r.1 == (if ArrayElement(tokens[|tokens| - 1]).Some? then ArrayElement(tokens[|tokens| - 1]).value.0 else tokens[|tokens| - 1])
  {
    var tokens := Split(d.name, " ");
    var last := tokens[|tokens| - 1];
    (tokens[..|tokens| - 1], match ArrayElement(last) case Some((n, _)) => n case None => last)
  }

  /** The name the debug item is de-duplicated by. */
  function Origin(d: DebugItem): string
  {
    var (submodules, itemName) := Tokens(d);
    Join(submodules + [itemName], " ")
  }

  /** The item one debug item stands for, found by its path below the top
      module; anything but exactly one match is a ValueError. */
  function ImplItem(d: DebugItem, t: ModelTree): (r: Result<CxxImplItem>)
    requires WellFormed(t)
    ensures r.Err? ==> r.error == ValueError
    ensures r.Ok? ==> r.value.originName == Origin(d) && r.value.bitWidth == d.width
  {
    var (submodules, itemName) := Tokens(d);
    var tokens := [TopModule(t)] + submodules + [itemName];
    // two tokens at least, so the unpacking in `match_path` succeeds
    var paths := MatchPath(t, tokens).value;
    if |paths| != 1 then Err(ValueError)
    else
      var path := paths[0];
      MatchPathSpec(t, tokens, path);
      // the path comes from the tree, so its node is in it
      var chain := PathNodes(t, path).value;
      var decl := FindDecl(t.nodes[chain[|chain| - 1]].inst.decl, path.itemName).value;
      Ok(CxxImplItem(
        Origin(d),
        Merge(NodeTags(t, chain), decl.name, decl.IsPort()).name,
        if decl.Compound? then decl.Capacity() else 1,
        d.width,
        d.writableNonOutput && (decl.IsRegister() || decl.IsPort())))
  }

  /** A debug item resolves when exactly one path below the top module
      matches its name; the item then takes its C++ name from the tags on
      the way to that node, its array size from the declaration's capacity
      (1 for a primitive), and is symbolic when writable, not an output,
      and a register or a port. */
  lemma ImplItemSpec(d: DebugItem, t: ModelTree)
    requires WellFormed(t)
    ensures var (submodules, itemName) := Tokens(d);
      var paths := MatchPath(t, [TopModule(t)] + submodules + [itemName]).value;
      var r := ImplItem(d, t);
      (r.Err? <==> |paths| != 1) &&
      (r.Ok? ==> var p := paths[0];
        p.node < |t.nodes| && FindDecl(t.nodes[p.node].inst.decl, itemName).Some? &&
        var decl := FindDecl(t.nodes[p.node].inst.decl, itemName).value;
        r.value.arraySize == (if decl.Compound? then decl.Capacity() else 1) &&
        r.value.isSymbolic == (d.writableNonOutput && (decl.IsRegister() || decl.IsPort())) &&
        r.value.cxxName == Merge(NodeTags(t, Chain(t, p.node)), decl.name, decl.IsPort()).name)
  {
    var (submodules, itemName) := Tokens(d);
    var tokens := [TopModule(t)] + submodules + [itemName];
    var paths := MatchPath(t, tokens).value;
    if |paths| == 1 {
      MatchPathSpec(t, tokens, paths[0]);
    }
  }

  /** The tags of the nodes along a chain. */
  function NodeTags(t: ModelTree, chain: seq<nat>): (r: seq<string>)
    requires forall k :: 0 <= k < |chain| ==> chain[k] < |t.nodes|
    ensures |r| == |chain| && forall k :: 0 <= k < |chain| ==> r[k] == t.nodes[chain[k]].tag
  {
    seq(|chain|, k requires 0 <= k < |chain| => t.nodes[chain[k]].tag)
  }

  function Origins(r: seq<CxxImplItem>): (o: seq<string>)
    ensures |o| == |r| && forall k :: 0 <= k < |r| ==> o[k] == r[k].originName
  {
    seq(|r|, k requires 0 <= k < |r| => r[k].originName)
  }

  /** `i` is the first debug item with its origin name. */
  predicate FirstOf(items: seq<DebugItem>, i: int)
  {
    0 <= i < |items| && forall j :: 0 <= j < i ==> Origin(items[j]) != Origin(items[i])
  }

  /** Some debug item of `items` has origin name `x`. */
  predicate HasOrigin(items: seq<DebugItem>, x: string)
  {
    exists i :: 0 <= i < |items| && Origin(items[i]) == x
  }

  /** `x` is the implementation item of the first debug item with its
      origin name. */
  ghost predicate Produced(items: seq<DebugItem>, t: ModelTree, x: CxxImplItem)
    requires WellFormed(t)
  {
    exists i :: FirstOf(items, i) && ImplItem(items[i], t) == Ok(x)
  }

  /** The loop of `preprocess` over the remaining items, given the origin
      names already seen. */
  function PreprocessFrom(items: seq<DebugItem>, t: ModelTree, seen: set<string>): (r: Result<seq<CxxImplItem>>)
    requires WellFormed(t)
    ensures r.Err? ==> r.error == ValueError
    ensures r.Ok? ==> Distinct(Origins(r.value))
    ensures r.Ok? ==> forall x :: x in Origins(r.value) <==> x !in seen && HasOrigin(items, x)
    ensures r.Ok? ==> forall x :: x in r.value ==> Produced(items, t, x)
    decreases |items|, 1
  {
    if |items| == 0 then Ok([])
    else
      var origin := Origin(items[0]);
      if origin in seen then
        PreprocessTail(items, t, seen, seen);
        PreprocessFrom(items[1..], t, seen)
      else
        var item :- ImplItem(items[0], t);
        PreprocessTail(items, t, seen, seen + {origin});
        var rest :- PreprocessFrom(items[1..], t, seen + {origin});
        PreprocessCons(items, t, seen, item, rest);
        Ok([item] + rest)
  }

  /** The first item with a new origin name, put before what the loop
      produces for the others. */
  lemma PreprocessCons(items: seq<DebugItem>, t: ModelTree, seen: set<string>, item: CxxImplItem, rest: seq<CxxImplItem>)
    requires WellFormed(t) && |items| > 0
    requires Origin(items[0]) !in seen && ImplItem(items[0], t) == Ok(item)
    requires Distinct(Origins(rest))
    requires forall x :: x in Origins(rest) <==> x !in seen + {Origin(items[0])} && HasOrigin(items, x)
    requires forall x :: x in rest ==> Produced(items, t, x)
    ensures Distinct(Origins([item] + rest))
    ensures forall x :: x in Origins([item] + rest) <==> x !in seen && HasOrigin(items, x)
    ensures forall x :: x in [item] + rest ==> Produced(items, t, x)
  {
    var origin := Origin(items[0]);
    assert origin !in Origins(rest);
    ConsDistinct(origin, item, rest);
    ConsOrigins(items, seen, item, rest);
    assert FirstOf(items, 0);
    ConsProduced(items, t, item, rest);
  }

  lemma ConsDistinct(origin: string, item: CxxImplItem, rest: seq<CxxImplItem>)
    requires item.originName == origin && origin !in Origins(rest) && Distinct(Origins(rest))
    ensures Distinct(Origins([item] + rest))
  {
    assert Origins([item] + rest) == [origin] + Origins(rest);
    DistinctCons(origin, Origins(rest));
  }

  lemma ConsOrigins(items: seq<DebugItem>, seen: set<string>, item: CxxImplItem, rest: seq<CxxImplItem>)
    requires |items| > 0 && Origin(items[0]) !in seen && item.originName == Origin(items[0])
    requires forall x :: x in Origins(rest) <==> x !in seen + {Origin(items[0])} && HasOrigin(items, x)
    ensures forall x :: x in Origins([item] + rest) <==> x !in seen && HasOrigin(items, x)
  {
    assert Origins([item] + rest) == [Origin(items[0])] + Origins(rest);
  }

  lemma ConsProduced(items: seq<DebugItem>, t: ModelTree, item: CxxImplItem, rest: seq<CxxImplItem>)
    requires WellFormed(t) && Produced(items, t, item)
    requires forall x :: x in rest ==> Produced(items, t, x)
    ensures forall x :: x in [item] + rest ==> Produced(items, t, x)
  {
    forall x | x in [item] + rest
      ensures Produced(items, t, x)
    {
      if x != item {
        assert x in rest;
      }
    }
  }

  /** What the loop over the items after the first says about all of
      them. */
  lemma PreprocessTail(items: seq<DebugItem>, t: ModelTree, seen: set<string>, seen': set<string>)
    requires WellFormed(t) && |items| > 0
    requires Origin(items[0]) in seen'
    ensures var r := PreprocessFrom(items[1..], t, seen');
      r.Ok? ==> ((forall x :: x in Origins(r.value) <==> x !in seen' && HasOrigin(items, x)) &&
                 (forall x :: x in r.value ==> Produced(items, t, x)))
    decreases |items|, 0
  {
    var rest := items[1..];
    var r := PreprocessFrom(rest, t, seen');
    if r.Ok? {
      forall x | x in Origins(r.value)
        ensures HasOrigin(items, x)
      {
        var i :| 0 <= i < |rest| && Origin(rest[i]) == x;
        assert items[i + 1] == rest[i];
      }
      forall x | x !in seen' && HasOrigin(items, x)
        ensures x in Origins(r.value)
      {
        var i :| 0 <= i < |items| && Origin(items[i]) == x;
        assert i > 0 && rest[i - 1] == items[i];
      }
      forall x | x in r.value
        ensures Produced(items, t, x)
      {
        var i :| FirstOf(rest, i) && ImplItem(rest[i], t) == Ok(x);
        var k :| 0 <= k < |r.value| && r.value[k] == x;
        assert rest[i] == items[i + 1];
        assert Origins(r.value)[k] == Origin(items[i + 1]);
        forall j | 0 <= j < i + 1
          ensures Origin(items[j]) != Origin(items[i + 1])
        {
          if j > 0 {
            assert items[j] == rest[j - 1];
          }
        }
        assert FirstOf(items, i + 1);
      }
    }
  }

  /** `preprocess`: one implementation item per origin name, in the order
      of first occurrence. */
  function Preprocess(items: seq<DebugItem>, t: ModelTree): (r: Result<seq<CxxImplItem>>)
    requires WellFormed(t)
    ensures r.Err? ==> r.error == ValueError
    ensures r.Ok? ==> Distinct(Origins(r.value))
    ensures r.Ok? ==> forall x :: x in Origins(r.value) <==> HasOrigin(items, x)
    ensures r.Ok? ==> forall x :: x in r.value ==> Produced(items, t, x)
  {
    PreprocessFrom(items, t, {})
  }
}
