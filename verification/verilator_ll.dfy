/** The consumer side of the symbolic-main handshake
    (`core/translators/verilator.py`, `_fulfill_model`).

    After Verilator has generated the symbolic `main` and the C++ compiler
    has produced LLVM assembly, two files are read line by line:
    - the `main` file, whose marker comments name every variable the
      generated code makes symbolic or reports as an output;
    - the `.ll` file, whose debug-information records give each member's
      size and offset (in bits) inside the model's root object.

    The source recognises lines with regular expressions; here each `.ll`
    line arrives as a record already classified by those expressions,
    while the marker comment of the `main` file is matched character by
    character, since the emitter side of the handshake produces it. */
module VerilatorLl {
  import opened Wrappers

  // ------------------------------------------------------------ main file

  /** Python's `\s` restricted to ASCII: space, tab, newline, carriage
      return, vertical tab and form feed. */
  predicate IsSpace(c: char) {
    c == ' ' || c == '\t' || c == '\n' || c == '\r' || c as int == 11 || c as int == 12
  }

  /** Python's `\w` restricted to ASCII. */
  predicate IsWordChar(c: char) {
    ('a' <= c <= 'z') || ('A' <= c <= 'Z') || ('0' <= c <= '9') || c == '_'
  }

  predicate IsWord(s: string) {
    |s| > 0 && forall i :: 0 <= i < |s| ==> IsWordChar(s[i])
  }

  function StripSpace(s: string): (r: string)
    ensures |r| <= |s| && r == s[|s| - |r|..]
    ensures |r| > 0 ==> !IsSpace(r[0])
    ensures forall i :: 0 <= i < |s| - |r| ==> IsSpace(s[i])
  {
    if |s| > 0 && IsSpace(s[0]) then StripSpace(s[1..]) else s
  }

  /** What precedes the variable name in a marker comment. */
  const Marker: string := "// - \""

  /** The name a marker line `// - "<name>"` followed by a newline carries,
      after optional leading whitespace; `None` for every other line. */
  function VarDefName(line: string): (r: Option<string>)
    ensures r.Some? ==> IsWord(r.value)
    ensures r.Some? ==> StripSpace(line) == Marker + r.value + "\"\n"
  {
    var t := StripSpace(line);
    if |t| >= |Marker| + 2 && t[..|Marker|] == Marker && t[|t| - 2..] == "\"\n" then
      var name := t[|Marker|..|t| - 2];
      ThreeParts(t, |Marker|, 2);
      if IsWord(name) then Some(name) else None
    else
      None
  }

  lemma ThreeParts(t: string, a: nat, b: nat)
    requires a + b <= |t|
    ensures t == t[..a] + t[a..|t| - b] + t[|t| - b..]
  {
  }

  /** The names carried by the marker lines, in file order. */
  function ParseCppMain(lines: seq<string>): (r: seq<string>)
    ensures |r| <= |lines|
    ensures forall i :: 0 <= i < |r| ==> IsWord(r[i])
  {
    if |lines| == 0 then []
    else
      var rest := ParseCppMain(lines[1..]);
      match VarDefName(lines[0])
      case Some(name) => [name] + rest
      case None => rest
  }

  lemma {:induction false} ParseCppMainConcat(a: seq<string>, b: seq<string>)
    ensures ParseCppMain(a + b) == ParseCppMain(a) + ParseCppMain(b)
  {
    if |a| > 0 {
      assert (a + b)[1..] == a[1..] + b;
      ParseCppMainConcat(a[1..], b);
    } else {
      assert a + b == b;
    }
  }

  /** Whitespace before a line does not change what it announces. */
  lemma {:induction false} VarDefNameIgnoresIndent(pad: string, line: string)
    requires forall i :: 0 <= i < |pad| ==> IsSpace(pad[i])
    ensures VarDefName(pad + line) == VarDefName(line)
  {
    StripIndent(pad, line);
  }

  lemma {:induction false} StripIndent(pad: string, line: string)
    requires forall i :: 0 <= i < |pad| ==> IsSpace(pad[i])
    ensures StripSpace(pad + line) == StripSpace(line)
    decreases |pad|
  {
    if |pad| == 0 {
      assert pad + line == line;
    } else {
      assert (pad + line)[0] == pad[0];
      assert (pad + line)[1..] == pad[1..] + line;
      StripIndent(pad[1..], line);
    }
  }

  /** A line whose first character is neither whitespace nor `/` is never a
      marker line. */
  lemma NotMarkerLine(line: string)
    requires |line| > 0 && !IsSpace(line[0]) && line[0] != '/'
    ensures VarDefName(line).None?
  {
  }

  /** A marker line names exactly the word written between its quotes. */
  lemma MarkerLine(name: string)
    requires IsWord(name)
    ensures VarDefName(Marker + name + "\"\n") == Some(name)
  {
    var line := Marker + name + "\"\n";
    assert StripSpace(line) == line;
    assert line[..|Marker|] == Marker;
    assert line[|Marker|..|line| - 2] == name;
  }

  // -------------------------------------------------------------- .ll file

  /** A line of the `.ll` file, as the two regular expressions see it:
      a `DIFile` record for a root header, a `DIDerivedType` member record
      (with its optional `align` and `offset` fields), or anything else. */
  datatype LlRecord =
    | FileRecord(topModule: string)
    | MemberRecord(name: string, sizeBits: nat, align: bool, offsetBits: Option<nat>)
    | OtherRecord

  datatype VariableInfo = VariableInfo(bytes: nat, offset: nat)

  /** `>> 3` on a non-negative number. */
  function ToBytes(bits: nat): (r: nat)
    ensures 8 * r <= bits < 8 * r + 8
  {
    bits / 8
  }

  /** A member's offset in bytes; a missing offset field counts as 0. */
  function OffsetBytes(rec: LlRecord): nat
    requires rec.MemberRecord?
  {
    ToBytes(if rec.offsetBits.Some? then rec.offsetBits.value else 0)
  }

  function InfoOf(rec: LlRecord): VariableInfo
    requires rec.MemberRecord?
  {
    VariableInfo(ToBytes(rec.sizeBits), OffsetBytes(rec))
  }

  /** A record that sets the base offset: a member named `TOP` with an
      `align` field. */
  predicate IsTopRecord(rec: LlRecord) {
    rec.MemberRecord? && rec.align && rec.name == "TOP"
  }

  /** The loop state of `parse_ll`. */
  datatype Scan = Scan(base: Option<nat>, members: map<string, VariableInfo>, collecting: bool)

  function Step(s: Scan, rec: LlRecord, top: string, variables: seq<string>): Scan {
    match rec
    case FileRecord(m) => if m == top then s.(collecting := true) else s
    case MemberRecord(name, _, _, _) =>
      var base := if IsTopRecord(rec) then Some(OffsetBytes(rec)) else s.base;
      var members :=
        if s.collecting && name in variables && name !in s.members
        then s.members[name := InfoOf(rec)]
        else s.members;
      Scan(base, members, s.collecting)
    case OtherRecord => s
  }

  /** The state after reading every record, in order. */
  function ScanAll(recs: seq<LlRecord>, top: string, variables: seq<string>): (s: Scan)
    ensures forall n :: n in s.members ==> n in variables
  {
    if |recs| == 0 then Scan(None, map[], false)
    else Step(ScanAll(recs[..|recs| - 1], top, variables), recs[|recs| - 1], top, variables)
  }

  /** `parse_ll`: the recorded members with the base offset added, or
      RuntimeError when the base offset is missing or 0. */
  function ParseLl(recs: seq<LlRecord>, top: string, variables: seq<string>)
    : (r: Result<map<string, VariableInfo>>)
    ensures r.Err? ==> r.error == RuntimeError
    ensures r.Ok? ==> forall n :: n in r.value ==> n in variables
  {
    var s := ScanAll(recs, top, variables);
    if s.base.None? || s.base.value == 0 then Err(RuntimeError)
    else
      Ok(map n | n in s.members :: VariableInfo(s.members[n].bytes, s.members[n].offset + s.base.value))
  }

  // ---------------------------------------------------- reference meaning

  /** Record `i` is a member record named `n` read while collecting, i.e.
      after the `DIFile` record of the escaped top module. */
  predicate Collected(recs: seq<LlRecord>, top: string, i: nat, n: string)
    requires i < |recs|
  {
    recs[i].MemberRecord? && recs[i].name == n &&
    exists j :: 0 <= j < i && recs[j] == FileRecord(top)
  }

  /** Record `i` is the earliest collected record of its name. */
  predicate FirstCollected(recs: seq<LlRecord>, top: string, i: nat)
    requires i < |recs|
  {
    recs[i].MemberRecord? && Collected(recs, top, i, recs[i].name) &&
    forall j :: 0 <= j < i ==> !Collected(recs, top, j, recs[i].name)
  }

  /** Record `i` is the last base-offset record. */
  predicate LastTop(recs: seq<LlRecord>, i: nat)
    requires i < |recs|
  {
    IsTopRecord(recs[i]) && forall j :: i < j < |recs| ==> !IsTopRecord(recs[j])
  }

  lemma PrefixCollected(recs: seq<LlRecord>, top: string, i: nat, n: string)
    requires 0 < |recs| && i < |recs| - 1
    ensures Collected(recs, top, i, n) <==> Collected(recs[..|recs| - 1], top, i, n)
  {
    var p := recs[..|recs| - 1];
    if Collected(p, top, i, n) {
      var j :| 0 <= j < i && p[j] == FileRecord(top);
      assert recs[j] == FileRecord(top);
    }
    if Collected(recs, top, i, n) {
      var j :| 0 <= j < i && recs[j] == FileRecord(top);
      assert p[j] == FileRecord(top);
    }
  }

  /** Collecting is on exactly when the top module's `DIFile` record has
      been read; nothing turns it off again. */
  lemma {:induction false} ScanCollecting(recs: seq<LlRecord>, top: string, variables: seq<string>)
    ensures ScanAll(recs, top, variables).collecting <==>
            exists j :: 0 <= j < |recs| && recs[j] == FileRecord(top)
  {
    if |recs| > 0 {
      var p := recs[..|recs| - 1];
      ScanCollecting(p, top, variables);
      if exists j :: 0 <= j < |p| && p[j] == FileRecord(top) {
        var j :| 0 <= j < |p| && p[j] == FileRecord(top);
        assert recs[j] == FileRecord(top);
      }
      if exists j :: 0 <= j < |recs| && recs[j] == FileRecord(top) {
        var j :| 0 <= j < |recs| && recs[j] == FileRecord(top);
        if j < |p| {
          assert p[j] == FileRecord(top);
        }
      }
    }
  }

  /** The base offset comes from the last `TOP` record with an `align`
      field, and is missing when there is none. */
  lemma {:induction false} ScanBase(recs: seq<LlRecord>, top: string, variables: seq<string>)
    ensures ScanAll(recs, top, variables).base.None? <==>
            forall i :: 0 <= i < |recs| ==> !IsTopRecord(recs[i])
    ensures forall i :: 0 <= i < |recs| && LastTop(recs, i) ==>
              ScanAll(recs, top, variables).base == Some(OffsetBytes(recs[i]))
  {
    if |recs| > 0 {
      var p := recs[..|recs| - 1];
      var last := recs[|recs| - 1];
      ScanBase(p, top, variables);
      forall i | 0 <= i < |recs| && LastTop(recs, i)
        ensures ScanAll(recs, top, variables).base == Some(OffsetBytes(recs[i]))
      {
        if i < |p| {
          assert !IsTopRecord(last);
          assert LastTop(p, i);
        }
      }
      if !IsTopRecord(last) {
        assert forall i :: 0 <= i < |p| ==> p[i] == recs[i];
      }
    }
  }

  /** A name is recorded exactly when it is listed and some record of it
      was read while collecting. */
  lemma {:induction false} ScanMembers(recs: seq<LlRecord>, top: string, variables: seq<string>)
    ensures forall n :: n in ScanAll(recs, top, variables).members <==>
              (n in variables && exists i :: 0 <= i < |recs| && Collected(recs, top, i, n))
  {
    if |recs| > 0 {
      var p := recs[..|recs| - 1];
      var last := recs[|recs| - 1];
      var k := |p|;
      ScanMembers(p, top, variables);
      ScanCollecting(p, top, variables);
      forall n
        ensures n in ScanAll(recs, top, variables).members <==>
                (n in variables && exists i :: 0 <= i < |recs| && Collected(recs, top, i, n))
      {
        forall i | 0 <= i < k
          ensures Collected(recs, top, i, n) <==> Collected(p, top, i, n)
        {
          PrefixCollected(recs, top, i, n);
        }
        if Collected(recs, top, k, n) {
          var j :| 0 <= j < k && recs[j] == FileRecord(top);
          assert p[j] == FileRecord(top);
        }
        if last.MemberRecord? && last.name == n && ScanAll(p, top, variables).collecting {
          var j :| 0 <= j < k && p[j] == FileRecord(top);
          assert recs[j] == FileRecord(top);
          assert Collected(recs, top, k, n);
        }
      }
    }
  }

  /** The first collected record of a listed name is the one recorded. */
  lemma {:induction false} ScanFirstWins(recs: seq<LlRecord>, top: string, variables: seq<string>)
    ensures forall i :: 0 <= i < |recs| && FirstCollected(recs, top, i) && recs[i].name in variables ==>
              recs[i].name in ScanAll(recs, top, variables).members &&
              ScanAll(recs, top, variables).members[recs[i].name] == InfoOf(recs[i])
  {
    if |recs| > 0 {
      var p := recs[..|recs| - 1];
      var last := recs[|recs| - 1];
      var k := |p|;
      ScanFirstWins(p, top, variables);
      ScanMembers(p, top, variables);
      ScanCollecting(p, top, variables);
      var before := ScanAll(p, top, variables).members;
      var after := ScanAll(recs, top, variables).members;
      assert forall n :: n in before ==> n in after && after[n] == before[n];
      forall i | 0 <= i < |recs| && FirstCollected(recs, top, i) && recs[i].name in variables
        ensures recs[i].name in after && after[recs[i].name] == InfoOf(recs[i])
      {
        var n := recs[i].name;
        if i < k {
          forall j | 0 <= j <= i
            ensures Collected(recs, top, j, n) <==> Collected(p, top, j, n)
          {
            PrefixCollected(recs, top, j, n);
          }
          assert FirstCollected(p, top, i);
        } else {
          var j :| 0 <= j < k && recs[j] == FileRecord(top);
          assert p[j] == FileRecord(top);
          forall i' | 0 <= i' < k
            ensures !Collected(p, top, i', n)
          {
            PrefixCollected(recs, top, i', n);
          }
          assert n !in before;
        }
      }
    }
  }

  /** The full contract of `parse_ll`: RuntimeError exactly when no base
      offset was found or it is 0; otherwise a name maps to an entry exactly
      when it is listed and was read while collecting, and the entry is the
      size of its first collected record with the base offset added to its
      local offset. */
  lemma ParseLlMeaning(recs: seq<LlRecord>, top: string, variables: seq<string>)
    ensures ParseLl(recs, top, variables).Err? <==>
            ((forall i :: 0 <= i < |recs| ==> !IsTopRecord(recs[i])) ||
             (exists i :: 0 <= i < |recs| && LastTop(recs, i) && OffsetBytes(recs[i]) == 0))
    ensures ParseLl(recs, top, variables).Ok? ==>
              forall n :: n in ParseLl(recs, top, variables).value <==>
                (n in variables && exists i :: 0 <= i < |recs| && Collected(recs, top, i, n))
    ensures forall i, t ::
              0 <= i < |recs| && 0 <= t < |recs| && LastTop(recs, t) && OffsetBytes(recs[t]) != 0 &&
              FirstCollected(recs, top, i) && recs[i].name in variables ==>
                ParseLl(recs, top, variables).Ok? && recs[i].name in ParseLl(recs, top, variables).value &&
                ParseLl(recs, top, variables).value[recs[i].name] ==
                  VariableInfo(ToBytes(recs[i].sizeBits), OffsetBytes(recs[i]) + OffsetBytes(recs[t]))
  {
    ParseLlError(recs, top, variables);
    ParseLlNames(recs, top, variables);
    ParseLlEntries(recs, top, variables);
  }

  lemma ParseLlError(recs: seq<LlRecord>, top: string, variables: seq<string>)
    ensures ParseLl(recs, top, variables).Err? <==>
            ((forall i :: 0 <= i < |recs| ==> !IsTopRecord(recs[i])) ||
             (exists i :: 0 <= i < |recs| && LastTop(recs, i) && OffsetBytes(recs[i]) == 0))
  {
    ScanBase(recs, top, variables);
    if ScanAll(recs, top, variables).base.Some? {
      // some TOP record exists, so a last one does too
      var t := LastTopIndex(recs);
      assert LastTop(recs, t);
    }
  }

  lemma ParseLlNames(recs: seq<LlRecord>, top: string, variables: seq<string>)
    ensures ParseLl(recs, top, variables).Ok? ==>
              forall n :: n in ParseLl(recs, top, variables).value <==>
                (n in variables && exists i :: 0 <= i < |recs| && Collected(recs, top, i, n))
  {
    ScanMembers(recs, top, variables);
    var s := ScanAll(recs, top, variables);
    if ParseLl(recs, top, variables).Ok? {
      assert forall n :: n in ParseLl(recs, top, variables).value <==> n in s.members;
    }
  }

  lemma ParseLlEntries(recs: seq<LlRecord>, top: string, variables: seq<string>)
    ensures forall i, t ::
              0 <= i < |recs| && 0 <= t < |recs| && LastTop(recs, t) && OffsetBytes(recs[t]) != 0 &&
              FirstCollected(recs, top, i) && recs[i].name in variables ==>
                ParseLl(recs, top, variables).Ok? && recs[i].name in ParseLl(recs, top, variables).value &&
                ParseLl(recs, top, variables).value[recs[i].name] ==
                  VariableInfo(ToBytes(recs[i].sizeBits), OffsetBytes(recs[i]) + OffsetBytes(recs[t]))
  {
    ScanBase(recs, top, variables);
    ScanFirstWins(recs, top, variables);
  }

  /** The index of the last base-offset record, when there is one. */
  lemma {:induction false} LastTopIndex(recs: seq<LlRecord>) returns (t: nat)
    requires exists i :: 0 <= i < |recs| && IsTopRecord(recs[i])
    ensures t < |recs| && LastTop(recs, t)
  {
    var last := |recs| - 1;
    if IsTopRecord(recs[last]) {
      t := last;
    } else {
      var p := recs[..last];
      var i :| 0 <= i < |recs| && IsTopRecord(recs[i]);
      assert p[i] == recs[i];
      t := LastTopIndex(p);
      assert forall j :: t < j < last ==> p[j] == recs[j];
    }
  }

  /** A base offset of 0, as when `TOP` sits at the start of the root
      object, is taken for a missing one. */
  lemma ZeroBaseRejected(recs: seq<LlRecord>, top: string, variables: seq<string>)
    requires |recs| > 0 && IsTopRecord(recs[|recs| - 1]) && OffsetBytes(recs[|recs| - 1]) == 0
    ensures ParseLl(recs, top, variables) == Err(RuntimeError)
  {
  }
}
