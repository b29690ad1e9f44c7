/** Module declarations and module instances of `core/ir/module.py`.
    The netlist yosys writes as JSON is taken as already parsed, and the
    register declarations tree-sitter finds in the source as a list of
    captures. */
module ModuleIR {
  import opened Wrappers
  import opened Seqs
  import opened Sorting
  import opened Items
  import opened Assoc

  // ------------------------------------------------ registers_by_module_in

  datatype Label = ModuleId | RegId | OtherLabel

  /** One capture of the register-declaration query: where the identifier
      starts, its text, and which identifier it is. */
  datatype Capture = Capture(start: nat, name: string, kind: Label)

  /** The order of `sorted` on `(start_byte, text, label)` tuples. Two
      captured identifiers that start at the same byte are the same node,
      so they share their text and the label decides: `module-id` sorts
      before `reg-id`. */
  function CaptureOrder(c: Capture): Key
  {
    (c.start, match c.kind case ModuleId => 0 case RegId => 1 case OtherLabel => 2)
  }

  /** Register names by module; `None` collects registers seen before any
      module name. */
  type RegisterMap = map<Option<string>, set<string>>

  predicate Has(m: RegisterMap, k: Option<string>, n: string)
  {
    k in m && n in m[k]
  }

  /** The loop over the sorted captures, with the module seen last. */
  function Collect(s: seq<Capture>, current: Option<string>, acc: RegisterMap): RegisterMap
    decreases |s|
  {
    if |s| == 0 then acc
    else
      var c := s[0];
      if c.kind == ModuleId then Collect(s[1..], Some(c.name), acc)
      else if c.kind == RegId then
        Collect(s[1..], current, acc[current := (if current in acc then acc[current] else {}) + {c.name}])
      else Collect(s[1..], current, acc)
  }

  /** `registers_by_module_in` on the captures of one file. */
  function RegistersByModule(captures: seq<Capture>): RegisterMap
  {
    Collect(SortBy(captures, CaptureOrder), None, map[])
  }

  /** The module in effect before position `i`: the latest module name
      among `s[..i]`, or `current` if there is none. */
  function OwnerFrom(current: Option<string>, s: seq<Capture>, i: nat): Option<string>
    requires i <= |s|
  {
    if i == 0 then current
    else if s[i - 1].kind == ModuleId then Some(s[i - 1].name)
    else OwnerFrom(current, s, i - 1)
  }

  /** `n` is a register name captured while module `k` was in effect. */
  predicate Attributed(s: seq<Capture>, current: Option<string>, k: Option<string>, n: string)
  {
    exists i :: 0 <= i < |s| && s[i].kind == RegId && s[i].name == n && OwnerFrom(current, s, i) == k
  }

  lemma {:induction false} OwnerShift(current: Option<string>, s: seq<Capture>, i: nat)
    requires |s| > 0 && i < |s|
    ensures OwnerFrom(current, s, i + 1) ==
      OwnerFrom(if s[0].kind == ModuleId then Some(s[0].name) else current, s[1..], i)
    decreases i
  {
    if i > 0 {
      OwnerShift(current, s, i - 1);
    }
  }

  lemma AttributedStep(s: seq<Capture>, current: Option<string>, k: Option<string>, n: string)
    requires |s| > 0
    ensures Attributed(s, current, k, n) <==>
      ((s[0].kind == RegId && s[0].name == n && current == k) ||
       Attributed(s[1..], if s[0].kind == ModuleId then Some(s[0].name) else current, k, n))
  {
    var next := if s[0].kind == ModuleId then Some(s[0].name) else current;
    if Attributed(s, current, k, n) {
      var i :| 0 <= i < |s| && s[i].kind == RegId && s[i].name == n && OwnerFrom(current, s, i) == k;
      if i > 0 {
        OwnerShift(current, s, i - 1);
        assert s[1..][i - 1] == s[i];
      }
    }
    if Attributed(s[1..], next, k, n) {
      var i :| 0 <= i < |s[1..]| && s[1..][i].kind == RegId && s[1..][i].name == n && OwnerFrom(next, s[1..], i) == k;
      OwnerShift(current, s, i);
      assert s[i + 1] == s[1..][i];
    }
    if s[0].kind == RegId && s[0].name == n && current == k {
      assert OwnerFrom(current, s, 0) == k;
    }
  }

  lemma {:induction false} CollectSpec(s: seq<Capture>, current: Option<string>, acc: RegisterMap, k: Option<string>, n: string)
    ensures Has(Collect(s, current, acc), k, n) <==> Has(acc, k, n) || Attributed(s, current, k, n)
    decreases |s|
  {
    if |s| > 0 {
      var c := s[0];
      AttributedStep(s, current, k, n);
      if c.kind == ModuleId {
        CollectSpec(s[1..], Some(c.name), acc, k, n);
      } else if c.kind == RegId {
        var acc2 := acc[current := (if current in acc then acc[current] else {}) + {c.name}];
        CollectSpec(s[1..], current, acc2, k, n);
      } else {
        CollectSpec(s[1..], current, acc, k, n);
      }
    }
  }

  /** Every register name is filed under the module whose name was captured
      last before it in file order, and under nothing else; the captures
      are first ordered by start offset, a module name before a register
      name at the same offset. */
  lemma RegistersByModuleSpec(captures: seq<Capture>, k: Option<string>, n: string)
    ensures var sorted := SortBy(captures, CaptureOrder);
      multiset(sorted) == multiset(captures) && SortedBy(sorted, CaptureOrder) &&
      (Has(RegistersByModule(captures), k, n) <==> Attributed(sorted, None, k, n))
  {
    CollectSpec(SortBy(captures, CaptureOrder), None, map[], k, n);
  }

  // ------------------------------------------------------- parse_verilog

  datatype PortDetails = PortDetails(bits: nat, direction: string)
  datatype NetDetails = NetDetails(hideName: int, bits: nat)
  datatype CellDetails = CellDetails(hideName: int, cellType: string)

  /** One entry of the `modules` object of yosys' JSON netlist. */
  datatype ModuleDetails = ModuleDetails(
    hasMemories: bool,
    ports: seq<(string, PortDetails)>,
    netnames: seq<(string, NetDetails)>,
    cells: seq<(string, CellDetails)>)

  /** `ModuleDeclaration`: ports and internals by name, and the submodule
      instances in netlist order as (instance name, module type). */
  datatype ModuleDecl = ModuleDecl(
    name: string,
    ports: map<string, Item>,
    internals: map<string, Item>,
    submodules: seq<(string, string)>)

  /** The JSON flag `hide_name` marks names yosys made up. */
  predicate NotHidden(hideName: int)
  {
    hideName == 0
  }

  function PortItem(name: string, d: PortDetails): (r: Item)
    ensures r.Primitive? && r.name == name && r.width == d.bits && !r.isReg && r.inst.None?
  {
    NewPrimitive(name, d.bits, false, DirString(d.direction), None).value
  }

  /** The ports of a module, by name. */
  function PortItems(ports: seq<(string, PortDetails)>): (r: map<string, Item>)
    ensures r.Keys == set i | 0 <= i < |ports| :: ports[i].0
    ensures forall k :: k in r ==> r[k].Primitive? && r[k].name == k && !r[k].isReg
  {
    if |ports| == 0 then map[]
    else
      var rest := PortItems(ports[..|ports| - 1]);
      var (name, d) := ports[|ports| - 1];
      assert forall i :: 0 <= i < |ports| - 1 ==> ports[..|ports| - 1][i] == ports[i];
      rest[name := PortItem(name, d)]
  }

  /** The internal nets of a module: visible nets that are not ports, with
      the elements `a[i]` of an array folded into one compound item `a`.
      `prims` and `arrays` hold what the nets seen so far produced. */
  function InternalsFrom(nets: seq<(string, NetDetails)>, portNames: set<string>, regs: set<string>,
                         prims: map<string, Item>, arrays: map<string, Item>): Result<(map<string, Item>, map<string, Item>)>
    decreases |nets|
  {
    if |nets| == 0 then Ok((prims, arrays))
    else
      var (name, d) := nets[0];
      if NotHidden(d.hideName) && name !in portNames then
        match ArrayElement(name)
        case Some((arr, index)) =>
          var step :- RegisterElement(arrays, arr, arr in regs, index, d.bits);
          InternalsFrom(nets[1..], portNames, regs, prims, step.0)
        case None =>
          InternalsFrom(nets[1..], portNames, regs, prims[name := Primitive(name, d.bits, name in regs, None, None)], arrays)
      else InternalsFrom(nets[1..], portNames, regs, prims, arrays)
  }

  /** A visible net other than a port, which the internals must account for. */
  predicate InternalNet(nets: seq<(string, NetDetails)>, portNames: set<string>, i: int)
  {
    0 <= i < |nets| && NotHidden(nets[i].1.hideName) && nets[i].0 !in portNames
  }

  /** What the scan keeps, given the maps it started from and the maps it
      returned: every primitive comes from an internal net that is not an
      array element, every array from one that is, and every such net is
      kept — an element's index among its array's indices. */
  ghost predicate ScanFacts(nets: seq<(string, NetDetails)>, portNames: set<string>,
                      prims: map<string, Item>, arrays: map<string, Item>,
                      p: map<string, Item>, c: map<string, Item>)
  {
    (forall k :: k in p ==>
      (k in prims || exists i :: InternalNet(nets, portNames, i) && nets[i].0 == k && ArrayElement(k).None?)) &&
    (forall k :: k in c ==>
      (c[k].Compound? &&
       (k in arrays || exists i :: InternalNet(nets, portNames, i) && ArrayElement(nets[i].0).Some? && ArrayElement(nets[i].0).value.0 == k))) &&
    (forall i :: InternalNet(nets, portNames, i) && ArrayElement(nets[i].0).None? ==> nets[i].0 in p) &&
    (forall i :: InternalNet(nets, portNames, i) && ArrayElement(nets[i].0).Some? ==>
      (ArrayElement(nets[i].0).value.0 in c && ArrayElement(nets[i].0).value.1 in c[ArrayElement(nets[i].0).value.0].indices)) &&
    (forall k :: k in prims ==> k in p) &&
    (forall k :: k in arrays ==> k in c && (arrays[k].Compound? ==> arrays[k].indices <= c[k].indices))
  }

  lemma {:induction false} InternalsFromSpec(nets: seq<(string, NetDetails)>, portNames: set<string>, regs: set<string>,
                                             prims: map<string, Item>, arrays: map<string, Item>)
    requires forall a :: a in arrays ==> arrays[a].Compound?
    requires InternalsFrom(nets, portNames, regs, prims, arrays).Ok?
    ensures var (p, c) := InternalsFrom(nets, portNames, regs, prims, arrays).value;
      ScanFacts(nets, portNames, prims, arrays, p, c)
    decreases |nets|, 1
  {
    if |nets| == 0 {
      return;
    }
    if InternalNet(nets, portNames, 0) {
      if ArrayElement(nets[0].0).Some? {
        ElementSpec(nets, portNames, regs, prims, arrays);
      } else {
        PrimitiveSpec(nets, portNames, regs, prims, arrays);
      }
    } else {
      InternalsFromSpec(nets[1..], portNames, regs, prims, arrays);
      InternalsTail(nets, portNames, regs, prims, arrays, prims, arrays);
    }
  }

  /** An element `a[i]` folds into array `a`. */
  lemma {:induction false} ElementSpec(nets: seq<(string, NetDetails)>, portNames: set<string>, regs: set<string>,
                                       prims: map<string, Item>, arrays: map<string, Item>)
    requires forall a :: a in arrays ==> arrays[a].Compound?
    requires InternalsFrom(nets, portNames, regs, prims, arrays).Ok?
    requires InternalNet(nets, portNames, 0) && ArrayElement(nets[0].0).Some?
    ensures var (p, c) := InternalsFrom(nets, portNames, regs, prims, arrays).value;
      ScanFacts(nets, portNames, prims, arrays, p, c)
    decreases |nets|, 0
  {
    var (name, d) := nets[0];
    var (arr, index) := ArrayElement(name).value;
    var step := RegisterElement(arrays, arr, arr in regs, index, d.bits).value;
    InternalsFromSpec(nets[1..], portNames, regs, prims, step.0);
    InternalsTail(nets, portNames, regs, prims, arrays, prims, step.0);
  }

  /** Any other visible net becomes a primitive. */
  lemma {:induction false} PrimitiveSpec(nets: seq<(string, NetDetails)>, portNames: set<string>, regs: set<string>,
                                         prims: map<string, Item>, arrays: map<string, Item>)
    requires forall a :: a in arrays ==> arrays[a].Compound?
    requires InternalsFrom(nets, portNames, regs, prims, arrays).Ok?
    requires InternalNet(nets, portNames, 0) && ArrayElement(nets[0].0).None?
    ensures var (p, c) := InternalsFrom(nets, portNames, regs, prims, arrays).value;
      ScanFacts(nets, portNames, prims, arrays, p, c)
    decreases |nets|, 0
  {
    var (name, d) := nets[0];
    var prims2 := prims[name := Primitive(name, d.bits, name in regs, None, None)];
    InternalsFromSpec(nets[1..], portNames, regs, prims2, arrays);
    InternalsTail(nets, portNames, regs, prims, arrays, prims2, arrays);
  }

  /** Transfers the facts about the rest of the nets to all of them, given
      what the first net did to the maps. */
  lemma InternalsTail(nets: seq<(string, NetDetails)>, portNames: set<string>, regs: set<string>,
                      prims: map<string, Item>, arrays: map<string, Item>,
                      prims2: map<string, Item>, arrays2: map<string, Item>)
    requires |nets| > 0
    requires forall a :: a in arrays ==> arrays[a].Compound?
    requires InternalsFrom(nets, portNames, regs, prims, arrays) == InternalsFrom(nets[1..], portNames, regs, prims2, arrays2)
    requires InternalsFrom(nets, portNames, regs, prims, arrays).Ok?
    requires forall k :: k in prims2 ==> (k in prims || (InternalNet(nets, portNames, 0) && nets[0].0 == k && ArrayElement(k).None?))
    requires forall k :: k in arrays2 ==>
      (arrays2[k].Compound? &&
       (k in arrays || (InternalNet(nets, portNames, 0) && ArrayElement(nets[0].0).Some? && ArrayElement(nets[0].0).value.0 == k)))
    requires InternalNet(nets, portNames, 0) && ArrayElement(nets[0].0).None? ==> nets[0].0 in prims2
    requires InternalNet(nets, portNames, 0) && ArrayElement(nets[0].0).Some? ==>
      (ArrayElement(nets[0].0).value.0 in arrays2 && ArrayElement(nets[0].0).value.1 in arrays2[ArrayElement(nets[0].0).value.0].indices)
    requires forall k :: k in prims ==> k in prims2
    requires forall k :: k in arrays ==> k in arrays2 && arrays[k].indices <= arrays2[k].indices
    requires var (p, c) := InternalsFrom(nets[1..], portNames, regs, prims2, arrays2).value;
      ScanFacts(nets[1..], portNames, prims2, arrays2, p, c)
    ensures var (p, c) := InternalsFrom(nets, portNames, regs, prims, arrays).value;
      ScanFacts(nets, portNames, prims, arrays, p, c)
  {
    var rest := nets[1..];
    assert forall i :: 0 <= i < |rest| ==> (InternalNet(rest, portNames, i) <==> InternalNet(nets, portNames, i + 1)) && rest[i] == nets[i + 1];
    var (p, c) := InternalsFrom(rest, portNames, regs, prims2, arrays2).value;
    forall k | k in p
      ensures k in prims || exists i :: InternalNet(nets, portNames, i) && nets[i].0 == k && ArrayElement(k).None?
    {
      if k !in prims2 {
        var i :| InternalNet(rest, portNames, i) && rest[i].0 == k && ArrayElement(k).None?;
        assert InternalNet(nets, portNames, i + 1);
      } else if k !in prims {
        assert InternalNet(nets, portNames, 0);
      }
    }
    forall k | k in c
      ensures k in arrays || exists i :: InternalNet(nets, portNames, i) && ArrayElement(nets[i].0).Some? && ArrayElement(nets[i].0).value.0 == k
    {
      if k !in arrays2 {
        var i :| InternalNet(rest, portNames, i) && ArrayElement(rest[i].0).Some? && ArrayElement(rest[i].0).value.0 == k;
        assert InternalNet(nets, portNames, i + 1);
      } else if k !in arrays {
        assert InternalNet(nets, portNames, 0);
      }
    }
    forall i | InternalNet(nets, portNames, i) && ArrayElement(nets[i].0).Some?
      ensures ArrayElement(nets[i].0).value.0 in c && ArrayElement(nets[i].0).value.1 in c[ArrayElement(nets[i].0).value.0].indices
    {
      if i > 0 {
        assert InternalNet(rest, portNames, i - 1);
      }
    }
    forall i | InternalNet(nets, portNames, i) && ArrayElement(nets[i].0).None?
      ensures nets[i].0 in p
    {
      if i > 0 {
        assert InternalNet(rest, portNames, i - 1);
      }
    }
  }

  /** The visible cells of a module as (instance name, module type). */
  function Submodules(cells: seq<(string, CellDetails)>): (r: seq<(string, string)>)
    ensures forall x :: x in r <==> exists i :: 0 <= i < |cells| && NotHidden(cells[i].1.hideName) && x == (cells[i].0, cells[i].1.cellType)
  {
    if |cells| == 0 then []
    else
      var rest := Submodules(cells[1..]);
      assert forall i :: 0 <= i < |cells| - 1 ==> cells[1..][i] == cells[i + 1];
      if NotHidden(cells[0].1.hideName) then [(cells[0].0, cells[0].1.cellType)] + rest else rest
  }

  /** The registers of one module, by its name. */
  function RegistersOf(regs: RegisterMap, name: string): set<string>
  {
    if Some(name) in regs then regs[Some(name)] else {}
  }

  /** One iteration of the loop over the modules of the netlist. */
  function DeclareModule(name: string, details: ModuleDetails, regs: RegisterMap): (r: Result<ModuleDecl>)
    ensures details.hasMemories ==> r == Err(NotImplementedError)
    ensures r.Ok? <==> (!details.hasMemories &&
      InternalsFrom(details.netnames, PortItems(details.ports).Keys, RegistersOf(regs, name), map[], map[]).Ok?)
    ensures r.Ok? ==> (r.value.name == name && r.value.ports == PortItems(details.ports) &&
      r.value.submodules == Submodules(details.cells))
  {
    if details.hasMemories then Err(NotImplementedError)
    else
      var ports := PortItems(details.ports);
      var scanned :- InternalsFrom(details.netnames, ports.Keys, RegistersOf(regs, name), map[], map[]);
      Ok(ModuleDecl(name, ports, scanned.0 + scanned.1, Submodules(details.cells)))
  }

  /** The primitive internals of a declared module are exactly its visible
      nets that are neither ports nor array elements — unless an array of
      the same name takes the name over. */
  lemma DeclareModulePrimitives(name: string, details: ModuleDetails, regs: RegisterMap)
    requires DeclareModule(name, details, regs).Ok?
    ensures var d := DeclareModule(name, details, regs).value;
      var nets := details.netnames;
      (forall k :: k in d.internals && d.internals[k].Primitive? ==>
        (k !in d.ports && exists i :: InternalNet(nets, d.ports.Keys, i) && nets[i].0 == k && ArrayElement(k).None?)) &&
      (forall i :: InternalNet(nets, d.ports.Keys, i) && ArrayElement(nets[i].0).None? ==> nets[i].0 in d.internals)
  {
    var ports := PortItems(details.ports);
    InternalsFromSpec(details.netnames, ports.Keys, RegistersOf(regs, name), map[], map[]);
    var (p, c) := InternalsFrom(details.netnames, ports.Keys, RegistersOf(regs, name), map[], map[]).value;
    var d := DeclareModule(name, details, regs).value;
    assert d.internals == p + c;
    forall k | k in d.internals && d.internals[k].Primitive?
      ensures k in p
    {
    }
  }

  /** The compound internals of a declared module are exactly the arrays
      with a visible non-port element, each element's index among the
      array's indices. */
  lemma DeclareModuleArrays(name: string, details: ModuleDetails, regs: RegisterMap)
    requires DeclareModule(name, details, regs).Ok?
    ensures var d := DeclareModule(name, details, regs).value;
      var nets := details.netnames;
      (forall k :: k in d.internals && d.internals[k].Compound? ==>
        exists i :: InternalNet(nets, d.ports.Keys, i) && ArrayElement(nets[i].0).Some? && ArrayElement(nets[i].0).value.0 == k) &&
      (forall i :: InternalNet(nets, d.ports.Keys, i) && ArrayElement(nets[i].0).Some? ==>
        (ArrayElement(nets[i].0).value.0 in d.internals &&
         d.internals[ArrayElement(nets[i].0).value.0].Compound? &&
         ArrayElement(nets[i].0).value.1 in d.internals[ArrayElement(nets[i].0).value.0].indices))
  {
    var ports := PortItems(details.ports);
    InternalsFromSpec(details.netnames, ports.Keys, RegistersOf(regs, name), map[], map[]);
    var (p, c) := InternalsFrom(details.netnames, ports.Keys, RegistersOf(regs, name), map[], map[]).value;
    InternalsPrimitive(details.netnames, ports.Keys, RegistersOf(regs, name), map[], map[]);
    var d := DeclareModule(name, details, regs).value;
    assert d.internals == p + c;
    forall k | k in d.internals && d.internals[k].Compound?
      ensures k in c
    {
    }
    forall i | InternalNet(details.netnames, ports.Keys, i) && ArrayElement(details.netnames[i].0).Some?
      ensures var arr := ArrayElement(details.netnames[i].0).value.0;
        arr in d.internals && d.internals[arr] == c[arr]
    {
    }
  }

  /** The scan files only primitive items among the primitives. */
  lemma {:induction false} InternalsPrimitive(nets: seq<(string, NetDetails)>, portNames: set<string>, regs: set<string>,
                                              prims: map<string, Item>, arrays: map<string, Item>)
    requires forall k :: k in prims ==> prims[k].Primitive?
    requires InternalsFrom(nets, portNames, regs, prims, arrays).Ok?
    ensures var p := InternalsFrom(nets, portNames, regs, prims, arrays).value.0;
      forall k :: k in p ==> p[k].Primitive?
    decreases |nets|
  {
    if |nets| > 0 {
      var (name, d) := nets[0];
      if NotHidden(d.hideName) && name !in portNames {
        match ArrayElement(name)
        case Some((arr, index)) =>
          var step := RegisterElement(arrays, arr, arr in regs, index, d.bits).value;
          InternalsPrimitive(nets[1..], portNames, regs, prims, step.0);
        case None =>
          InternalsPrimitive(nets[1..], portNames, regs, prims[name := Primitive(name, d.bits, name in regs, None, None)], arrays);
      } else {
        InternalsPrimitive(nets[1..], portNames, regs, prims, arrays);
      }
    }
  }

  /** The declarations of all modules of the netlist, in netlist order; the
      first module that fails stops the parse. */
  function DeclareAll(modules: seq<(string, ModuleDetails)>, regs: RegisterMap): (r: Result<map<string, ModuleDecl>>)
    ensures r.Ok? <==> forall i :: 0 <= i < |modules| ==> DeclareModule(modules[i].0, modules[i].1, regs).Ok?
    ensures r.Ok? ==> r.value.Keys == set i | 0 <= i < |modules| :: modules[i].0
    ensures r.Ok? ==> forall k :: k in r.value ==> (r.value[k].name == k &&
      exists i :: 0 <= i < |modules| && modules[i].0 == k && DeclareModule(k, modules[i].1, regs) == Ok(r.value[k]))
  {
    if |modules| == 0 then Ok(map[])
    else
      var init := modules[..|modules| - 1];
      assert forall i :: 0 <= i < |init| ==> init[i] == modules[i];
      var design :- DeclareAll(init, regs);
      var (name, details) := modules[|modules| - 1];
      var decl :- DeclareModule(name, details, regs);
      DeclaredSnoc(modules, regs, design, decl);
      Ok(design[name := decl])
  }

  /** Adding the declaration of the last module to those of the others. */
  lemma DeclaredSnoc(modules: seq<(string, ModuleDetails)>, regs: RegisterMap, design: map<string, ModuleDecl>, decl: ModuleDecl)
    requires |modules| > 0
    requires DeclareModule(modules[|modules| - 1].0, modules[|modules| - 1].1, regs) == Ok(decl)
    requires design.Keys == set i | 0 <= i < |modules| - 1 :: modules[i].0
    requires forall k :: k in design ==> (design[k].name == k &&
      exists i :: 0 <= i < |modules| - 1 && modules[i].0 == k && DeclareModule(k, modules[i].1, regs) == Ok(design[k]))
    ensures var r := design[modules[|modules| - 1].0 := decl];
      && r.Keys == (set i | 0 <= i < |modules| :: modules[i].0)
      && forall k :: k in r ==> (r[k].name == k &&
           exists i :: 0 <= i < |modules| && modules[i].0 == k && DeclareModule(k, modules[i].1, regs) == Ok(r[k]))
  {
    var last := |modules| - 1;
    var name := modules[last].0;
    var r := design[name := decl];
    forall k | k in r
      ensures r[k].name == k &&
        exists i :: 0 <= i < |modules| && modules[i].0 == k && DeclareModule(k, modules[i].1, regs) == Ok(r[k])
    {
      if k == name {
        assert modules[last].0 == k && DeclareModule(k, modules[last].1, regs) == Ok(r[k]);
      } else {
        var i :| 0 <= i < |modules| - 1 && modules[i].0 == k && DeclareModule(k, modules[i].1, regs) == Ok(design[k]);
        assert modules[i].0 == k && DeclareModule(k, modules[i].1, regs) == Ok(r[k]);
      }
    }
    assert r.Keys == (set i | 0 <= i < |modules| :: modules[i].0) by {
      forall k | k in (set i | 0 <= i < |modules| :: modules[i].0)
        ensures k in r.Keys
      {
        var i :| 0 <= i < |modules| && modules[i].0 == k;
        if i < last {
          assert k in (set j | 0 <= j < |modules| - 1 :: modules[j].0);
        }
      }
    }
  }

  /** The module types instantiated by some visible cell of some module. */
  function NonTop(modules: seq<(string, ModuleDetails)>): set<string>
  {
    set i, j | 0 <= i < |modules| && 0 <= j < |modules[i].1.cells| && NotHidden(modules[i].1.cells[j].1.hideName)
      :: modules[i].1.cells[j].1.cellType
  }

  /** `parse_verilog` on an already parsed netlist: every module is
      declared, and the one module no other module instantiates is the top.
      The result carries the top declaration and the whole design. */
  function ParseVerilog(modules: seq<(string, ModuleDetails)>, regs: RegisterMap): (r: Result<(ModuleDecl, map<string, ModuleDecl>)>)
    ensures r.Ok? ==> r.value.0.name in r.value.1 && r.value.1[r.value.0.name] == r.value.0
  {
    var design :- DeclareAll(modules, regs);
    var tops := design.Keys - NonTop(modules);
    if |tops| != 1 then Err(ValueError)
    else
      var top := Only(tops);
      Ok((design[top], design))
  }

  /** The element of a one-element set. */
  function Only(s: set<string>): (r: string)
    requires |s| == 1
    ensures s == {r}
  {
    var x :| x in s;
    assert |s - {x}| == 0;
    x
  }

  /** The module names of the netlist. */
  function Names(modules: seq<(string, ModuleDetails)>): set<string>
  {
    set i | 0 <= i < |modules| :: modules[i].0
  }

  /** A netlist parses exactly when every module declares without error and
      exactly one declared module is never instantiated. */
  lemma ParseVerilogAccepts(modules: seq<(string, ModuleDetails)>, regs: RegisterMap)
    ensures ParseVerilog(modules, regs).Ok? <==>
      ((forall i :: 0 <= i < |modules| ==> DeclareModule(modules[i].0, modules[i].1, regs).Ok?) &&
       |Names(modules) - NonTop(modules)| == 1)
  {
    if DeclareAll(modules, regs).Ok? {
      assert DeclareAll(modules, regs).value.Keys == Names(modules);
    }
  }

  /** No module of a parsed netlist uses memories. */
  lemma ParseVerilogNoMemories(modules: seq<(string, ModuleDetails)>, regs: RegisterMap)
    requires ParseVerilog(modules, regs).Ok?
    ensures forall i :: 0 <= i < |modules| ==> !modules[i].1.hasMemories
  {
    forall i | 0 <= i < |modules|
      ensures !modules[i].1.hasMemories
    {
      assert DeclareModule(modules[i].0, modules[i].1, regs).Ok?;
    }
  }

  /** The module returned is the top: a module of the netlist that no
      visible cell instantiates, while every other module is instantiated
      somewhere. */
  lemma ParseVerilogTop(modules: seq<(string, ModuleDetails)>, regs: RegisterMap)
    requires ParseVerilog(modules, regs).Ok?
    ensures var top := ParseVerilog(modules, regs).value.0.name;
      top in Names(modules) && top !in NonTop(modules) &&
      forall k :: k in Names(modules) && k != top ==> k in NonTop(modules)
  {
    var design := DeclareAll(modules, regs).value;
    var nonTop := NonTop(modules);
    var t := Only(design.Keys - nonTop);
    assert ParseVerilog(modules, regs).value.0 == design[t];
    assert design.Keys == Names(modules);
    OnlyOutside(design.Keys, nonTop, t);
  }

  lemma OnlyOutside(keys: set<string>, nonTop: set<string>, t: string)
    requires keys - nonTop == {t}
    ensures t in keys && t !in nonTop && forall k :: k in keys && k != t ==> k in nonTop
  {
    assert t in keys - nonTop;
    forall k | k in keys && k != t
      ensures k in nonTop
    {
      assert k !in keys - nonTop;
    }
  }

  // ------------------------------------------------------ ModuleInstance

  /** A module instance: its declaration, and the items instantiated so far,
      in instantiation order. */
  datatype ModuleInstance = ModuleInstance(
    decl: ModuleDecl,
    portInstances: seq<(string, Item)>,
    internalInstances: seq<(string, Item)>)

  function NewModuleInstance(decl: ModuleDecl): (r: ModuleInstance)
    ensures r.decl == decl && Consistent(r)
    ensures forall n :: FindInstance(r, n) == NotFound(FindDecl(decl, n))
  {
    ModuleInstance(decl, [], [])
  }

  /** `find_decl`: internals shadow ports of the same name. */
  function FindDecl(decl: ModuleDecl, name: string): (r: Option<Item>)
    ensures r.Some? <==> name in decl.internals || name in decl.ports
    ensures name in decl.internals ==> r == Some(decl.internals[name])
    ensures r.Some? && name !in decl.internals ==> r.value == decl.ports[name]
  {
    if name in decl.internals then Some(decl.internals[name])
    else if name in decl.ports then Some(decl.ports[name])
    else None
  }

  /** What `find_instance` returns or, as `ItemNotFoundError`, raises. */
  datatype Found = Found(item: Item) | NotFound(decl: Option<Item>)

  /** `find_instance`: an internal instance, else a port instance, else the
      declaration the name would have (or nothing) as the error payload. */
  function FindInstance(mi: ModuleInstance, name: string): (r: Found)
    ensures r.NotFound? <==> name !in Keys(mi.internalInstances) && name !in Keys(mi.portInstances)
    ensures r.NotFound? ==> r.decl == FindDecl(mi.decl, name)
  {
    match Get(mi.internalInstances, name)
    case Some(item) => Found(item)
    case None =>
      match Get(mi.portInstances, name)
      case Some(item) => Found(item)
      case None => NotFound(FindDecl(mi.decl, name))
  }

  /** What `instantiate_item` keeps true: instances are filed under distinct
      names, ports among the port instances and everything else among the
      internal ones, each under a name its declaration has. */
  predicate Consistent(mi: ModuleInstance)
  {
    Distinct(Keys(mi.portInstances)) && Distinct(Keys(mi.internalInstances)) &&
    (forall i :: 0 <= i < |mi.portInstances| ==>
      FindDecl(mi.decl, mi.portInstances[i].0).Some? && FindDecl(mi.decl, mi.portInstances[i].0).value.IsPort()) &&
    (forall i :: 0 <= i < |mi.internalInstances| ==>
      FindDecl(mi.decl, mi.internalInstances[i].0).Some? && !FindDecl(mi.decl, mi.internalInstances[i].0).value.IsPort())
  }

  /** `instantiate_item`: a port is (re)instantiated every time; another
      item is instantiated once, except that instantiating a compound again
      changes nothing; an unknown name is an error. */
  function InstantiateItem(mi: ModuleInstance, name: string, attrs: Attrs): (r: Result<ModuleInstance>)
    ensures r.Ok? ==> r.value.decl == mi.decl
    ensures FindDecl(mi.decl, name).None? ==> r == Err(ValueError)
    ensures FindDecl(mi.decl, name).Some? ==>
      var decl := FindDecl(mi.decl, name).value;
      (r.Err? <==>
        if !decl.IsPort() && name in Keys(mi.internalInstances) then decl.Primitive?
        else NewInstance(decl, attrs).Err?) &&
      (r.Err? && NewInstance(decl, attrs).Ok? ==> r.error == ValueError) &&
      (r.Ok? && !decl.IsPort() && name in Keys(mi.internalInstances) ==> r.value == mi)
  {
    match FindDecl(mi.decl, name)
    case None => Err(ValueError)
    case Some(decl) =>
      if decl.IsPort() then
        // a port is a primitive item, whose instantiation cannot fail
        Ok(mi.(portInstances := Put(mi.portInstances, name, NewInstance(decl, attrs).value)))
      else if name !in Keys(mi.internalInstances) then
        var inst :- NewInstance(decl, attrs);
        Ok(mi.(internalInstances := Put(mi.internalInstances, name, inst)))
      else if !decl.Compound? then Err(ValueError)
      else Ok(mi)
  }

  /** After `instantiate_item` the name finds the new instance of its
      declaration, every other name finds what it found before, and the
      instance stays consistent. */
  lemma InstantiateFind(mi: ModuleInstance, name: string, attrs: Attrs, other: string)
    requires Consistent(mi)
    requires FindDecl(mi.decl, name).Some?
    requires FindDecl(mi.decl, name).value.IsPort() || name !in Keys(mi.internalInstances)
    requires InstantiateItem(mi, name, attrs).Ok?
    ensures Consistent(InstantiateItem(mi, name, attrs).value)
    ensures FindInstance(InstantiateItem(mi, name, attrs).value, name) == Found(NewInstance(FindDecl(mi.decl, name).value, attrs).value)
    ensures other != name ==> FindInstance(InstantiateItem(mi, name, attrs).value, other) == FindInstance(mi, other)
  {
    var decl := FindDecl(mi.decl, name).value;
    var inst := NewInstance(decl, attrs).value;
    if decl.IsPort() {
      InstantiatePort(mi, name, inst, other);
    } else {
      InstantiateInternal(mi, name, inst, other);
    }
  }

  lemma InstantiatePort(mi: ModuleInstance, name: string, inst: Item, other: string)
    requires Consistent(mi)
    requires FindDecl(mi.decl, name).Some? && FindDecl(mi.decl, name).value.IsPort()
    ensures var r := mi.(portInstances := Put(mi.portInstances, name, inst));
      Consistent(r) && FindInstance(r, name) == Found(inst) &&
      (other != name ==> FindInstance(r, other) == FindInstance(mi, other))
  {
    PortNotInternal(mi, name);
    PortFound(mi, name, inst);
    PortKeepsOthers(mi, name, inst, other);
    PutDistinct(mi.portInstances, name, inst);
    PutConsistent(mi.portInstances, name, inst, mi.decl, true);
  }

  lemma PortFound(mi: ModuleInstance, name: string, inst: Item)
    requires name !in Keys(mi.internalInstances)
    ensures FindInstance(mi.(portInstances := Put(mi.portInstances, name, inst)), name) == Found(inst)
  {
    GetPut(mi.portInstances, name, inst, name);
  }

  lemma PortKeepsOthers(mi: ModuleInstance, name: string, inst: Item, other: string)
    ensures other != name ==>
      FindInstance(mi.(portInstances := Put(mi.portInstances, name, inst)), other) == FindInstance(mi, other)
  {
    GetPut(mi.portInstances, name, inst, other);
  }

  /** A port is never among the internal instances. */
  lemma PortNotInternal(mi: ModuleInstance, name: string)
    requires Consistent(mi)
    requires FindDecl(mi.decl, name).Some? && FindDecl(mi.decl, name).value.IsPort()
    ensures name !in Keys(mi.internalInstances)
  {
    forall i | 0 <= i < |mi.internalInstances|
      ensures Keys(mi.internalInstances)[i] != name
    {
      assert Keys(mi.internalInstances)[i] == mi.internalInstances[i].0;
    }
  }

  lemma InstantiateInternal(mi: ModuleInstance, name: string, inst: Item, other: string)
    requires Consistent(mi)
    requires FindDecl(mi.decl, name).Some? && !FindDecl(mi.decl, name).value.IsPort()
    ensures var r := mi.(internalInstances := Put(mi.internalInstances, name, inst));
      Consistent(r) && FindInstance(r, name) == Found(inst) &&
      (other != name ==> FindInstance(r, other) == FindInstance(mi, other))
  {
    InternalFound(mi, name, inst);
    InternalKeepsOthers(mi, name, inst, other);
    PutDistinct(mi.internalInstances, name, inst);
    PutConsistent(mi.internalInstances, name, inst, mi.decl, false);
  }

  lemma InternalFound(mi: ModuleInstance, name: string, inst: Item)
    ensures FindInstance(mi.(internalInstances := Put(mi.internalInstances, name, inst)), name) == Found(inst)
  {
    GetPut(mi.internalInstances, name, inst, name);
  }

  lemma InternalKeepsOthers(mi: ModuleInstance, name: string, inst: Item, other: string)
    ensures other != name ==>
      FindInstance(mi.(internalInstances := Put(mi.internalInstances, name, inst)), other) == FindInstance(mi, other)
  {
    GetPut(mi.internalInstances, name, inst, other);
  }

  /** Filing an instance under a name whose declaration is (not) a port
      keeps every entry's declaration (not) a port. */
  lemma PutConsistent(a: seq<(string, Item)>, name: string, inst: Item, decl: ModuleDecl, port: bool)
    requires FindDecl(decl, name).Some? && FindDecl(decl, name).value.IsPort() == port
    requires forall i :: 0 <= i < |a| ==> FindDecl(decl, a[i].0).Some? && FindDecl(decl, a[i].0).value.IsPort() == port
    ensures var b := Put(a, name, inst);
      forall i :: 0 <= i < |b| ==> FindDecl(decl, b[i].0).Some? && FindDecl(decl, b[i].0).value.IsPort() == port
  {
    var b := Put(a, name, inst);
    forall i | 0 <= i < |b|
      ensures FindDecl(decl, b[i].0).Some? && FindDecl(decl, b[i].0).value.IsPort() == port
    {
      assert Keys(b)[i] == b[i].0;
      assert b[i].0 in Keys(a) || b[i].0 == name;
    }
  }

  /** The entries of `a` whose item satisfies `keep`, in order. */
  function FilterItems(a: seq<(string, Item)>, keep: Item -> bool): (r: seq<(string, Item)>)
    ensures forall x :: x in r <==> x in a && keep(x.1)
    ensures IsSubsequence(r, a)
  {
    if |a| == 0 then []
    else if keep(a[0].1) then [a[0]] + FilterItems(a[1..], keep)
    else FilterItems(a[1..], keep)
  }

  /** `input_ports`: the instantiated input ports, in instantiation order. */
  function InputPorts(mi: ModuleInstance): (r: seq<(string, Item)>)
    ensures forall x :: x in r <==> x in mi.portInstances && x.1.IsInputPort()
    ensures IsSubsequence(r, mi.portInstances)
  {
    FilterItems(mi.portInstances, (item: Item) => item.IsInputPort())
  }

  /** `output_ports`: the instantiated output ports, in instantiation order. */
  function OutputPorts(mi: ModuleInstance): (r: seq<(string, Item)>)
    ensures forall x :: x in r <==> x in mi.portInstances && x.1.IsOutputPort()
    ensures IsSubsequence(r, mi.portInstances)
  {
    FilterItems(mi.portInstances, (item: Item) => item.IsOutputPort())
  }

  /** No port instance is both an input and an output. */
  lemma InputOutputDisjoint(mi: ModuleInstance)
    ensures forall x :: x in InputPorts(mi) ==> x !in OutputPorts(mi)
  {
  }
}
