# VeriXmith core, modelled in Dafny

VeriXmith tests hardware-design toolchains differentially. It translates one
Verilog design along several tool chains (yosys, Verilator, CXXRTL, KLEE,
sv2v, Surelog). It then checks that the results are equivalent, and it
mutates designs in ways that keep their meaning. The tools themselves run as
subprocesses. Underneath that plumbing sit deterministic pieces, and this
project models them and proves their properties:

- **Byte-level mutation engine** (`core/mutators/heuristics.py`), in
  `Heuristics`, `Splice` and `MutationPlans`:
  - the batch `BytesEditor` and the `ByteCoverage` mask;
  - `calculate_point` and the mutant score;
  - Verilog number and range parsing, per-bit assignments and array
    references;
  - the non-overlap filter of `MakeFunction` and the renaming bound of
    `DuplicateModule`.
- **Name encoding and memory layout** (`core/ir/crossbar.py`), in
  `Crossbar`:
  - Verilator name splitting and merging;
  - CXXRTL name mangling;
  - the KLEE atom layout of `to_data`;
  - the de-duplication in `YosysCxxCrossbar.preprocess`.
- **Circuit IR** (`core/ir/item.py`, `module.py`, `view.py`), in `Items`,
  `ModuleIR` and `View`:
  - items and element registration;
  - module declarations and instances;
  - top-module detection;
  - the module-instance tree with its views and `match_path`.
- **Translation framework and cross-check bookkeeping**
  (`core/translators/translator.py`, `core/api.py`), in `Translator`, `Api`
  and `Combinatorics`:
  - option counting and instance enumeration by k-combinations;
  - `Conversion.apply_to`;
  - regression indices and compilation-space sampling;
  - the equivalence-class partition of a cross-check.
- **SMT comparator scaffolding** (`core/circuits/smt.py`), in `Smt`: width
  alignment, constant pinning, common paths, pairwise chaining and the query
  asserted before the solver runs.
- **Symbolic-main handshake**, in `SymExecMain` and `VerilatorLl`:
  - Verilator's `--sym-exec-main` emitter
    (`dependencies/verilator/src/V3EmitCSymExecMain.cpp`);
  - its consumer, `parse_cpp_main` and `parse_ll` in
    `core/translators/verilator.py`.
  The two are connected by `SymExecMain.Handshake`: parsing the emitted
  `main`, with whatever indentation the output formatter adds to its
  lines, recovers exactly the variables the emitter announced.
- **Comment splicing and yosys renaming** (`core/thirdparty.py`), in
  `ThirdParty`.
- **Triage tool** (`tools/triage/__main__.py`), in `Triage`: the predicate
  language and the naming of difference categories.

`Wrappers`, `Seqs`, `Strings`, `Assoc`, `Sorting`, `StringOrder` and
`Combinatorics` are foundations that model Python built-ins. Their
counterparts are:

| module | Python built-ins |
|---|---|
| `Wrappers` | exceptions as `Result` |
| `Seqs` | slicing |
| `Strings` | `str.find`, `split`, `join` and `replace`, decimal printing |
| `Assoc` | insertion-ordered `dict` |
| `Sorting` | stable `sorted(key=...)` |
| `StringOrder` | `sorted` over `str` |
| `Combinatorics` | `itertools.product` and `combinations` |

Python exceptions are `Result.Err` values with the exception's class, so
every error path the source takes is a value the contracts talk about.

## Model

| member | source | states |
|---|---|---|
| Heuristics.NewEditor | core/mutators/heuristics.py:77-83 | Building an editor fails with IndexError on an empty batch and with AssertionError when two sorted neighbours overlap; for in-range replacements it succeeds exactly when the batch is non-empty and no two replacements clash, and then `start_byte`/`end_byte` are the least start and the greatest end |
| Heuristics.SortedCheck | core/mutators/heuristics.py:78-81 | For in-range replacements, the neighbour check on the (start, end)-sorted batch passes exactly when no two replacements of the original batch overlap |
| Heuristics.CheckIsNoClash | core/mutators/heuristics.py:80-81 | On a sorted batch of well-formed intervals, checking only adjacent pairs is equivalent to checking every pair |
| Heuristics.ApplyEditor | core/mutators/heuristics.py:93-110 | `apply` clears the batch and keeps `start_byte` |
| Heuristics.ApplyEffect | core/mutators/heuristics.py:93-109 | After building and applying an editor, the data length and `end_byte` both move by the sum of (len(substitute) - (end - start)); bytes before `start_byte` and after the old `end_byte` are kept |
| Heuristics.DeltaPermutation | core/mutators/heuristics.py:79 | The net change in length depends only on which replacements are in the batch, not on their order, so sorting does not change it |
| Heuristics.ApplyTwice | core/mutators/heuristics.py:97-110 | Applying a second time changes neither data nor `end_byte` (idempotence, because the batch is cleared) |
| Heuristics.RFind | core/mutators/heuristics.py:74 | `rfind(b'\n', 0, off)` gives the last newline index below the bound, or -1 when there is none |
| Heuristics.CalculatePoint | core/mutators/heuristics.py:70-75 | The line is the number of newlines in `data[0:offset]`; the column counts back from `offset` to just after the last newline before it, or is `offset` when there is none |
| Heuristics.CalculatePointIsWalk | core/mutators/heuristics.py:70-75 | Inside the data, `calculate_point` agrees with an independent byte-by-byte walk that starts a new line at every newline |
| Heuristics.NewCoverage | core/mutators/heuristics.py:39-40 | A fresh coverage mask has one uncovered entry per byte of `[start_byte, end_byte)` |
| Heuristics.UpdateEffect | core/mutators/heuristics.py:49-61 | For a sorted, non-overlapping, in-range batch, `update` keeps the mask length, marks every replaced position as covered and leaves every other entry as it was |
| Heuristics.QueryPredictsUpdate | core/mutators/heuristics.py:42-47 | The first factor of `query` is exactly the number of entries `update` would newly cover plus the batch's change in length; the second is the number already covered |
| Heuristics.Score | core/mutators/heuristics.py:121-123 | A candidate's score is the priority term alone on an untouched mask; for disjoint replacements it is the priority term plus (bytes newly covered by applying them + their net length change) times the bytes already covered |
| Splice.ApplyOne | core/mutators/heuristics.py:96-104 | One replacement: the bytes before the interval are kept, the substitute follows, then the bytes after the interval |
| Splice.ApplyIsSequential | core/mutators/heuristics.py:96-104 | Splicing all remainders and substitutes in one pass gives the same bytes as applying the replacements one at a time, from the last to the first |
| Splice.ApplyLength | core/mutators/heuristics.py:96-106 | The spliced data is longer than the original by exactly the batch's net change |
| Splice.ApplyKeepsOutside | core/mutators/heuristics.py:96-107 | Bytes before the first interval and after the last are kept, and the last substitute ends the net change away from where the last interval ended |
| Splice.CoverageCount | core/mutators/heuristics.py:49-61 | Updating a mask keeps its length and raises the covered count by exactly the number of uncovered entries inside the intervals |
| Splice.CoverageAt | core/mutators/heuristics.py:49-61 | After an update each entry is covered iff it was covered before or lies inside some interval |
| MutationPlans.ParseNumber | core/mutators/heuristics.py:285-300 | `parse_number` fails only with NotImplementedError, and only accepts text that, with its outer parentheses stripped, is non-empty and made of literal characters |
| MutationPlans.ParseUnsignedRoundTrip | core/mutators/heuristics.py:285-290 | The decimal text `str(n)` parses back to `n` |
| MutationPlans.ParseBasedRoundTrip | core/mutators/heuristics.py:285-298 | A based literal `<size>'[s]<b><digits of n in base b>` (binary, octal, decimal or hex) parses back to `n` |
| MutationPlans.RangeOf | core/mutators/heuristics.py:274-280 | `_range_of` succeeds only when the type text holds exactly one `[msb:lsb]` match and returns its two groups; otherwise NotImplementedError |
| MutationPlans.RangeOfSingle | core/mutators/heuristics.py:274-280 | A type `pre[msb:lsb]post` with a single range yields that (msb, lsb) |
| MutationPlans.RangeOfScalar | core/mutators/heuristics.py:274-280 | A scalar type with no `[` raises NotImplementedError |
| MutationPlans.RangeOfTwoLines | core/mutators/heuristics.py:274-280 | Two ranges on separate lines raise NotImplementedError |
| MutationPlans.ShapeOf | core/mutators/heuristics.py:283-303 | `_shape_of` returns the parsed msb and lsb of the single range, and fails with NotImplementedError when the range or either number does not parse |
| MutationPlans.BitAssignmentsLines | core/mutators/heuristics.py:504-519 | Split on newlines, `make_bit_assignments` gives one line per bit from min(msb, lsb) to max(msb, lsb) in increasing order, each the remainders with that index inserted; a non-blocking assignment is wrapped in `begin`/`end` lines |
| MutationPlans.BitLines | core/mutators/heuristics.py:512-517 | There is one line per bit of `lo ..= hi`, and line k carries index `lo + k` |
| MutationPlans.Shuffle | core/mutators/heuristics.py:656 | `shuffle` with the random draws as a parameter returns a permutation of its input |
| MutationPlans.CompleteRefCovers | core/mutators/heuristics.py:653-657 | `complete_ref` names every cell exactly once: an index tuple appears iff it has one index per dimension within `0 ..= s`, there are no repeats, and there are the product of (s + 1) of them, whatever the shuffle |
| MutationPlans.DeclaredRanges | core/mutators/heuristics.py:659-661 | Each dimension of size s is declared `[0:s]` or `[s:0]`, as the random choice says |
| MutationPlans.CompleteRefInDeclaration | core/mutators/heuristics.py:653-661 | Every index used by `complete_ref` lies inside the declared range of its dimension, whichever way round that range is written |
| MutationPlans.DeclarationShapeRoundTrip | core/mutators/heuristics.py:283-303 | A one-dimensional declaration suffix reads back through `_shape_of` as the range it declares |
| MutationPlans.ToBeReplaced | core/mutators/heuristics.py:704-714 | `to_be_replaced` returns a sub-multiset of the sample, namely the nodes the start-ordered scan keeps |
| MutationPlans.Scan | core/mutators/heuristics.py:708-713 | The scan splits the sorted sample into kept and dropped nodes, losing none |
| MutationPlans.ToBeReplacedApart | core/mutators/heuristics.py:704-714 | No two expressions kept for replacement overlap |
| MutationPlans.ToBeReplacedDrops | core/mutators/heuristics.py:709-713 | Every node dropped from the sample starts inside a kept node that starts no later |
| MutationPlans.ReplaceInstantiations | core/mutators/heuristics.py:768-781 | Fewer than two instantiations raise NotImplementedError; otherwise between 1 and n-1 instantiations are renamed, each replacement covers its module-name node, and at least one instantiation keeps the old name |
| Crossbar.SplitName | core/ir/crossbar.py:128-136 | A name that, after `__024` is decoded to `$`, holds no `__DOT__` is returned as a one-element list (a top-module port) |
| Crossbar.Merge | core/ir/crossbar.py:138-148 | The merged name never holds `$`; outside the top-port case it holds no `[` or `]` either; the caller's list gains the item (the in-place append) except in the top-port case |
| Crossbar.EscapeName | core/ir/crossbar.py:251-253 | `escape_name` leaves no `$` and agrees with `merge` on a top-module port |
| Crossbar.MergeSplit | core/ir/crossbar.py:128-148 | For plain tags and item names, `split(merge(tags, item, is_port))` gives back `tags + [item]`, or just `[item]` for a port of the top module |
| Crossbar.MergeSplitNeedsPlainNames | core/ir/crossbar.py:128-148 | Names free of the four encoded tokens are not enough for the round trip: merging `["top", "BRA"]` with `x` splits back as a single name |
| Crossbar.MangleName | core/ir/crossbar.py:282 | The mangled name holds no `$` |
| Crossbar.MangleRoundTrip | core/ir/crossbar.py:282 | Mangling is injective: an independent demangler reads the original name back |
| Crossbar.MangleLength | core/ir/crossbar.py:282 | The mangled length is `len + count('_') + 3 * count('$')` |
| Crossbar.ToAtoms | core/ir/crossbar.py:182-210 | `to_data(split=True)` for one item: a compound item gives `capacity` elements of `bytes // capacity` bytes, each one atom at `offset + k * element_bytes` when narrower than 8 bytes and otherwise 4-byte words at +4 steps named by a running index; a wide primitive gives `bytes // 4` words; a narrow primitive one atom with its own offset and size; a missing attribute is AttributeError and zero capacity ZeroDivisionError |
| Crossbar.AtomsWithin | core/ir/crossbar.py:182-210 | Every atom lies within `[offset, offset + bytes)` of its item |
| Crossbar.AtomsInOrder | core/ir/crossbar.py:182-210 | Atoms follow each other in memory without overlapping |
| Crossbar.AtomNamesDistinct | core/ir/crossbar.py:186-207 | No two atoms of one item share a name |
| Crossbar.AccessorGroups | core/ir/crossbar.py:212-246 | `to_data(split=False)` as written: the accessor groups are exactly the atoms, in order, cut into consecutive groups |
| Crossbar.AccessorGroupsAsWritten | core/ir/crossbar.py:239-242 | For an array of wide elements, grouping by `capacity` yields one accessor per word of an element rather than one per element |
| Crossbar.AccessorGroupsMixElements | core/ir/crossbar.py:239-242 | Two 12-byte elements: the second accessor as written joins the last word of element 0 to the first word of element 1 |
| Crossbar.ElementAccessorGroups | core/ir/crossbar.py:221-242 | The intended grouping: the groups still flatten to the atoms, and for wide elements there is one group per element holding exactly that element's words |
| Crossbar.ImplItemSpec | core/ir/crossbar.py:312-333 | A debug item resolves iff exactly one path below the top module matches; then the C++ name is the merge of the tags on the path with the declaration's name, the array size is the declaration's capacity (or 1), and `is_symbolic` is writable-and-non-output and (register or port) |
| Crossbar.ImplItem | core/ir/crossbar.py:299-333 | Failures are ValueError; a resolved item keeps the origin name (the debug name with a trailing `[i]` dropped) and the debug width |
| Crossbar.PreprocessCons | core/ir/crossbar.py:292-333 | The first item with a new origin name is emitted before whatever the loop yields for the rest |
| Crossbar.Preprocess | core/ir/crossbar.py:285-335 | `preprocess` emits each origin name at most once, exactly the origin names of the input, each item produced from some debug item, and fails only with ValueError |
| Items.ParseDirection | core/ir/item.py:12-26 | An enum passes through and None stays None; `'input'`, `'output'` and `'inout'` map to their directions and any other string yields None; a value of any other type raises ValueError |
| Items.NewPrimitive | core/ir/item.py:74-84 | The constructor keeps name, width, reg-ness and attributes, stores the parsed direction, fails only where parsing the direction does, and the item is a port iff that direction is present |
| Items.NewInstance | core/ir/item.py:108-110 | `new_instance` keeps name, reg-ness, port-ness, width and direction (or element width and indices) and attaches the attributes, so the result is an instance; on a compound instance it fails with AssertionError exactly when the attributes differ |
| Items.GetAttr | core/ir/item.py:86-91 | Attribute lookup returns the instance attribute when it is set and raises AttributeError otherwise, including on a declaration |
| Items.RegisterElement | core/ir/item.py:124-152 | `register_element` creates the compound item on the first element; it raises ValueError on a reg-ness mismatch, a width mismatch or a repeated index; otherwise it adds exactly the new index, so the capacity grows by one, and leaves every other item of the module alone |
| Items.RegisterAllCapacity | core/ir/item.py:139-172 | Registering the elements of a new array succeeds iff they agree in kind and width and no index repeats; the capacity is then the number of elements registered |
| Items.ArrayElement | core/ir/item.py:122 | `ARRAY_ELEMENT.match`: the name is the longest printable prefix that a bracketed decimal index follows, and nothing is returned when no prefix is followed by one |
| Items.ArrayElementRoundTrip | core/ir/item.py:122 | The element name `name[i]` of a printable name is read back as `name` and `i` |
| Items.ParseKeyword | core/ir/item.py:19-24 | Each direction keyword parses back to its direction |
| Items.NewInstanceIdempotent | core/ir/item.py:208-211 | Instantiating an already instantiated compound item with the same attributes returns it unchanged |
| Items.InstanceAttr | core/ir/item.py:86-91 | On an instance, attribute lookup returns the attached value for a set name and raises AttributeError otherwise |
| Items.FitsIff | core/ir/item.py:139-152 | A run of elements registers without error iff all agree on reg-ness and width and their indices are distinct and new |
| Items.ElementIndex | core/ir/item.py:122 | A net named `name[digits]` yields the decimal value of its digits as the element index |
| ModuleIR.RegistersByModuleSpec | core/ir/module.py:9-21 | The captures are ordered by start offset, a module name first at a tie (a sorted permutation), and a register name is filed under a module iff the last `module-id` capture before it names that module |
| ModuleIR.PortItems | core/ir/module.py:76-80 | Ports are non-register primitive items, one per port name, named by it |
| ModuleIR.Submodules | core/ir/module.py:102-106 | The submodules are exactly the visible cells, as (instance name, module type) |
| ModuleIR.DeclareModule | core/ir/module.py:70-111 | A module with memories raises NotImplementedError; otherwise declaring it succeeds iff building its internals does, and keeps its name, ports and visible cells |
| ModuleIR.DeclareModulePrimitives | core/ir/module.py:88-99 | The primitive internals are exactly the visible nets that are not ports and not array elements (unless an array of the same name takes the name over) |
| ModuleIR.DeclareModuleArrays | core/ir/module.py:88-99 | The compound internals are exactly the arrays with a visible non-port element, and every such element's index is among its array's indices |
| ModuleIR.DeclareAll | core/ir/module.py:70-111 | The design holds every module of the netlist, each under its own name with its own declaration, and fails iff some module fails to declare |
| ModuleIR.ParseVerilog | core/ir/module.py:113-118 | The returned top declaration is the design's entry for its name |
| ModuleIR.ParseVerilogAccepts | core/ir/module.py:68-118 | Parsing succeeds iff every module declares without error and exactly one declared module is never used as a submodule type |
| ModuleIR.ParseVerilogNoMemories | core/ir/module.py:72-73 | No module of a parsed netlist has memories |
| ModuleIR.ParseVerilogTop | core/ir/module.py:113-118 | The returned module is declared and never instantiated, and every other declared module is instantiated somewhere |
| ModuleIR.NewModuleInstance | core/ir/module.py:155-158 | A fresh instance has nothing instantiated: every lookup reports not found with the name's declaration |
| ModuleIR.FindDecl | core/ir/module.py:177-186 | `find_decl` prefers internals over ports and returns None when neither declares the name |
| ModuleIR.FindInstance | core/ir/module.py:164-175 | `find_instance` fails iff the name is neither an instantiated internal nor an instantiated port, and then carries the `find_decl` result |
| ModuleIR.InstantiateItem | core/ir/module.py:208-219 | An undeclared name is a ValueError; a repeat for an internal primitive is a ValueError and a repeat for a compound changes nothing; a port is always (re)instantiated; otherwise it fails only where `new_instance` does |
| ModuleIR.InstantiateFind | core/ir/module.py:208-215 | After instantiating, the name finds the new instance of its declaration (a port's overwrites any earlier one), every other name finds what it found before, and the instance stays consistent |
| ModuleIR.InputPorts | core/ir/module.py:188-192 | `input_ports` yields exactly the instantiated input ports, in instantiation order |
| ModuleIR.OutputPorts | core/ir/module.py:194-198 | `output_ports` yields exactly the instantiated output ports, in instantiation order |
| ModuleIR.InstantiatePort | core/ir/module.py:212-213 | (Re)instantiating a port keeps the instance consistent, makes the port found as the new instance, and leaves every other name's lookup as it was |
| ModuleIR.InstantiateInternal | core/ir/module.py:214-215 | Instantiating an internal item keeps the instance consistent, makes it found, and leaves every other name's lookup as it was |
| ModuleIR.PortNotInternal | core/ir/module.py:211-215 | In a consistent instance a name declared as a port is never among the instantiated internals |
| ModuleIR.PortKeepsOthers | core/ir/module.py:213 | Storing a port instance changes no other name's lookup |
| ModuleIR.InternalKeepsOthers | core/ir/module.py:215 | Storing an internal instance changes no other name's lookup |
| View.Children | core/ir/view.py:32-38 | The children of a node are one per submodule instance, in declaration order, each tagged by its instance name and holding a fresh instance of its module; a submodule whose module is not in the design is an AttributeError |
| View.FromModuleDecl | core/ir/view.py:19-40 | The tree is well formed, its root is tagged with the top module's name (so `top_module` returns it) and holds a fresh instance of it, and the nodes are laid out breadth-first with each node's children created from its submodule instances |
| View.EveryNodeIsAChild | core/ir/view.py:28-38 | Every node other than the root is the child created for one of its parent's submodule instances |
| View.PathNodes | core/ir/view.py:45-54 | `view[path]` raises ValueError for an unknown node; otherwise it returns the chain from the root down to the addressed node |
| View.ChainUnique | core/ir/view.py:51 | The root-to-node chain is unique: any downward path from the root that ends at a node is that node's chain |
| View.ViewInternalsSpec | core/ir/view.py:70-75 | The internals of the view are exactly the internal instances of every node, each under its node's path |
| View.InternalRegisters | core/ir/view.py:85-88 | `internal_registers` yields exactly the internals that are registers, in order |
| View.InternalWires | core/ir/view.py:90-92 | `internal_wires` yields exactly the internals that are not registers, in order |
| View.RegistersWiresPartition | core/ir/view.py:85-92 | Registers and wires partition the internals, counting repeats |
| View.AllItemsSpec | core/ir/view.py:60-83 | Input and output ports are only the root module's port instances of that direction, and every item of the view is such a port or an internal instance of some node |
| View.CombinationInputs | core/ir/view.py:104-110 | `combination_inputs` holds exactly the input ports and the internal registers |
| View.CombinationOutputs | core/ir/view.py:112-118 | `combination_outputs` holds exactly the output ports and the internal registers |
| View.ViewInstantiate | core/ir/view.py:134-137 | Instantiating through the view is a ValueError for an unknown node; otherwise the last node on the path instantiates the item and nothing else in the tree changes |
| View.MatchPath | core/ir/view.py:142-143 | Fewer than two tokens cannot be unpacked: ValueError |
| View.MatchPathSpec | core/ir/view.py:142-152 | The yielded paths are exactly those to the item in a node tagged with the second-to-last token that declares it, reached from a node tagged with the first head through children tagged with the following heads |
| Translator.DefaultOption | core/translators/translator.py:12-14 | The default domain is the single value None, so such an option counts 2 alternatives: absent, or None |
| Translator.Count | core/translators/translator.py:19-20 | `count` is the number of ways the option can appear on a command line: absent, or with one value of its domain |
| Translator.Sample | core/translators/translator.py:16-17 | `sample` formats the template with some element of the domain, and an empty domain raises IndexError |
| Translator.SampleAll | core/translators/translator.py:48 | One sample per option, in option order; it raises IndexError iff some option has an empty domain |
| Translator.DefineTranslator | core/translators/translator.py:29-33 | Defining a subclass with empty or unset `edges` raises ValueError; otherwise the class keeps its name, options and edges |
| Translator.AllInstances | core/translators/translator.py:50-51 | A translator without options yields exactly one instance, without a policy |
| Translator.AllInstancesError | core/translators/translator.py:44-49 | `all_instances` raises IndexError iff `max_op` is positive and some option has an empty domain |
| Translator.AllInstancesCount | core/translators/translator.py:44-49 | With n > 0 options the number of instances is C(n,0) + ... + C(n,max_op-1), and never more than 2^n |
| Translator.AllInstancesShape | core/translators/translator.py:46-49 | Each instance carries fewer than `max_op` extra arguments, an order-preserving subsequence of one sample per option |
| Translator.InstanceCount | core/translators/translator.py:53-55 | `instance_count` is at least 1 |
| Translator.InstanceCountConfigurations | core/translators/translator.py:53-55 | `instance_count`, the product of the option counts (1 with none), equals the number of command-line configurations choosing one alternative per option |
| Translator.ApplyTo | core/translators/translator.py:67-70 | An empty chain returns the circuit unchanged |
| Translator.ApplyToConcat | core/translators/translator.py:67-70 | `apply_to` is a left-to-right fold: applying `a + b` is applying `a` and then `b` to its result, and a failure stops the chain |
| Translator.ApplyToSingle | core/translators/translator.py:67-70 | A chain of one translator is that translator's `translate` |
| Combinatorics.ProductMember | core/api.py:84-86 | A tuple is in `itertools.product` iff it picks one element from each domain, in domain order |
| Combinatorics.ProductDistinct | core/api.py:84-86 | Domains without repeats give a product without repeated tuples |
| Combinatorics.CombinationsAreSubsequences | core/translators/translator.py:48 | Every `itertools.combinations(xs, k)` result keeps k elements of `xs` in their original order |
| Api.Padded | core/api.py:48-49 | The six-wide zero-padded index is a digit string whose value is the index, exactly max(6, number of digits of the index) characters long |
| Api.NamesDistinct | core/api.py:48-49 | Distinct indices give distinct input and strategy file names |
| Api.RegressionIndices | core/api.py:47-52 | The submitted indices are 1, 2, ... in order, each with both files present, and the first index after them lacks the input or the strategy file |
| Api.RegressionIndicesUnique | core/api.py:47-52 | Those two conditions determine the submitted run: it is the longest prefix of 1, 2, ... with both files present |
| Api.Conversions | core/api.py:82-85 | The compilation space holds, for each path, the product of its translators' instance counts |
| Api.ConversionsMember | core/api.py:82-85 | A conversion is in the space iff it follows some path, taking one instance of each of its translators in turn |
| Api.SampleWithout | core/api.py:87 | `random.sample` with the drawn positions as a parameter: a negative or too large k raises ValueError; otherwise k elements of the population at the drawn positions |
| Api.SampleWithoutDistinct | core/api.py:87 | Sampling without replacement from distinct elements draws distinct elements |
| Api.SampleCompilationSpace | core/api.py:76-87 | Source types other than Verilog and SystemVerilog raise ValueError, as does a sample size `random.sample` rejects; otherwise each input file gets `n_samples` conversions of the space |
| Api.FirstEquivalent | core/api.py:146-157 | The scan over pivots stops at the first one, in creation order, that reports equivalence; a raised check counts as not equivalent |
| Api.SaveCrossCheck | core/api.py:162 | Results are saved only when there is more than one class |
| Api.CheckValid | core/api.py:139-141 | The valid conversions are exactly those whose `convert` returns a circuit, drawn from the input, and there are classes iff there are valid conversions |
| Api.CheckPartition | core/api.py:139-160 | The classes partition the valid conversions: together they hold each valid conversion exactly as often as it occurs |
| Api.CheckFounded | core/api.py:143-160 | Every member of a class other than its pivot was reported equivalent to that pivot and to no earlier pivot, and every pivot was reported equivalent to no earlier pivot (an oracle failure counting as not equivalent) |
| Api.CheckFirstPivot | core/api.py:143-144 | The first valid conversion founds the first class |
| Api.CheckSaved | core/api.py:146-171 | When results are saved the first two pivots were not reported equivalent; with a single class every later valid conversion was reported equivalent to the first |
| Smt.ToBv | core/circuits/smt.py:184 | `bool_to_bv` turns a boolean into a 1-bit vector that reads 1 exactly when the boolean holds, and keeps a bit-vector as it is |
| Smt.AlignWidth | core/circuits/smt.py:180-192 | Both results have width max(w1, w2) and keep their operand's value; equal widths are untouched and the narrower operand is zero-extended by the difference |
| Smt.AlignedEquation | core/circuits/smt.py:235-238 | The aligned equation holds exactly when the two operands carry the same value |
| Smt.ConcretizeAsWritten | core/circuits/smt.py:194-202 | `concretize` as written: a constant of the operand's width; a non-zero value outside [0, 2^w) fails the assertion; None and also 0 give the random value |
| Smt.ConcretizeIgnoresZero | core/circuits/smt.py:198 | Asking to pin a 1-bit signal to 0 pins it to the random value 1 instead |
| Smt.Concretize | core/circuits/smt.py:194-202 | The corrected `concretize`: a constant of the operand's width carrying the given value (0 included) or, when none is given, the random one; an out-of-range value fails |
| Smt.ConcretizeAgrees | core/circuits/smt.py:194-202 | The corrected and the as-written `concretize` agree on every request except the value 0 |
| Smt.CommonPaths | core/circuits/smt.py:224-233 | `_get_common_paths` yields a path iff it is in either circuit's view (the circuit's own paths when both sides are one circuit) |
| Smt.CommonPathsNotIntersection | core/circuits/smt.py:224-233 | A path present in one circuit only is still compared, although the docstring promises an intersection |
| Smt.AlignVariables | core/circuits/smt.py:204-222 | `_align_variables` fails iff some path has two value lists of different lengths; it skips paths where neither side has a length and keeps every path where both do |
| Smt.AlwaysEqualMeaning | core/circuits/smt.py:235-238 | The equations of `always_equal` all hold exactly when every compared pair of values agrees |
| Smt.Pin | core/circuits/smt.py:194-202 | The pin of an operand is a constant carrying the requested value or, when none is given (or, as written, 0 is given), the random one; it fails iff a value that is used lies outside [0, 2^w) |
| Smt.PinZero | core/circuits/smt.py:240-246 | Asking `equal_to_specific_value` for 0: as written the pinned equation demands the random value on the right side, corrected it demands 0 |
| Smt.PinEquation | core/circuits/smt.py:240-246 | An equation with a constant side is kept as it is; otherwise it is conjoined with a pin of its left side, failing only where `concretize` does; as written or corrected, as the flag says |
| Smt.PinEquationMeaning | core/circuits/smt.py:240-246 | A pinned equation implies the original one, and beyond it demands exactly that the right side carries the pinned value: the random one for a value of 0 as written, the requested one when corrected |
| Smt.EqualToSpecificValue | core/circuits/smt.py:240-246 | `equal_to_specific_value` is the pinned equation of each equation, in order, and fails only where one of them does |
| Smt.PinnedImplyEquations | core/circuits/smt.py:240-246 | The pinned equations imply the equations they came from |
| Smt.Pairwise | core/circuits/smt.py:262-265 | Fewer than two comparees raise ValueError; otherwise one comparator per adjacent pair, n - 1 in all |
| Smt.PairwiseChains | core/circuits/smt.py:262-269 | Equality along every adjacent pair makes all comparees agree |
| Smt.Query | core/circuits/smt.py:69-78 | Two or more partial circuits raise NotImplementedError |
| Smt.QueryFull | core/circuits/smt.py:71-72 | Without partial circuits the assertion, the negation of all adjacent Iffs, is satisfied exactly when two transformations disagree |
| Smt.QueryPartial | core/circuits/smt.py:75-78 | With one partial circuit the assertion is satisfied exactly when the partial transformation holds and some other one does not |
| Smt.IsEquivalentTo | core/circuits/smt.py:54-152 | The case split comes first, so two partial circuits raise NotImplementedError before fewer than two comparees raise ValueError; otherwise the result is `not sat` |
| VerilatorLl.VarDefName | core/translators/verilator.py:149-150 | A line matches only when, after leading whitespace, it is `// - "name"` and a newline, and the name captured is that word |
| VerilatorLl.MarkerLine | core/translators/verilator.py:149-150 | A marker line for a word names exactly that word |
| VerilatorLl.ParseCppMain | core/translators/verilator.py:143-152 | `parse_cpp_main` returns at most one name per line, each a word |
| VerilatorLl.ToBytes | core/translators/verilator.py:171-172 | `>> 3` converts bits to whole bytes, rounding down |
| VerilatorLl.ScanCollecting | core/translators/verilator.py:164-167 | Collecting is on iff the top module's DIFile record has been read; nothing turns it off |
| VerilatorLl.ScanBase | core/translators/verilator.py:175-176 | The base offset comes from the last `TOP` record with an align field, and is missing iff there is none |
| VerilatorLl.ScanMembers | core/translators/verilator.py:178-180 | A name is recorded iff it is listed in `variables` and some record of it was read while collecting |
| VerilatorLl.ScanFirstWins | core/translators/verilator.py:179-180 | The first collected record of a listed name is the one kept |
| VerilatorLl.ParseLl | core/translators/verilator.py:154-186 | `parse_ll` fails only with RuntimeError, and its keys are among `variables` |
| VerilatorLl.ParseLlMeaning | core/translators/verilator.py:154-186 | RuntimeError iff no base offset was found or it is 0; otherwise a name maps to an entry iff it is listed and was read while collecting, and the entry is the first such record's byte size with its byte offset plus the base offset (a missing offset counting as 0) |
| VerilatorLl.ZeroBaseRejected | core/translators/verilator.py:182-183 | A base offset of 0, as when `TOP` sits at the start of the root object, is rejected like a missing one |
| VerilatorLl.ParseLlError | core/translators/verilator.py:175-183 | `parse_ll` raises RuntimeError iff no record is `TOP` with an align field, or the last such record has byte offset 0 |
| VerilatorLl.ParseLlNames | core/translators/verilator.py:179-180 | The result's keys are exactly the listed variables that have a record while collecting |
| VerilatorLl.ParseLlEntries | core/translators/verilator.py:179-186 | The first collected record of a listed variable gives its entry: its size in bytes and its local offset plus the offset of the last `TOP` record |
| SymExecMain.RoleOf | dependencies/verilator/src/V3EmitCSymExecMain.cpp:38-53 | Only signals are collected; a used clock is a clock; a primary IO that is not non-output is an output port, and that holds exactly then; a symbolic variable is neither hidden nor function-local, and when it is primary IO or a net it is input-ish |
| SymExecMain.Classify | dependencies/verilator/src/V3EmitCSymExecMain.cpp:38-53 | A reset variable lands in the symbolic, output or clock set exactly when its role says so, and the three sets are pairwise disjoint |
| SymExecMain.Words | dependencies/verilator/src/V3EmitCSymExecMain.cpp:160 | The number of 32-bit words of a value is the least count whose 32 bits each cover its width |
| SymExecMain.ScalarType | dependencies/verilator/src/V3EmitCSymExecMain.cpp:170-173 | A narrow value gets a C scalar type (never `EData`) wide enough for its width and, above `CData`, no more than twice too wide |
| SymExecMain.NeedsAssume | dependencies/verilator/src/V3EmitCSymExecMain.cpp:97-101 | For a scalar of width 1 to 64 the `klee_assume` bound is emitted exactly when the width is below the bits of its C type, i.e. not 8, 16, 32 or 64 |
| SymExecMain.ScalarBoundAgrees | dependencies/verilator/src/V3EmitCSymExecMain.cpp:97-101 | For scalars the source's width test and the corrected one emit the same bound |
| SymExecMain.MadeSymbolic | dependencies/verilator/src/V3EmitCSymExecMain.cpp:73-108 | `emitVarMadeSymbolic` opens and closes a block, makes exactly one object symbolic, allocates a name buffer iff the suffix is non-empty, names the object `name` or `name_<offset value>`, bounds it iff the width needs it, and stores the temporary into `name + suffix` |
| SymExecMain.OffsetInjective | dependencies/verilator/src/V3EmitCSymExecMain.cpp:142-146 | Two in-range mixed-radix offsets `(o)*n+i` with equal value have equal digits, so distinct loop positions give distinct object names |
| SymExecMain.WordWidth | dependencies/verilator/src/V3EmitCSymExecMain.cpp:162 | In the corrected reading every word of a wide value carries between 1 and 32 bits |
| SymExecMain.WideFrom | dependencies/verilator/src/V3EmitCSymExecMain.cpp:158-168 | A wide value emits one symbolic object per word from `w` on, and nothing once every word is done |
| SymExecMain.WideFromOffsets | dependencies/verilator/src/V3EmitCSymExecMain.cpp:163-166 | Every word's object name is the variable's name with an offset that adds one word digit below the loop offset |
| SymExecMain.WordWidthsCover | dependencies/verilator/src/V3EmitCSymExecMain.cpp:158-168 | The corrected word widths add up to exactly `widthMin`: 32 per full word, the remainder in the last |
| SymExecMain.WordsBoundedExactly | dependencies/verilator/src/V3EmitCSymExecMain.cpp:158-168 | With the corrected widths the words cover the value exactly and each word is bounded to its own width |
| SymExecMain.LastWordPinnedAsWritten | dependencies/verilator/src/V3EmitCSymExecMain.cpp:162 | As written, when `widthMin` is a multiple of 32 the last word gets width 0, is assumed below `1 << 0`, and the covered widths fall 32 short |
| SymExecMain.LastWordUnboundedAsWritten | dependencies/verilator/src/V3EmitCSymExecMain.cpp:162 | As written, a last word of 8 or 16 bits gets no bound at all, because those widths are exempt from `klee_assume` |
| SymExecMain.WideRegistersAsWritten | dependencies/verilator/src/V3EmitCSymExecMain.cpp:99-101 | Concrete witnesses: a 96-bit register's last word is pinned to 0 and a 72-bit register's last word is unbounded |
| SymExecMain.Recurse | dependencies/verilator/src/V3EmitCSymExecMain.cpp:110-181 | `emitVarMadeSymbolicRecurse` fails exactly on a reversed unpacked range or an unknown type, emits nothing iff the chain ends in a class, string or scheduler, otherwise makes one object (or one per word for a wide value) symbolic, each named after the variable with the loop digits as offset |
| SymExecMain.UniqueObjectNames | dependencies/verilator/src/V3EmitCSymExecMain.cpp:87-90 | Two object names formatted in one variable's code are equal only for the same offset with equal loop-index values, so KLEE objects are not named twice |
| SymExecMain.ClockLines | dependencies/verilator/src/V3EmitCSymExecMain.cpp:240-242 | One clock line per clock |
| SymExecMain.SymbolicCode | dependencies/verilator/src/V3EmitCSymExecMain.cpp:227-229 | Emitting the symbolic variables fails exactly when one of them hits an internal error |
| SymExecMain.EmitMain | dependencies/verilator/src/V3EmitCSymExecMain.cpp:184-267 | `emit` fails exactly when some symbolic variable hits an internal error |
| SymExecMain.InfosParse | dependencies/verilator/src/V3EmitCSymExecMain.cpp:63-67 | The marker comments for a list of variables parse back, in order, to their names |
| SymExecMain.Handshake | dependencies/verilator/src/V3EmitCSymExecMain.cpp:225-234 | Parsing the emitted main (`parse_cpp_main` in core/translators/verilator.py:143-152), whatever blanks precede its lines, recovers the symbolic variables' names followed by the output ports' names |
| SymExecMain.ParseIgnoresIndent | core/translators/verilator.py:143-152 | Leading blanks on the lines of a C++ file do not change what `parse_cpp_main` finds |
| VerilatorLl.VarDefNameIgnoresIndent | core/translators/verilator.py:149-150 | The marker pattern skips leading whitespace: an indented line yields the same name as the flush-left one |
| SymExecMain.SnapshotPlacement | dependencies/verilator/src/V3EmitCSymExecMain.cpp:236-259 | The file holds exactly two snapshots: the symbolic code lies before the first, the clock lines and one evaluation step lie between them, and no marker line follows the first |
| ThirdParty.SortPoints | core/thirdparty.py:127 | The insertion points are the captured register-declaration ends, ascending, none lost or added |
| ThirdParty.InsertCommentsOrderFree | core/thirdparty.py:126-131 | The output depends only on the multiset of captured ends, not on the order the query returns them |
| ThirdParty.Pieces | core/thirdparty.py:131 | `pairwise` over the bounds gives one slice fewer than there are bounds |
| ThirdParty.CommentRegisters | core/thirdparty.py:117-131 | When every captured end lies in the file, the output grows by the 25 bytes of `/*verilator public_flat*/` per captured register |
| ThirdParty.InsertLength | core/thirdparty.py:131 | Each inserted comment adds its own length and nothing else changes size |
| ThirdParty.CommentAt | core/thirdparty.py:131 | The comment for the `i`-th point `p` sits at `p + i * len(comment)` in the output |
| ThirdParty.ByteAt | core/thirdparty.py:131 | Every original byte survives, moved forward by one comment per point at or before it |
| ThirdParty.DuplicatesAdjacent | core/thirdparty.py:127-131 | A register end captured twice yields two comments back to back |
| ThirdParty.SlicesReassemble | core/thirdparty.py:131 | Joining the slices without a comment gives the original file back, so the slices cover the file with no gap or overlap |
| ThirdParty.Insertions | core/thirdparty.py:129-131 | One empty-interval insertion edit per point |
| ThirdParty.SplicedIsGather | core/thirdparty.py:131 | Joining slices with the comment is the one-pass splice of those insertion edits |
| ThirdParty.AsSpliced | core/thirdparty.py:131 | Ascending points inside the file fit the splice, and interleaving is that splice |
| ThirdParty.AsGather | core/thirdparty.py:129-131 | The insertion edits are pairwise disjoint and the interleaving is their one-pass application |
| ThirdParty.InterleaveIsSplice | core/thirdparty.py:129-131 | "Insert all at once" equals applying the edits in one pass and equals inserting them one at a time from the last point backwards |
| ThirdParty.Commands | core/thirdparty.py:67-68 | One rename command per module |
| ThirdParty.RenameCommands | core/thirdparty.py:67-68 | No modules give the empty script |
| ThirdParty.NewNameInjective | core/thirdparty.py:64-65 | Within one label, `new_name` maps distinct modules to distinct names and equal ones to equal names |
| ThirdParty.LabelsSeparate | core/thirdparty.py:64-65 | Two labels of the same length that differ never produce the same renamed module |
| ThirdParty.MiterTopsDiffer | core/thirdparty.py:70-73 | The miter's two tops, renamed under `a` and `b`, are always distinct |
| ThirdParty.CommandWords | core/thirdparty.py:68 | A rename command is the three words `rename`, the old name and the new name |
| ThirdParty.RenameScriptParses | core/thirdparty.py:67-68 | For names free of `;` and spaces, splitting the script on `; ` gives one command per module, in order, each renaming that module to its `new_name` |
| Triage.Make | tools/triage/__main__.py:34-46 | Building a predicate succeeds exactly for AND, OR, and NOT with one operand; an unknown operator raises NotImplementedError, and NOT with another arity raises ValueError |
| Triage.AndMeaning | tools/triage/__main__.py:36-38 | An AND predicate holds iff every operand holds, so with no operands it is true; it is false iff every operand evaluates and one is false |
| Triage.OrMeaning | tools/triage/__main__.py:39-40 | An OR predicate is false iff every operand is false, so with no operands it is false; it holds iff every operand evaluates and one holds |
| Triage.NotMeaning | tools/triage/__main__.py:41-44 | NOT with any number of operands other than one raises ValueError when built; with one it negates its operand and passes its error on |
| Triage.FirstErrorWins | tools/triage/__main__.py:48-50 | AND and OR evaluate every operand in order with no short cut, so the first operand that fails decides the error |
| Triage.LazyNestedError | tools/triage/__main__.py:49 | A malformed nested list does not stop the enclosing predicate from being built; its error surfaces only when the predicate is applied |
| Triage.InspectMeaning | tools/triage/__main__.py:26-31 | A report matches a rule iff every named file is present and satisfies its predicate; an empty rule matches every report |
| Triage.InspectMissing | tools/triage/__main__.py:30-31 | A missing file makes the report not match, unless an earlier entry already raised an error |
| Triage.LookupSound | tools/triage/__main__.py:112-118 | A transformer reported for a line is one of `TRANSFORMERS` and the line holds `name(` after its first character, with `})` after it unless it is `YosysWriteSmt2` |
| Triage.LookupAbsent | tools/triage/__main__.py:112-119 | A line with no `name(` after its first character yields `(None, ())` |
| Triage.Append | tools/triage/__main__.py:134 | Appending to a `defaultdict(list)` adds a new key at the end only when the transformer is new, and adds one occurrence |
| Triage.AppendRecords | tools/triage/__main__.py:134 | The occurrence goes at the end of its transformer's list, which starts empty for a new transformer |
| Triage.AppendKeepsOthers | tools/triage/__main__.py:134 | No other transformer's list changes |
| Triage.EquivalenceClasses | tools/triage/__main__.py:122-141 | Every class read is a well-formed map with distinct keys, and the only failure is TypeError |
| Triage.ClassesKeepOccurrences | tools/triage/__main__.py:127-136 | The classes hold exactly as many occurrences as the listing has transformer lines: none lost, none counted twice |
| Triage.OrphanIsTypeError | tools/triage/__main__.py:126-134 | Reading fails, with TypeError from indexing `None`, exactly when a transformer line precedes every line that opens a class |
| Triage.Minority | tools/triage/__main__.py:157 | The minority is one of the classes |
| Triage.FirstLightest | tools/triage/__main__.py:157 | The index of a class of least weight, every earlier class being strictly heavier |
| Triage.MinorityIsFirstLightest | tools/triage/__main__.py:157 | Python's sort is stable, so the minority class is the first class of least weight |
| Triage.SubOfLightest | tools/triage/__main__.py:156-162 | Outside the two-singleton case the sub-category is the sorted keys of the first lightest class joined by `-`, or, for a single transformer, its name followed by its arguments |
| Triage.TwoSingletons | tools/triage/__main__.py:154-155 | With exactly two one-transformer classes the sub-category equals the prime category, the two names in sorted order joined by `-` |
| Triage.PrimeIgnoresOrder | tools/triage/__main__.py:151 | The prime category does not depend on the order of the classes |
| Triage.PrimeLists | tools/triage/__main__.py:151 | When no name holds a `-`, the prime category splits back into every transformer of every class, sorted, duplicates kept |
| Triage.Categories | tools/triage/__main__.py:146-165 | The categories are exactly the names of the reports' equivalence classes, never more than the reports; any report whose classes cannot be built makes the whole run a TypeError |
| Triage.DiffClassifier | tools/triage/__main__.py:144-176 | `diff_classifier` counts the distinct category names of the reports, at most one per report, and fails iff some report's classes cannot be built |
| StringOrder.Sort | tools/triage/__main__.py:151 | `sorted` over strings returns an ascending permutation of its input |
| StringOrder.SortedUnique | tools/triage/__main__.py:151 | Two ascending lists with the same elements are equal, since the string order is total |
| StringOrder.SortByElements | tools/triage/__main__.py:151 | `sorted` depends only on the multiset of its input, not on its order |
| Sorting.SortBy | tools/triage/__main__.py:157 | `sorted(..., key=...)` returns a permutation of its input ordered by key |
| Sorting.SortByStable | tools/triage/__main__.py:157 | Python's sort is stable: elements with equal keys keep their relative order |

## Left out

- Subprocesses and external tools are not modelled: yosys, Verilator builds, wllvm, KLEE, iverilog, sv2v, z3 through pysmt. Their behaviour is what the system tests, and none of it is visible in the source. Where the core calls one, the result is a parameter: the translator chain in `Translator.ApplyTo`, the equivalence oracle `eq` in `Api`, and the solver's `sat` answer in `Smt.IsEquivalentTo`.
- Tree-sitter parsing and query matching are not modelled, and neither are the regular expressions (`VERILATOR_VAR_DEF`, `LL_DEBUG_INFO`, `LL_FILENAME`, the register captures). Tree-sitter matches arrive as `(start, end)` intervals or capture offsets, and `.ll` lines as pre-classified records. The marker comment `// - "name"` is the exception: it is matched character by character, because the emitter side produces it.
- Randomness is a parameter: `choice`, `sample`, `shuffle`, `getrandbits`, `randbelow` and the random constant of `concretize`. Contracts hold for every value of these parameters.
- The `eval` of the dict text in `get_extra_args` is a parameter `extra` from the text between the brackets to the argument tuple.
- Directory moves, `mkdir`, CSV and tar handling, and logging in the triage tool are left out; `Triage.Categories` returns the set of categories in place of moving directories. Reading files is replaced by a map from file names to contents, and an absent key plays FileNotFoundError.
- The `ProcessPoolExecutor` of `core/api.py` is left out, and so is every other form of concurrency. Work items are processed in order.
- Floating-point results are left out: the ratio returned by `ByteCoverage.update`, the percentage normalisation of `HeuristicMutator`, `ceil(log10)` in `make_replacements`, and the retain/drop loop of `HeuristicMutator.generate`.
- Semantic preservation of mutations is left out: stating it needs a Verilog semantics, and the system has none.
- `core/world.py` (a networkx graph), `core/workspace.py` (temporary directories), `tools/deploy`, `tools/adapter.py`, `tasks.py`, `core/mutators/mutator.py`, `core/mutators/others.py`, the circuit file wrappers in `core/circuits/`, and the option tables of `sv2v.py`, `surelog.py` and `verilator.py` are not part of this model.
- View.FromModuleDecl: the breadth-first construction carries a `fuel` bound on the number of nodes it expands. Running out gives RuntimeError. The source has no bound, so a design whose instance tree exceeds the fuel is not modelled.
- SymExecMain.EmitMain: the output file's generated header (`putsHeader`) and the `-DVL_TIME_CONTEXT` compiler flag are left out. The emitter iterates over `unordered_set`s, whose order is unspecified, so the model emits each class in the order of the list it is given. The contract states the error cases only; the layout of the file is stated by `SymExecMain.SnapshotPlacement` and `SymExecMain.Handshake`.
- SymExecMain.ClockLines: the contract gives only the line count. Each line's text is the definition itself.
- SymExecMain.SymbolicCode: the contract states the error cases only. What the code makes symbolic is stated per variable by `SymExecMain.Recurse`.
- Crossbar.MergeSplit: the round trip is proved for names that are non-empty, hold no `_`, `[` or `]`, do not start with a digit, and are not `BRA` or `KET`. That is stronger than "free of `__DOT__`, `__BRA__`, `__KET__` and `__024`". `Crossbar.MergeSplitNeedsPlainNames` shows why the weaker condition is not enough: a middle tag `BRA` merges into `top__DOT__BRA__DOT__x`, which splits into one name.
- Triage.LookupSound: states that a reported transformer really occurs in the line, not that it is the first of `TRANSFORMERS` to occur. The code narrows the line it searches once a name matched without a closing `})`, so a later name is then looked for only after that match (tools/triage/__main__.py:116). The model follows the code.
- Triage.EquivalenceClasses: a class is an insertion-ordered association list standing in for the `defaultdict`. The contract states well-formedness and the only error. What the classes contain is stated by `Triage.ClassesKeepOccurrences` and `Triage.OrphanIsTypeError`.
- ModuleIR.RegistersByModuleSpec: the source sorts a `set` of `(start_byte, text, label)` tuples; the model sorts the captures by start and then by label, and keeps duplicate captures. The orders agree because two captured identifiers with the same start are the same node; a repeated capture adds a name already present or selects the module already selected, so the map is the same.
- ModuleIR.DeclareModule: the internals are a `set` of items with identity hashing, and `{i.name: i for i in internals}` keeps whichever same-named item the set yields last. That order is unspecified, so when a net and an array share a name the model lets the array win.
- ThirdParty.CommentRegisters: states the output length. Where each comment and each original byte ends up is stated on the generic splice by `ThirdParty.CommentAt`, `ThirdParty.ByteAt` and `ThirdParty.SlicesReassemble`.

## Modelled as written

- `_get_common_paths` (core/circuits/smt.py:224-233) is documented as an intersection but computes a union. `Smt.CommonPaths` follows the code, and `Smt.CommonPathsNotIntersection` shows that a path known on one side only is kept.
- `parse_ll` (core/translators/verilator.py:182-183) tests `not base_offset`, so a `TOP` record at offset 0 is rejected like a missing one (`VerilatorLl.ZeroBaseRejected`). Whether offset 0 can occur depends on the compiler's layout, so this is not listed as a finding.
- `PortDirection.parse` (core/ir/item.py:18-24) returns None for an unknown string instead of raising (`Items.ParseDirection`).

## Findings

| source | as written | input that shows it | evidently intended | confidence | as-written member | corrected member |
|---|---|---|---|---|---|---|
| core/ir/crossbar.py:240-242 | the accessor functions of a wide array are grouped `capacity` at a time | two elements of 96 bits (24 bytes): six word accessors grouped by two, so the middle group joins the last word of element 0 with the first word of element 1 | one group per element, of `bytes // capacity // 4` words each | not executed | Crossbar.AccessorGroups, Crossbar.AccessorGroupsMixElements | Crossbar.ElementAccessorGroups |
| core/circuits/smt.py:198 | `if value:` treats a requested value 0 like no value | `concretize(x, 0)` on a 1-bit `x` can return the constant 1 | `if value is not None:`, so 0 pins the operand to 0 | not executed | Smt.ConcretizeAsWritten, Smt.ConcretizeIgnoresZero, Smt.PinZero | Smt.Concretize, Smt.ConcretizeAgrees, Smt.PinZero |
| dependencies/verilator/src/V3EmitCSymExecMain.cpp:162 | the last word of a wide value gets width `widthMin % 32` | `widthMin` 96: the last word gets `klee_assume(temp < 1 << 0)` and is pinned to 0; `widthMin` 72: the last word gets width 8, which is exempt from the assumption, so it is unbounded | the last word carries `widthMin - 32 * (widthWords - 1)` bits, 1 to 32, and is bounded by that width | not executed | SymExecMain.LastWordPinnedAsWritten, SymExecMain.WideRegistersAsWritten | SymExecMain.WordWidthsCover, SymExecMain.WordsBoundedExactly |

`Smt.Pin`, `Smt.PinEquation` and `Smt.EqualToSpecificValue` take an `asWritten` flag choosing between `Smt.ConcretizeAsWritten` and the corrected `Smt.Concretize`; `Smt.PinZero` shows the difference on the requested value 0. `SymExecMain` takes an `asWritten` flag; `SymExecMain.Handshake` and `SymExecMain.SnapshotPlacement` hold for both readings.
