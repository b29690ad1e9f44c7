/** The tree view of a design, `core/ir/view.py`: one node per module
    instance, the top module at the root. Nodes are numbered in the order
    the breadth-first construction creates them, and each node records the
    number of its parent; the number stands for the node identifier. */
module View {
  import opened Wrappers
  import opened Seqs
  import opened Items
  import opened Assoc
  import opened ModuleIR

  datatype Node = Node(tag: string, inst: ModuleInstance, parent: Option<nat>)

  datatype ModelTree = ModelTree(nodes: seq<Node>)

  /** A hierarchical path name: a node and an item name within it. */
  datatype PathName = PathName(node: nat, itemName: string)

  /** The shape every tree has: the root first, every other node after its
      parent. */
  predicate WellFormed(t: ModelTree)
  {
    |t.nodes| > 0 && t.nodes[0].parent.None? &&
    forall j :: 0 < j < |t.nodes| ==> t.nodes[j].parent.Some? && t.nodes[j].parent.value < j
  }

  function Subs(n: Node): seq<(string, string)>
  {
    n.inst.decl.submodules
  }

  // --------------------------------------------------- from_module_decl

  /** The number of submodule instances of the nodes before `i`. */
  function SubsBefore(nodes: seq<Node>, i: nat): nat
    requires i <= |nodes|
  {
    if i == 0 then 0 else SubsBefore(nodes, i - 1) + |Subs(nodes[i - 1])|
  }

  /** Where the children of node `i` start in breadth-first numbering. */
  function ChildStart(nodes: seq<Node>, i: nat): nat
    requires i <= |nodes|
  {
    1 + SubsBefore(nodes, i)
  }

  lemma {:induction false} SubsBeforeAppend(nodes: seq<Node>, extra: seq<Node>, i: nat)
    requires i <= |nodes|
    ensures SubsBefore(nodes + extra, i) == SubsBefore(nodes, i)
  {
    if i > 0 {
      SubsBeforeAppend(nodes, extra, i - 1);
      assert (nodes + extra)[i - 1] == nodes[i - 1];
    }
  }

  /** `node` is the child created for submodule instance `sub` of `parent`. */
  predicate IsChild(design: map<string, ModuleDecl>, node: Node, sub: (string, string), parent: nat)
  {
    sub.1 in design && node == Node(sub.0, NewModuleInstance(design[sub.1]), Some(parent))
  }

  /** The children of one node; a submodule whose module is not declared
      has no declaration to instantiate. */
  function Children(design: map<string, ModuleDecl>, subs: seq<(string, string)>, parent: nat): (r: Result<seq<Node>>)
    ensures r.Ok? <==> forall k :: 0 <= k < |subs| ==> subs[k].1 in design
    ensures r.Err? ==> r.error == AttributeError
    ensures r.Ok? ==> |r.value| == |subs| && forall k :: 0 <= k < |subs| ==> IsChild(design, r.value[k], subs[k], parent)
  {
    if |subs| == 0 then Ok([])
    else if subs[0].1 !in design then Err(AttributeError)
    else
      var rest :- Children(design, subs[1..], parent);
      assert forall k :: 1 <= k < |subs| ==> subs[1..][k - 1] == subs[k];
      Ok([Node(subs[0].0, NewModuleInstance(design[subs[0].1]), Some(parent))] + rest)
  }

  /** The children of node `i` occupy the block that starts at
      `ChildStart(nodes, i)`, in the order of its submodule instances. */
  predicate ChildrenAt(design: map<string, ModuleDecl>, nodes: seq<Node>, i: nat)
    requires i < |nodes|
  {
    ChildStart(nodes, i) + |Subs(nodes[i])| <= |nodes| &&
    forall k :: 0 <= k < |Subs(nodes[i])| ==> IsChild(design, nodes[ChildStart(nodes, i) + k], Subs(nodes[i])[k], i)
  }

  /** What the breadth-first construction keeps: the root is the top
      module, every node comes after its parent, the nodes before `next`
      have been expanded, and the children of node `i` occupy the block
      that starts at `ChildStart(nodes, i)`, in the order of its
      submodule instances. */
  predicate Layout(design: map<string, ModuleDecl>, top: ModuleDecl, nodes: seq<Node>, next: nat)
  {
    next <= |nodes| && |nodes| > 0 &&
    nodes[0] == Node(top.name, NewModuleInstance(top), None) &&
    (forall j :: 0 < j < |nodes| ==> nodes[j].parent.Some? && nodes[j].parent.value < j && nodes[j].parent.value < next) &&
    |nodes| == ChildStart(nodes, next) &&
    forall i :: 0 <= i < next ==> ChildrenAt(design, nodes, i)
  }

  lemma LayoutStep(design: map<string, ModuleDecl>, top: ModuleDecl, nodes: seq<Node>, next: nat, kids: seq<Node>)
    requires Layout(design, top, nodes, next) && next < |nodes|
    requires |kids| == |Subs(nodes[next])|
    requires forall k :: 0 <= k < |kids| ==> IsChild(design, kids[k], Subs(nodes[next])[k], next)
    ensures Layout(design, top, nodes + kids, next + 1)
  {
    var nodes' := nodes + kids;
    SubsBeforeAppend(nodes, kids, next + 1);
    forall i | 0 <= i <= next
      ensures ChildStart(nodes', i) == ChildStart(nodes, i) && nodes'[i] == nodes[i]
    {
      SubsBeforeAppend(nodes, kids, i);
    }
    forall j | 0 < j < |nodes'|
      ensures nodes'[j].parent.Some? && nodes'[j].parent.value < j && nodes'[j].parent.value < next + 1
    {
      if j >= |nodes| {
        assert nodes'[j] == kids[j - |nodes|];
      }
    }
    forall i | 0 <= i < next + 1
      ensures ChildrenAt(design, nodes', i)
    {
      SubsBeforeAppend(nodes, kids, i);
      assert nodes'[i] == nodes[i];
      if i == next {
        forall k | 0 <= k < |Subs(nodes'[i])|
          ensures IsChild(design, nodes'[ChildStart(nodes', i) + k], Subs(nodes'[i])[k], i)
        {
          assert nodes'[ChildStart(nodes', i) + k] == kids[k];
        }
        assert ChildrenAt(design, nodes', i);
      } else {
        ChildrenAtAppend(design, nodes, kids, i);
      }
    }
  }

  /** Appending nodes keeps the blocks of children already laid out. */
  lemma ChildrenAtAppend(design: map<string, ModuleDecl>, nodes: seq<Node>, extra: seq<Node>, i: nat)
    requires i < |nodes| && ChildrenAt(design, nodes, i)
    ensures ChildrenAt(design, nodes + extra, i)
  {
    var nodes' := nodes + extra;
    SubsBeforeAppend(nodes, extra, i);
    assert nodes'[i] == nodes[i];
    forall k | 0 <= k < |Subs(nodes'[i])|
      ensures IsChild(design, nodes'[ChildStart(nodes', i) + k], Subs(nodes'[i])[k], i)
    {
      assert IsChild(design, nodes[ChildStart(nodes, i) + k], Subs(nodes[i])[k], i);
      assert nodes'[ChildStart(nodes, i) + k] == nodes[ChildStart(nodes, i) + k];
    }
  }

  /** The breadth-first loop of `from_module_decl`, from node `next` on;
      `fuel` bounds the number of nodes it expands. */
  function Expand(design: map<string, ModuleDecl>, top: ModuleDecl, nodes: seq<Node>, next: nat, fuel: nat): (r: Result<seq<Node>>)
    requires Layout(design, top, nodes, next)
    ensures r.Ok? ==> Layout(design, top, r.value, |r.value|)
    ensures r.Err? ==> r.error == AttributeError || r.error == RuntimeError
    decreases fuel
  {
    if next == |nodes| then Ok(nodes)
    else if fuel == 0 then Err(RuntimeError)
    else
      var kids :- Children(design, Subs(nodes[next]), next);
      LayoutStep(design, top, nodes, next, kids);
      Expand(design, top, nodes + kids, next + 1, fuel - 1)
  }

  /** `from_module_decl`: the tree of all module instances under the top
      module. Its root is the top module, and the children of every node
      are its submodule instances in declaration order, numbered
      breadth-first. */
  function FromModuleDecl(design: map<string, ModuleDecl>, top: ModuleDecl, fuel: nat): (r: Result<ModelTree>)
    ensures r.Ok? ==> WellFormed(r.value)
    ensures r.Ok? ==> r.value.nodes[0] == Node(top.name, NewModuleInstance(top), None)
    ensures r.Ok? ==> TopModule(r.value) == top.name
    ensures r.Ok? ==> var nodes := r.value.nodes;
      |nodes| == ChildStart(nodes, |nodes|) && forall i :: 0 <= i < |nodes| ==> ChildrenAt(design, nodes, i)
    ensures r.Err? ==> r.error == AttributeError || r.error == RuntimeError
  {
    var nodes :- Expand(design, top, [Node(top.name, NewModuleInstance(top), None)], 0, fuel);
    assert Layout(design, top, nodes, |nodes|);
    Ok(ModelTree(nodes))
  }

  /** Every node other than the root is the child created for one of its
      parent's submodule instances. */
  lemma {:induction false} EveryNodeIsAChild(design: map<string, ModuleDecl>, top: ModuleDecl, fuel: nat, j: nat)
    requires FromModuleDecl(design, top, fuel).Ok?
    requires 0 < j < |FromModuleDecl(design, top, fuel).value.nodes|
    ensures var nodes := FromModuleDecl(design, top, fuel).value.nodes;
      var p := nodes[j].parent.value;
      exists k :: 0 <= k < |Subs(nodes[p])| && IsChild(design, nodes[j], Subs(nodes[p])[k], p)
  {
    var nodes := FromModuleDecl(design, top, fuel).value.nodes;
    var i := BlockOf(nodes, j, |nodes|);
    var k := j - ChildStart(nodes, i);
    assert ChildrenAt(design, nodes, i);
    assert IsChild(design, nodes[ChildStart(nodes, i) + k], Subs(nodes[i])[k], i);
  }

  /** The node whose block of children holds `j`. */
  lemma {:induction false} BlockOf(nodes: seq<Node>, j: nat, n: nat) returns (i: nat)
    requires n <= |nodes| && 1 <= j < ChildStart(nodes, n)
    ensures i < n && ChildStart(nodes, i) <= j < ChildStart(nodes, i) + |Subs(nodes[i])|
  {
    if j >= ChildStart(nodes, n - 1) {
      i := n - 1;
    } else {
      i := BlockOf(nodes, j, n - 1);
    }
  }

  // ------------------------------------------------------------ lookups

  /** `__getitem__`: the nodes from the root down to the node of the path;
      a node the tree lacks is a ValueError. */
  function PathNodes(t: ModelTree, path: PathName): (r: Result<seq<nat>>)
    requires WellFormed(t)
    ensures r.Err? <==> path.node >= |t.nodes|
    ensures r.Err? ==> r.error == ValueError
    ensures r.Ok? ==> IsChain(t, r.value) && r.value[|r.value| - 1] == path.node
  {
    if path.node < |t.nodes| then Ok(Chain(t, path.node)) else Err(ValueError)
  }

  /** A path down the tree that starts at the root. */
  predicate IsChain(t: ModelTree, c: seq<nat>)
  {
    |c| > 0 && c[0] == 0 &&
    (forall k :: 0 <= k < |c| ==> c[k] < |t.nodes|) &&
    forall k :: 1 <= k < |c| ==> c[k] < |t.nodes| && t.nodes[c[k]].parent == Some(c[k - 1])
  }

  function Chain(t: ModelTree, j: nat): (c: seq<nat>)
    requires WellFormed(t) && j < |t.nodes|
    ensures IsChain(t, c) && c[|c| - 1] == j
    decreases j
  {
    if j == 0 then [0] else Chain(t, t.nodes[j].parent.value) + [j]
  }

  /** The chain from the root is the only one: any path down the tree that
      starts at the root and ends at a node is that node's chain. */
  lemma {:induction false} ChainUnique(t: ModelTree, c: seq<nat>)
    requires WellFormed(t) && IsChain(t, c)
    ensures c == Chain(t, c[|c| - 1])
    decreases |c|
  {
    if |c| > 1 {
      var c' := c[..|c| - 1];
      assert IsChain(t, c');
      ChainUnique(t, c');
      assert t.nodes[c[|c| - 1]].parent == Some(c'[|c'| - 1]);
    } else {
      assert c == [0];
    }
  }

  /** `top_module`: the name of the module at the root. */
  function TopModule(t: ModelTree): string
    requires WellFormed(t)
  {
    t.nodes[0].tag
  }

  // -------------------------------------------------------------- views

  /** Pairs a node's items with their path names. */
  function AtNode(node: nat, items: seq<(string, Item)>): (r: seq<(PathName, Item)>)
    ensures |r| == |items| && forall k :: 0 <= k < |items| ==> r[k] == (PathName(node, items[k].0), items[k].1)
  {
    seq(|items|, k requires 0 <= k < |items| => (PathName(node, items[k].0), items[k].1))
  }

  /** `_input_ports`: the instantiated input ports of the top module. */
  function ViewInputPorts(t: ModelTree): (r: seq<(PathName, Item)>)
    requires WellFormed(t)
  {
    AtNode(0, InputPorts(t.nodes[0].inst))
  }

  /** `_output_ports`: the instantiated output ports of the top module. */
  function ViewOutputPorts(t: ModelTree): (r: seq<(PathName, Item)>)
    requires WellFormed(t)
  {
    AtNode(0, OutputPorts(t.nodes[0].inst))
  }

  /** `_internals` over the nodes before `n`. */
  function InternalsUpTo(t: ModelTree, n: nat): (r: seq<(PathName, Item)>)
    requires n <= |t.nodes|
  {
    if n == 0 then [] else InternalsUpTo(t, n - 1) + AtNode(n - 1, t.nodes[n - 1].inst.internalInstances)
  }

  /** `_internals`: the instantiated internal items of every node, node by
      node in tree order. */
  function ViewInternals(t: ModelTree): (r: seq<(PathName, Item)>)
  {
    InternalsUpTo(t, |t.nodes|)
  }

  lemma {:induction false} InternalsUpToSpec(t: ModelTree, n: nat, x: (PathName, Item))
    requires n <= |t.nodes|
    ensures x in InternalsUpTo(t, n) <==>
      x.0.node < n && (x.0.itemName, x.1) in t.nodes[x.0.node].inst.internalInstances
  {
    if n > 0 {
      InternalsUpToSpec(t, n - 1, x);
      var items := t.nodes[n - 1].inst.internalInstances;
      if x in AtNode(n - 1, items) {
        var k :| 0 <= k < |items| && AtNode(n - 1, items)[k] == x;
        assert items[k] == (x.0.itemName, x.1);
      }
      if x.0.node == n - 1 && (x.0.itemName, x.1) in items {
        var k :| 0 <= k < |items| && items[k] == (x.0.itemName, x.1);
        assert AtNode(n - 1, items)[k] == x;
      }
    }
  }

  /** The internals of the view are exactly the internal instances of its
      nodes, each under its node's path. */
  lemma ViewInternalsSpec(t: ModelTree, x: (PathName, Item))
    ensures x in ViewInternals(t) <==>
      x.0.node < |t.nodes| && (x.0.itemName, x.1) in t.nodes[x.0.node].inst.internalInstances
  {
    InternalsUpToSpec(t, |t.nodes|, x);
  }

  /** The entries of `a` whose item satisfies `keep`, in order. */
  function FilterPaths(a: seq<(PathName, Item)>, keep: Item -> bool): (r: seq<(PathName, Item)>)
    ensures forall x :: x in r <==> x in a && keep(x.1)
    ensures IsSubsequence(r, a)
  {
    if |a| == 0 then []
    else if keep(a[0].1) then [a[0]] + FilterPaths(a[1..], keep)
    else FilterPaths(a[1..], keep)
  }

  /** `internal_registers`: the internal items that are registers. */
  function InternalRegisters(t: ModelTree): (r: seq<(PathName, Item)>)
    ensures forall x :: x in r <==> x in ViewInternals(t) && x.1.IsRegister()
    ensures IsSubsequence(r, ViewInternals(t))
  {
    FilterPaths(ViewInternals(t), (i: Item) => i.IsRegister())
  }

  /** `internal_wires`: the internal items that are not registers. */
  function InternalWires(t: ModelTree): (r: seq<(PathName, Item)>)
    ensures forall x :: x in r <==> x in ViewInternals(t) && !x.1.IsRegister()
    ensures IsSubsequence(r, ViewInternals(t))
  {
    FilterPaths(ViewInternals(t), (i: Item) => !i.IsRegister())
  }

  /** Registers and wires split the internals: each internal is exactly one
      of the two, and together they are all of them, as many times as they
      occur. */
  lemma {:induction false} RegistersWiresPartition(a: seq<(PathName, Item)>)
    ensures multiset(FilterPaths(a, (i: Item) => i.IsRegister())) + multiset(FilterPaths(a, (i: Item) => !i.IsRegister())) == multiset(a)
  {
    if |a| > 0 {
      RegistersWiresPartition(a[1..]);
      assert a == [a[0]] + a[1..];
    }
  }

  lemma InternalsPartition(t: ModelTree)
    ensures multiset(InternalRegisters(t)) + multiset(InternalWires(t)) == multiset(ViewInternals(t))
  {
    RegistersWiresPartition(ViewInternals(t));
  }

  /** `combination_inputs`: the input ports, then the internal registers. */
  function CombinationInputs(t: ModelTree): (r: seq<(PathName, Item)>)
    requires WellFormed(t)
    ensures forall x :: x in r <==> x in ViewInputPorts(t) || (x in ViewInternals(t) && x.1.IsRegister())
  {
    ViewInputPorts(t) + InternalRegisters(t)
  }

  /** `combination_outputs`: the output ports, then the internal registers. */
  function CombinationOutputs(t: ModelTree): (r: seq<(PathName, Item)>)
    requires WellFormed(t)
    ensures forall x :: x in r <==> x in ViewOutputPorts(t) || (x in ViewInternals(t) && x.1.IsRegister())
  {
    ViewOutputPorts(t) + InternalRegisters(t)
  }

  /** `all_items`: input ports, output ports, internals. */
  function AllItems(t: ModelTree): (r: seq<(PathName, Item)>)
    requires WellFormed(t)
  {
    ViewInputPorts(t) + ViewOutputPorts(t) + ViewInternals(t)
  }

  /** The ports in the view are the top module's port instances of the
      right direction, and every item of the view is one of them or an
      internal instance of some node. */
  lemma AllItemsSpec(t: ModelTree, x: (PathName, Item))
    requires WellFormed(t)
    ensures x in ViewInputPorts(t) <==> x.0.node == 0 && (x.0.itemName, x.1) in t.nodes[0].inst.portInstances && x.1.IsInputPort()
    ensures x in ViewOutputPorts(t) <==> x.0.node == 0 && (x.0.itemName, x.1) in t.nodes[0].inst.portInstances && x.1.IsOutputPort()
    ensures x in AllItems(t) <==> (x in ViewInputPorts(t) || x in ViewOutputPorts(t) ||
      (x.0.node < |t.nodes| && (x.0.itemName, x.1) in t.nodes[x.0.node].inst.internalInstances))
  {
    ViewInternalsSpec(t, x);
    AtNodeMember(0, InputPorts(t.nodes[0].inst), x);
    AtNodeMember(0, OutputPorts(t.nodes[0].inst), x);
  }

  lemma AtNodeMember(node: nat, items: seq<(string, Item)>, x: (PathName, Item))
    ensures x in AtNode(node, items) <==> x.0.node == node && (x.0.itemName, x.1) in items
  {
    if x in AtNode(node, items) {
      var k :| 0 <= k < |items| && AtNode(node, items)[k] == x;
      assert items[k] == (x.0.itemName, x.1);
    }
    if x.0.node == node && (x.0.itemName, x.1) in items {
      var k :| 0 <= k < |items| && items[k] == (x.0.itemName, x.1);
      assert AtNode(node, items)[k] == x;
    }
  }

  // ---------------------------------------------------- instantiate_item

  /** `instantiate_item` on the view: the module instance at the node of
      the path instantiates the item; nothing else in the tree changes. */
  function ViewInstantiate(t: ModelTree, path: PathName, attrs: Attrs): (r: Result<ModelTree>)
    requires WellFormed(t)
    ensures path.node >= |t.nodes| ==> r == Err(ValueError)
    ensures r.Ok? ==> (path.node < |t.nodes| == |r.value.nodes| &&
      InstantiateItem(t.nodes[path.node].inst, path.itemName, attrs) == Ok(r.value.nodes[path.node].inst))
    ensures r.Ok? ==> (WellFormed(r.value) &&
      forall j :: 0 <= j < |t.nodes| ==>
        (r.value.nodes[j].tag == t.nodes[j].tag && r.value.nodes[j].parent == t.nodes[j].parent &&
         r.value.nodes[j].inst.decl == t.nodes[j].inst.decl &&
         (j != path.node ==> r.value.nodes[j] == t.nodes[j])))
  {
    var chain :- PathNodes(t, path);
    var leaf := chain[|chain| - 1];
    var n := t.nodes[leaf];
    var inst :- InstantiateItem(n.inst, path.itemName, attrs);
    Ok(ModelTree(t.nodes[leaf := n.(inst := inst)]))
  }

  // ---------------------------------------------------------- match_path

  /** The children of node `p` among the nodes before `n`, in order. */
  function ChildrenUpTo(t: ModelTree, p: nat, n: nat): (r: seq<nat>)
    requires n <= |t.nodes|
    ensures forall j: nat :: j in r <==> j < n && t.nodes[j].parent == Some(p)
  {
    if n == 0 then []
    else ChildrenUpTo(t, p, n - 1) + (if t.nodes[n - 1].parent == Some(p) then [n - 1] else [])
  }

  /** One step of `match_path`: the children of the candidates tagged `h`. */
  function Descend(t: ModelTree, cands: seq<nat>, h: string): (r: seq<nat>)
    requires forall c :: c in cands ==> c < |t.nodes|
    ensures forall j :: j in r ==> j < |t.nodes|
    ensures forall j: nat :: j in r <==>
      j < |t.nodes| && t.nodes[j].parent.Some? && t.nodes[j].parent.value in cands && t.nodes[t.nodes[j].parent.value].tag == h
  {
    if |cands| == 0 then []
    else
      var c := cands[0];
      assert c in cands;
      assert forall x :: x in cands <==> x == c || x in cands[1..];
      var rest := Descend(t, cands[1..], h);
      var here := if t.nodes[c].tag == h then ChildrenUpTo(t, c, |t.nodes|) else [];
      here + rest
  }

  /** The candidates after following `heads` from every node. */
  function Candidates(t: ModelTree, heads: seq<string>): (r: seq<nat>)
    ensures forall j :: j in r ==> j < |t.nodes|
    decreases |heads|
  {
    if |heads| == 0 then seq(|t.nodes|, i => i)
    else Descend(t, Candidates(t, heads[..|heads| - 1]), heads[|heads| - 1])
  }

  /** The tags of the `|heads|` nearest ancestors of `j`, from the farthest
      down to the parent, are `heads`. */
  predicate Below(t: ModelTree, j: nat, heads: seq<string>)
    requires WellFormed(t) && j < |t.nodes|
    decreases |heads|
  {
    |heads| == 0 ||
    (t.nodes[j].parent.Some? && t.nodes[t.nodes[j].parent.value].tag == heads[|heads| - 1] &&
     Below(t, t.nodes[j].parent.value, heads[..|heads| - 1]))
  }

  lemma {:induction false} CandidatesSpec(t: ModelTree, heads: seq<string>, j: nat)
    requires WellFormed(t)
    ensures j in Candidates(t, heads) <==> j < |t.nodes| && Below(t, j, heads)
    decreases |heads|
  {
    if |heads| == 0 {
      if j < |t.nodes| {
        assert seq(|t.nodes|, i => i)[j] == j;
      }
    } else if j < |t.nodes| && t.nodes[j].parent.Some? {
      CandidatesSpec(t, heads[..|heads| - 1], t.nodes[j].parent.value);
    }
  }

  /** `match_path`: the paths to `item` in every node tagged `leaf` that
      lies directly below a chain of nodes tagged `heads` and declares the
      item. Fewer than two tokens cannot be unpacked. */
  function MatchPath(t: ModelTree, tokens: seq<string>): (r: Result<seq<PathName>>)
    ensures r.Err? <==> |tokens| < 2
    ensures r.Err? ==> r.error == ValueError
  {
    if |tokens| < 2 then Err(ValueError)
    else
      var heads := tokens[..|tokens| - 2];
      var leaf := tokens[|tokens| - 2];
      var item := tokens[|tokens| - 1];
      Ok(MatchIn(t, Candidates(t, heads), leaf, item))
  }

  function MatchIn(t: ModelTree, cands: seq<nat>, leaf: string, item: string): (r: seq<PathName>)
    requires forall c :: c in cands ==> c < |t.nodes|
    ensures forall p :: p in r <==>
      p.itemName == item && p.node in cands && t.nodes[p.node].tag == leaf && FindDecl(t.nodes[p.node].inst.decl, item).Some?
  {
    if |cands| == 0 then []
    else
      var c := cands[0];
      assert c in cands;
      assert forall x :: x in cands <==> x == c || x in cands[1..];
      var rest := MatchIn(t, cands[1..], leaf, item);
      if t.nodes[c].tag == leaf && FindDecl(t.nodes[c].inst.decl, item).Some? then [PathName(c, item)] + rest else rest
  }

  /** The paths `match_path` yields are exactly those to an item declared
      in a node tagged with the second-to-last token whose ancestors carry
      the leading tokens. */
  lemma MatchPathSpec(t: ModelTree, tokens: seq<string>, p: PathName)
    requires WellFormed(t) && |tokens| >= 2
    ensures p in MatchPath(t, tokens).value <==>
      p.node < |t.nodes| && p.itemName == tokens[|tokens| - 1] &&
      t.nodes[p.node].tag == tokens[|tokens| - 2] &&
      FindDecl(t.nodes[p.node].inst.decl, p.itemName).Some? &&
      Below(t, p.node, tokens[..|tokens| - 2])
  {
    CandidatesSpec(t, tokens[..|tokens| - 2], p.node);
  }
}
