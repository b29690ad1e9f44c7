/** Module items of `core/ir/item.py`: primitive items (scalars and
    vectors, possibly ports) and compound items (unpacked arrays whose
    elements are registered one at a time). An item is a declaration until
    instance attributes are attached to it. */
module Items {
  import opened Wrappers
  import opened Seqs
  import opened Strings

  datatype Direction = Input | Output | Inout

  /** The values `PortDirection.parse` can be handed: an enumeration
      member, `None`, a string, or anything else. */
  datatype DirectionArg = DirEnum(d: Direction) | DirNone | DirString(s: string) | DirOther

  /** `PortDirection.parse`. An unrecognised string falls through every
      branch and yields `None`, exactly like a missing direction. */
  function ParseDirection(arg: DirectionArg): (r: Result<Option<Direction>>)
    ensures r.Err? <==> arg.DirOther?
    ensures r.Err? ==> r.error == ValueError
    ensures arg.DirEnum? ==> r == Ok(Some(arg.d))
    ensures arg.DirString? ==> (r.value.Some? <==> arg.s in {"input", "output", "inout"})
  {
    match arg
    case DirEnum(d) => Ok(Some(d))
    case DirNone => Ok(None)
    case DirString(s) =>
      if s == "input" then Ok(Some(Input))
      else if s == "output" then Ok(Some(Output))
      else if s == "inout" then Ok(Some(Inout))
      else Ok(None)
    case DirOther => Err(ValueError)
  }

  /** The keyword a direction is written with in Verilog. */
  function DirectionKeyword(d: Direction): string
  {
    match d
    case Input => "input"
    case Output => "output"
    case Inout => "inout"
  }

  /** Parsing the keyword of a direction gives the direction back. */
  lemma ParseKeyword(d: Direction)
    ensures ParseDirection(DirString(DirectionKeyword(d))) == Ok(Some(d))
  {
  }

  /** Instance attributes, such as `offset` and `bytes`. */
  type Attrs = map<string, int>

  datatype Item =
    | Primitive(name: string, width: nat, isReg: bool, direction: Option<Direction>, inst: Option<Attrs>)
    | Compound(name: string, isReg: bool, elementWidth: nat, indices: set<nat>, inst: Option<Attrs>)
  {
    predicate IsRegister() { isReg }

    /** A compound item is never a port. */
    predicate IsPort() { Primitive? && direction.Some? }

    predicate IsInputPort() { Primitive? && direction == Some(Input) }

    predicate IsOutputPort() { Primitive? && direction == Some(Output) }

    predicate IsInstance() { inst.Some? }

    /** Number of registered elements. */
    function Capacity(): nat
      requires Compound?
    {
      |indices|
    }
  }

  /** Wider than 64 bits: stored by Verilator as an array of 32-bit words. */
  predicate IsWide(width: nat)
  {
    width > 64
  }

  /** The `PrimitiveItem` constructor, which parses its direction. */
  function NewPrimitive(name: string, width: nat, isReg: bool, dir: DirectionArg, inst: Option<Attrs>): (r: Result<Item>)
    ensures r.Err? <==> dir.DirOther?
    ensures r.Ok? ==> (r.value.Primitive? && r.value.name == name && r.value.width == width &&
      r.value.isReg == isReg && r.value.inst == inst && Ok(r.value.direction) == ParseDirection(dir))
    ensures r.Ok? ==> (r.value.IsPort() <==> ParseDirection(dir).value.Some?)
  {
    var d :- ParseDirection(dir);
    Ok(Primitive(name, width, isReg, d, inst))
  }

  /** `new_instance`: a primitive gets a copy carrying the attributes; a
      compound declaration likewise, while a compound instance must already
      carry equal attributes and is returned as it is. */
  function NewInstance(item: Item, attrs: Attrs): (r: Result<Item>)
    ensures r.Err? <==> (item.Compound? && item.inst.Some? && item.inst.value != attrs)
    ensures r.Err? ==> r.error == AssertionError
    ensures r.Ok? ==> r.value.IsInstance() && r.value.inst == Some(attrs)
    ensures r.Ok? ==> (r.value.name == item.name && r.value.isReg == item.isReg &&
      r.value.IsPort() == item.IsPort() && r.value.Primitive? == item.Primitive?)
    ensures r.Ok? && item.Primitive? ==> r.value.width == item.width && r.value.direction == item.direction
    ensures r.Ok? && item.Compound? ==> r.value.elementWidth == item.elementWidth && r.value.indices == item.indices
  {
    match item
    case Primitive(name, width, isReg, direction, _) => Ok(Primitive(name, width, isReg, direction, Some(attrs)))
    case Compound(name, isReg, elementWidth, indices, inst) =>
      if inst.Some? then
        if inst.value == attrs then Ok(item) else Err(AssertionError)
      else Ok(Compound(name, isReg, elementWidth, indices, Some(attrs)))
  }

  /** Instantiating a compound item twice with the same attributes is the
      same as instantiating it once. */
  lemma NewInstanceIdempotent(item: Item, attrs: Attrs)
    requires item.Compound? && NewInstance(item, attrs).Ok?
    ensures NewInstance(NewInstance(item, attrs).value, attrs) == NewInstance(item, attrs)
  {
  }

  /** `__getattr__`: an instance attribute, or AttributeError when the item
      is a declaration or lacks that attribute. */
  function GetAttr(item: Item, key: string): (r: Result<int>)
    ensures r.Ok? <==> (item.inst.Some? && key in item.inst.value)
    ensures r.Ok? ==> r.value == item.inst.value[key]
    ensures r.Err? ==> r.error == AttributeError
  {
    if item.inst.Some? && key in item.inst.value then Ok(item.inst.value[key]) else Err(AttributeError)
  }

  /** An attribute attached by `new_instance` can be read back. */
  lemma InstanceAttr(item: Item, attrs: Attrs, key: string)
    requires NewInstance(item, attrs).Ok?
    ensures GetAttr(NewInstance(item, attrs).value, key) == (if key in attrs then Ok(attrs[key]) else Err(AttributeError))
  {
  }

  // ----------------------------------------------------- register_element

  /** Why `register_element` refuses an element, if it does. */
  function RegisterError(items: map<string, Item>, itemName: string, isReg: bool, index: nat, width: nat): Option<Error>
  {
    if itemName !in items then None
    else
      var item := items[itemName];
      if !item.Compound? then Some(AssertionError)
      else if isReg != item.isReg then Some(ValueError)
      else if width != item.elementWidth then Some(ValueError)
      else if index in item.indices then Some(ValueError)
      else None
  }

  /** `register_element`: add one element to the compound item named
      `itemName` in a module's map, creating the item on the first element.
      Returns the updated map and the item. */
  function RegisterElement(items: map<string, Item>, itemName: string, isReg: bool, index: nat, width: nat)
    : (r: Result<(map<string, Item>, Item)>)
    ensures r.Err? <==> RegisterError(items, itemName, isReg, index, width).Some?
    ensures r.Err? ==> r.error == RegisterError(items, itemName, isReg, index, width).value
    ensures r.Ok? ==> itemName in r.value.0 && r.value.0[itemName] == r.value.1
    ensures r.Ok? ==> r.value.1.Compound? && r.value.1.name == (if itemName in items then items[itemName].name else itemName)
    ensures r.Ok? ==> r.value.1.isReg == isReg && r.value.1.elementWidth == width
    ensures r.Ok? ==> r.value.1.indices == (if itemName in items then items[itemName].indices else {}) + {index}
    ensures r.Ok? ==> r.value.1.Capacity() == (if itemName in items then items[itemName].Capacity() else 0) + 1
    ensures r.Ok? ==> forall k :: k in items && k != itemName ==> k in r.value.0 && r.value.0[k] == items[k]
    ensures r.Ok? ==> r.value.0.Keys == items.Keys + {itemName}
  {
    var item := if itemName in items then items[itemName] else Compound(itemName, isReg, width, {}, None);
    match RegisterError(items, itemName, isReg, index, width)
    case Some(e) => Err(e)
    case None =>
      var updated := item.(indices := item.indices + {index});
      Ok((items[itemName := updated], updated))
  }

  /** An element as a netlist declares it: `name[index]` with its kind and
      width. */
  datatype Element = Element(isReg: bool, index: nat, width: nat)

  /** Registers the elements of one array in order, stopping at the first
      refusal. */
  function RegisterAll(items: map<string, Item>, itemName: string, es: seq<Element>): Result<map<string, Item>>
    decreases |es|
  {
    if |es| == 0 then Ok(items)
    else
      var step :- RegisterElement(items, itemName, es[0].isReg, es[0].index, es[0].width);
      RegisterAll(step.0, itemName, es[1..])
  }

  function Indices(es: seq<Element>): (r: seq<nat>)
    ensures |r| == |es| && forall k :: 0 <= k < |es| ==> r[k] == es[k].index
  {
    seq(|es|, k requires 0 <= k < |es| => es[k].index)
  }

  /** Elements of one kind and width with distinct indices. */
  predicate Compatible(es: seq<Element>, isReg: bool, width: nat)
  {
    forall k :: 0 <= k < |es| ==> es[k].isReg == isReg && es[k].width == width
  }

  /** The elements fit an item of this kind and width that already holds
      `taken`: each agrees with it and brings a new index. */
  predicate Fits(es: seq<Element>, isReg: bool, width: nat, taken: set<nat>)
    decreases |es|
  {
    |es| == 0 ||
    (es[0].isReg == isReg && es[0].width == width && es[0].index !in taken &&
     Fits(es[1..], isReg, width, taken + {es[0].index}))
  }

  lemma {:induction false} RegisterAllFrom(items: map<string, Item>, itemName: string, es: seq<Element>, item: Item)
    requires itemName in items && items[itemName] == item && item.Compound?
    ensures RegisterAll(items, itemName, es).Ok? <==> Fits(es, item.isReg, item.elementWidth, item.indices)
    decreases |es|
  {
    if |es| > 0 {
      var e := es[0];
      var step := RegisterElement(items, itemName, e.isReg, e.index, e.width);
      if step.Ok? {
        RegisterAllFrom(step.value.0, itemName, es[1..], step.value.1);
      }
    }
  }

  lemma {:induction false} RegisterAllResult(items: map<string, Item>, itemName: string, es: seq<Element>, item: Item)
    requires itemName in items && items[itemName] == item && item.Compound?
    requires RegisterAll(items, itemName, es).Ok?
    ensures var m := RegisterAll(items, itemName, es).value;
      itemName in m && m[itemName] == item.(indices := item.indices + Elements(Indices(es)))
    decreases |es|
  {
    if |es| > 0 {
      var e := es[0];
      var step := RegisterElement(items, itemName, e.isReg, e.index, e.width);
      assert RegisterAll(items, itemName, es) == RegisterAll(step.value.0, itemName, es[1..]);
      RegisterStep(items, itemName, e, item);
      RegisterAllResult(step.value.0, itemName, es[1..], step.value.1);
      IndicesCons(es);
    }
  }

  /** Registering one element into an existing array only adds its index. */
  lemma RegisterStep(items: map<string, Item>, itemName: string, e: Element, item: Item)
    requires itemName in items && items[itemName] == item && item.Compound?
    requires RegisterElement(items, itemName, e.isReg, e.index, e.width).Ok?
    ensures var step := RegisterElement(items, itemName, e.isReg, e.index, e.width).value;
      itemName in step.0 && step.0[itemName] == step.1 && step.1.Compound? &&
      step.1 == item.(indices := item.indices + {e.index})
  {
  }

  lemma IndicesCons(es: seq<Element>)
    requires |es| > 0
    ensures Elements(Indices(es)) == {es[0].index} + Elements(Indices(es[1..]))
  {
    assert Indices(es) == [es[0].index] + Indices(es[1..]);
  }

  lemma {:induction false} FitsIff(es: seq<Element>, isReg: bool, width: nat, taken: set<nat>)
    ensures Fits(es, isReg, width, taken) <==>
      (Compatible(es, isReg, width) && Distinct(Indices(es)) && forall k :: 0 <= k < |es| ==> es[k].index !in taken)
    decreases |es|
  {
    if |es| > 0 {
      var e, rest := es[0], es[1..];
      var ix := Indices(es);
      FitsIff(rest, isReg, width, taken + {e.index});
      assert forall k :: 0 < k < |es| ==> es[k] == rest[k - 1] && ix[k] == Indices(rest)[k - 1];
      if Fits(es, isReg, width, taken) {
        forall i, j | 0 <= i < j < |ix|
          ensures ix[i] != ix[j]
        {
          if i == 0 {
            assert rest[j - 1].index !in taken + {e.index};
          }
        }
      }
      if Distinct(ix) {
        forall k | 0 <= k < |rest|
          ensures rest[k].index != e.index
        {
          assert ix[0] != ix[k + 1];
        }
        forall i, j | 0 <= i < j < |rest|
          ensures Indices(rest)[i] != Indices(rest)[j]
        {
          assert ix[i + 1] != ix[j + 1];
        }
      }
    }
  }

  /** Registering the elements of a new array succeeds exactly when they
      agree in kind and width and no index repeats; the capacity is then
      the number of elements registered. */
  lemma RegisterAllCapacity(items: map<string, Item>, itemName: string, es: seq<Element>)
    requires itemName !in items && |es| > 0
    ensures RegisterAll(items, itemName, es).Ok? <==> (Compatible(es, es[0].isReg, es[0].width) && Distinct(Indices(es)))
    ensures RegisterAll(items, itemName, es).Ok? ==>
      var m := RegisterAll(items, itemName, es).value;
      itemName in m && m[itemName].Compound? && m[itemName].Capacity() == |es| &&
      m[itemName].indices == Elements(Indices(es))
  {
    var e := es[0];
    var step := RegisterElement(items, itemName, e.isReg, e.index, e.width);
    var first := step.value.1;
    assert first.indices == {e.index};
    assert Indices(es) == [e.index] + Indices(es[1..]);
    assert Elements(Indices(es)) == {e.index} + Elements(Indices(es[1..]));
    RegisterAllFrom(step.value.0, itemName, es[1..], first);
    FitsIff(es, e.isReg, e.width, {});
    if RegisterAll(items, itemName, es).Ok? {
      RegisterAllResult(step.value.0, itemName, es[1..], first);
      DistinctCard(Indices(es));
    }
  }

  // ------------------------------------------------- CompoundItem.ARRAY_ELEMENT

  /** A character the class `[!-~]` accepts: printable ASCII, no space. */
  predicate Printable(c: char)
  {
    '!' <= c <= '~'
  }

  predicate AllPrintable(s: string)
  {
    forall i :: 0 <= i < |s| ==> Printable(s[i])
  }

  /** Length of the longest prefix of decimal digits. */
  function DigitRun(s: string): (n: nat)
    ensures n <= |s| && AllDigitsOf(s[..n], 10) && (n < |s| ==> !IsDigitOf(s[n], 10))
  {
    if |s| == 0 || !IsDigitOf(s[0], 10) then 0
    else
      var n := 1 + DigitRun(s[1..]);
      assert s[..n] == [s[0]] + s[1..][..n - 1];
      n
  }

  /** Length of the longest printable prefix. */
  function PrintableRun(s: string): (n: nat)
    ensures n <= |s| && AllPrintable(s[..n]) && (n < |s| ==> !Printable(s[n]))
  {
    if |s| == 0 || !Printable(s[0]) then 0
    else
      var n := 1 + PrintableRun(s[1..]);
      assert s[..n] == [s[0]] + s[1..][..n - 1];
      n
  }

  /** `\[(\d+)\]` at position `k`, and the value of its digits. */
  function IndexAt(s: string, k: nat): Option<nat>
  {
    if k < |s| && s[k] == '[' then
      var d := DigitRun(s[k + 1..]);
      if d > 0 && k + 1 + d < |s| && s[k + 1 + d] == ']' then Some(DigitsValue(s[k + 1..k + 1 + d], 10)) else None
    else None
  }

  /** Tries name lengths from `k` down to 1, as the greedy `+` backtracks. */
  function SearchElement(s: string, k: nat): (r: Option<(string, nat)>)
    requires k <= |s|
    ensures r.Some? ==> 0 < |r.value.0| <= k && r.value.0 == s[..|r.value.0|] && IndexAt(s, |r.value.0|) == Some(r.value.1)
    ensures r.Some? ==> forall j :: |r.value.0| < j <= k ==> IndexAt(s, j).None?
    ensures r.None? ==> forall j :: 0 < j <= k ==> IndexAt(s, j).None?
  {
    if k == 0 then None
    else if IndexAt(s, k).Some? then Some((s[..k], IndexAt(s, k).value))
    else SearchElement(s, k - 1)
  }

  /** `ARRAY_ELEMENT.match(s)`: the name and index of an array element
      `name[index]`. The match is anchored at the start only, and the name
      is the longest printable prefix that a bracketed decimal follows. */
  function ArrayElement(s: string): (r: Option<(string, nat)>)
    ensures r.Some? ==> 0 < |r.value.0| <= |s| && AllPrintable(r.value.0) && r.value.0 == s[..|r.value.0|]
    ensures r.Some? ==> IndexAt(s, |r.value.0|) == Some(r.value.1)
    ensures r.Some? ==> forall j :: |r.value.0| < j <= PrintableRun(s) ==> IndexAt(s, j).None?
    ensures r.None? ==> forall j :: 0 < j <= PrintableRun(s) ==> IndexAt(s, j).None?
  {
    var r := SearchElement(s, PrintableRun(s));
    if r.Some? then
      assert r.value.0 == s[..PrintableRun(s)][..|r.value.0|];
      r
    else r
  }

  /** The element name of `name[i]` is read back as `name` and `i`. */
  lemma ArrayElementRoundTrip(name: string, i: nat)
    requires |name| > 0 && AllPrintable(name)
    ensures ArrayElement(name + "[" + NatToString(i) + "]") == Some((name, i))
  {
    var digits := NatToString(i);
    var s := name + "[" + digits + "]";
    var k := |name|;
    NatToStringRoundTrip(i);
    ElementIndex(name, digits);
    ElementPrintable(name, digits);
    PrintableRunAll(s);
    ElementNoLaterIndex(name, digits);
    assert s[..k] == name;
  }

  lemma ElementIndex(name: string, digits: string)
    requires |digits| > 0 && AllDigitsOf(digits, 10)
    ensures IndexAt(name + "[" + digits + "]", |name|) == Some(DigitsValue(digits, 10))
  {
    var s := name + "[" + digits + "]";
    var k := |name|;
    var n := |digits|;
    assert s[k + 1..] == digits + "]";
    DigitRunOf(digits, "]");
    assert s[k] == '[' && k + 1 + n < |s| && s[k + 1 + n] == ']';
    assert s[k + 1..k + 1 + n] == digits;
  }

  lemma ElementPrintable(name: string, digits: string)
    requires AllPrintable(name) && AllDigitsOf(digits, 10)
    ensures AllPrintable(name + "[" + digits + "]")
  {
    var s := name + "[" + digits + "]";
    var k := |name|;
    forall j | 0 <= j < |s|
      ensures Printable(s[j])
    {
      if k < j < k + 1 + |digits| {
        assert s[j] == digits[j - k - 1];
        assert IsDigitOf(digits[j - k - 1], 10);
      }
    }
  }

  /** No bracket follows the one that opens the index. */
  lemma ElementNoLaterIndex(name: string, digits: string)
    requires AllDigitsOf(digits, 10)
    ensures forall j :: |name| < j <= |name + "[" + digits + "]"| ==> IndexAt(name + "[" + digits + "]", j).None?
  {
    var s := name + "[" + digits + "]";
    var k := |name|;
    forall j | k < j <= |s|
      ensures IndexAt(s, j).None?
    {
      if j < |s| {
        if j < k + 1 + |digits| {
          assert s[j] == digits[j - k - 1];
          assert IsDigitOf(digits[j - k - 1], 10);
        }
      }
    }
  }

  lemma {:induction false} DigitRunOf(digits: string, rest: string)
    requires AllDigitsOf(digits, 10) && (|rest| > 0 ==> !IsDigitOf(rest[0], 10))
    ensures DigitRun(digits + rest) == |digits|
    decreases |digits|
  {
    if |digits| == 0 {
      assert digits + rest == rest;
    } else {
      assert (digits + rest)[1..] == digits[1..] + rest;
      DigitRunOf(digits[1..], rest);
    }
  }

  lemma {:induction false} PrintableRunAll(s: string)
    requires AllPrintable(s)
    ensures PrintableRun(s) == |s|
    decreases |s|
  {
    if |s| > 0 {
      PrintableRunAll(s[1..]);
    }
  }
}
