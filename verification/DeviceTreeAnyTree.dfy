/**
 What the walk finds in trees whose nodes may list a property more than once: each `reg` in force while the
 node is known to be memory is decoded, with the cell counts of that moment.
 */
module DeviceTreeAnyTree {
  import opened Words
  import opened Panic
  import opened Memory
  import opened DeviceTreeFold
  import opened DeviceTreeFlatten
  import opened DeviceTreeMeaning

  // ---- Any node ----

  /** The last value of a property. */
  function LastOf(props: seq<Property>, name: Bytes): (v: Option<Bytes>)
    ensures v != None ==> Property(name, v.value) in props
  {
    if props == [] then None
    else if props[|props| - 1].name == name then Some(props[|props| - 1].value)
    else LastOf(props[..|props| - 1], name)
  }

  /** What is known of a node after some of its properties. */
  function NodeAfter(unnamed: bool, props: seq<Property>): Node {
    Node(unnamed, Property(DEVICE_TYPE, MEMORY + [0]) in props, LastOf(props, REG))
  }

  ghost predicate CellsWellFormed(props: seq<Property>) {
    forall p :: p in props && (p.name == ADDRESS_CELLS || p.name == SIZE_CELLS) ==> |p.value| == 4
  }

  /** The cell counts after some properties: an unnamed node's last ones. */
  ghost function CellsOf(unnamed: bool, h: Harvest, props: seq<Property>): Harvest
    requires unnamed ==> CellsWellFormed(props)
  {
    if !unnamed then h
    else
      h.(addressCells := CellsValue(LastOf(props, ADDRESS_CELLS), h.addressCells),
         sizeCells := CellsValue(LastOf(props, SIZE_CELLS), h.sizeCells))
  }

  /** What a node contributes, as known after some properties. */
  ghost function Contributed(unnamed: bool, h: Harvest, props: seq<Property>): Result<Harvest>
    requires unnamed ==> CellsWellFormed(props)
  {
    MemoryStep(NodeAfter(unnamed, props), CellsOf(unnamed, h, props))
  }

  /** After each property, what is then known decodes. */
  ghost predicate AlwaysDecodes(unnamed: bool, h: Harvest, props: seq<Property>)
    requires unnamed ==> CellsWellFormed(props)
  {
    forall k :: 0 <= k <= |props| ==> Contributed(unnamed, h, props[..k]).Ok?
  }

  ghost predicate NodeAcceptable(unnamed: bool, h: Harvest, props: seq<Property>) {
    (unnamed ==> CellsWellFormed(props)) && AlwaysDecodes(unnamed, h, props)
  }

  lemma WellFormedStep(props: seq<Property>)
    requires props != []
    ensures var p := props[|props| - 1];
      CellsWellFormed(props) <==>
        CellsWellFormed(props[..|props| - 1]) && (p.name == ADDRESS_CELLS || p.name == SIZE_CELLS ==> |p.value| == 4)
  {
    assert props == props[..|props| - 1] + [props[|props| - 1]];
  }

  lemma DecodesStep(unnamed: bool, h: Harvest, props: seq<Property>)
    requires props != [] && (unnamed ==> CellsWellFormed(props))
    ensures AlwaysDecodes(unnamed, h, props) <==>
      AlwaysDecodes(unnamed, h, props[..|props| - 1]) && Contributed(unnamed, h, props).Ok?
  {
    var n := |props| - 1;
    assert props[..|props|] == props && forall k :: 0 <= k <= n ==> props[..n][..k] == props[..k];
  }

  /** The last property of a node. */
  lemma LastProp(s: InNode, props: seq<Property>)
    requires props != []
    ensures var r := HarvestProps(s, props[..|props| - 1]);
      HarvestProps(s, props) == if r.Ok? then PropStep(r.value, props[|props| - 1]) else r
  {
    var before, p := props[..|props| - 1], props[|props| - 1];
    assert props == before + [p];
    HarvestConcat(s, before, [p]);
    var r := HarvestProps(s, before);
    if r.Ok? {
      OneProp(r.value, p, []);
      assert [p] + [] == [p];
    }
  }

  lemma NodeAfterStep(unnamed: bool, props: seq<Property>)
    requires props != []
    ensures var p := props[|props| - 1];
      NodeAfter(unnamed, props) == NodeStep(NodeAfter(unnamed, props[..|props| - 1]), p.name, p.value)
  {
    NamesDiffer();
    assert props == props[..|props| - 1] + [props[|props| - 1]];
  }

  lemma CellsOfStep(unnamed: bool, h: Harvest, props: seq<Property>)
    requires props != [] && (unnamed ==> CellsWellFormed(props))
    ensures var before, p := props[..|props| - 1], props[|props| - 1];
      && (unnamed ==> CellsWellFormed(before))
      && forall m: Option<seq<Region>> ::
        CellsStep(NodeAfter(unnamed, before), CellsOf(unnamed, h, before).(memory := m), p.name, p.value)
        == Ok(CellsOf(unnamed, h, props).(memory := m))
  {
    NamesDiffer();
    WellFormedStep(props);
  }

  /** One more property, when what was known before it decoded to g. */
  lemma StepContributes(n: Node, c: Harvest, g: Harvest, p: Property, n': Node, c': Harvest)
    requires MemoryStep(n, c) == Ok(g) && n' == NodeStep(n, p.name, p.value) && c'.memory == c.memory
    requires CellsStep(n, c.(memory := g.memory), p.name, p.value) == Ok(c'.(memory := g.memory))
    ensures var r := MemoryStep(n', c');
      PropStep(InNode(n, g), p) == if r.Ok? then Ok(InNode(n', r.value)) else Panicked(r.reason)
  {
    assert g == c.(memory := g.memory);
    if !Ready(n') {
      assert !Ready(n);
    }
  }

  /** A malformed cell count stops the walk. */
  lemma MalformedStops(n: Node, g: Harvest, p: Property)
    requires n.unnamed && (p.name == ADDRESS_CELLS || p.name == SIZE_CELLS) && |p.value| != 4
    ensures PropStep(InNode(n, g), p).Panicked?
  {
  }

  /** What a node comes to. */
  ghost predicate ComesTo(r: Result<InNode>, unnamed: bool, h: Harvest, props: seq<Property>) {
    && (r.Ok? <==> NodeAcceptable(unnamed, h, props))
    && (r.Ok? ==> r.value.node == NodeAfter(unnamed, props) && Ok(r.value.harvest) == Contributed(unnamed, h, props))
  }

  lemma OneMoreProp(r: Result<InNode>, r': Result<InNode>, unnamed: bool, h: Harvest, props: seq<Property>)
    requires props != [] && ComesTo(r, unnamed, h, props[..|props| - 1])
    requires r' == if r.Ok? then PropStep(r.value, props[|props| - 1]) else r
    requires unnamed ==> CellsWellFormed(props)
    ensures ComesTo(r', unnamed, h, props)
  {
    var before, p := props[..|props| - 1], props[|props| - 1];
    WellFormedStep(props);
    DecodesStep(unnamed, h, props);
    if r.Ok? {
      CellsOfStep(unnamed, h, props);
      NodeAfterStep(unnamed, props);
      StepContributes(NodeAfter(unnamed, before), CellsOf(unnamed, h, before), r.value.harvest, p,
                      NodeAfter(unnamed, props), CellsOf(unnamed, h, props));
    }
  }

  /** Whatever its properties, a node is accepted exactly when its own cell counts are well-formed and what is
      known of it after each property decodes; it contributes what is known at its end. */
  lemma {:induction false} EveryNode(unnamed: bool, h: Harvest, props: seq<Property>)
    ensures ComesTo(HarvestProps(InNode(Node(unnamed, false, None), h), props), unnamed, h, props)
    decreases |props|
  {
    var s := InNode(Node(unnamed, false, None), h);
    if props == [] {
      assert forall k :: 0 <= k <= 0 ==> props[..k] == [];
    } else {
      var before, p := props[..|props| - 1], props[|props| - 1];
      EveryNode(unnamed, h, before);
      LastProp(s, props);
      if unnamed ==> CellsWellFormed(props) {
        OneMoreProp(HarvestProps(s, before), HarvestProps(s, props), unnamed, h, props);
      } else {
        WellFormedStep(props);
        if HarvestProps(s, before).Ok? {
          MalformedStops(NodeAfter(true, before), HarvestProps(s, before).value.harvest, p);
        }
      }
    }
  }

  // ---- Named nodes ----

  /** What is decoded of a node as known. */
  function KnownReg(n: Node): seq<Bytes> {
    if Ready(n) then [n.reg.value] else []
  }

  /** The `reg` in force after each property from which on the node is known to be memory and to have one. */
  function InForce(props: seq<Property>): seq<Bytes> {
    if props == [] then []
    else
      InForce(props[..|props| - 1]) + KnownReg(NodeAfter(false, props))
  }

  /** A harvest with the regions of the last of these. */
  ghost function WithLast(h: Harvest, regs: seq<Bytes>): Harvest
    requires AllDecode(h, regs)
  {
    if regs == [] then h else h.(memory := Some(LastDecoded(h, regs)))
  }

  lemma AllDecodeConcat(h: Harvest, a: seq<Bytes>, b: seq<Bytes>)
    ensures AllDecode(h, a + b) <==> AllDecode(h, a) && AllDecode(h, b)
    ensures AllDecode(h, a + b) ==>
      AllDecode(WithLast(h, a), b) && WithLast(WithLast(h, a), b) == WithLast(h, a + b)
    ensures AllDecode(h, a) ==> (AllDecode(WithLast(h, a), b) <==> AllDecode(h, b))
  {
    assert forall k :: 0 <= k < |a| ==> (a + b)[k] == a[k];
    assert forall k :: 0 <= k < |b| ==> (a + b)[|a| + k] == b[k];
  }

  lemma OneDecodes(h: Harvest, n: Node)
    ensures MemoryStep(n, h).Ok? <==> AllDecode(h, KnownReg(n))
    ensures MemoryStep(n, h).Ok? ==> MemoryStep(n, h).value == WithLast(h, KnownReg(n))
  {
    if Ready(n) {
      assert KnownReg(n)[0] == n.reg.value;
    }
  }

  lemma {:induction false} ReadyStays(props: seq<Property>)
    requires props != [] && InForce(props[..|props| - 1]) != []
    ensures Ready(NodeAfter(false, props[..|props| - 1])) && Ready(NodeAfter(false, props))
    decreases |props|
  {
    var before := props[..|props| - 1];
    if !Ready(NodeAfter(false, before)) {
      ReadyStays(before);
    }
    NodeAfterStep(false, props);
  }

  /** A named node decodes every `reg` in force, with the cell counts it finds, and contributes the last. */
  lemma {:induction false} NamedInForce(h: Harvest, props: seq<Property>)
    ensures NodeAcceptable(false, h, props) <==> AllDecode(h, InForce(props))
    ensures AllDecode(h, InForce(props)) ==> Contributed(false, h, props) == Ok(WithLast(h, InForce(props)))
    decreases |props|
  {
    if props == [] {
      assert forall k :: 0 <= k <= 0 ==> props[..k] == [];
    } else {
      var before := props[..|props| - 1];
      var last := KnownReg(NodeAfter(false, props));
      NamedInForce(h, before);
      DecodesStep(false, h, props);
      OneDecodes(h, NodeAfter(false, props));
      AllDecodeConcat(h, InForce(before), last);
      if InForce(before) != [] {
        ReadyStays(props);
      }
    }
  }

  // ---- Trees whose root alone has the empty name ----

  ghost predicate Named(t: Tree)
    decreases t, 0
  {
    t.name != [] && AllNamed(t.children)
  }

  ghost predicate AllNamed(ts: seq<Tree>)
    decreases ts
  {
    ts == [] || (Named(ts[0]) && AllNamed(ts[1..]))
  }

  function RegsInForce(t: Tree): seq<Bytes>
    decreases t, 0
  {
    InForce(t.props) + RegsInForceOfAll(t.children)
  }

  function RegsInForceOfAll(ts: seq<Tree>): seq<Bytes>
    decreases ts
  {
    if ts == [] then [] else RegsInForce(ts[0]) + RegsInForceOfAll(ts[1..])
  }

  /** A harvest that decodes these and keeps the last. */
  ghost predicate Yields(r: Result<Harvest>, h: Harvest, regs: seq<Bytes>) {
    (r.Ok? <==> AllDecode(h, regs)) && (r.Ok? ==> r.value == WithLast(h, regs))
  }

  lemma {:induction false} NamedTree(t: Tree, h: Harvest)
    requires Named(t)
    ensures Yields(HarvestTree(t, h), h, RegsInForce(t))
    decreases t, 0
  {
    EveryNode(false, h, t.props);
    NamedInForce(h, t.props);
    AllDecodeConcat(h, InForce(t.props), RegsInForceOfAll(t.children));
    var s := HarvestProps(InNode(FreshNode(t.name), h), t.props);
    if s.Ok? {
      NamedForest(t.children, s.value.harvest);
    }
  }

  lemma {:induction false} NamedForest(ts: seq<Tree>, h: Harvest)
    requires AllNamed(ts)
    ensures Yields(HarvestAll(ts, h), h, RegsInForceOfAll(ts))
    decreases ts
  {
    if ts != [] {
      NamedTree(ts[0], h);
      AllDecodeConcat(h, RegsInForce(ts[0]), RegsInForceOfAll(ts[1..]));
      var r := HarvestTree(ts[0], h);
      if r.Ok? {
        NamedForest(ts[1..], r.value);
      }
    }
  }

  /** For any tree whose root alone has the empty name, whatever its properties: it is accepted exactly when
      its root is acceptable and every `reg` in force below decodes with the root's last cell counts; the
      regions are those of the last of these, or else the root's own. */
  lemma AnyTreeMeaning(root: Tree)
    requires root.name == [] && AllNamed(root.children)
    ensures var regs := RegsInForceOfAll(root.children);
      && (HarvestTree(root, NOTHING).Ok? <==>
           NodeAcceptable(true, NOTHING, root.props) && AllDecode(CellsOf(true, NOTHING, root.props), regs))
      && (HarvestTree(root, NOTHING).Ok? ==>
           var own := Contributed(true, NOTHING, root.props);
           own.Ok? && AllDecode(own.value, regs) && HarvestTree(root, NOTHING).value == WithLast(own.value, regs))
  {
    EveryNode(true, NOTHING, root.props);
    var s := HarvestProps(InNode(FreshNode([]), NOTHING), root.props);
    if s.Ok? {
      NamedForest(root.children, s.value.harvest);
    }
  }

  // ---- Unique names ----

  lemma {:induction false} LastOfNone(props: seq<Property>, name: Bytes)
    requires LastOf(props, name) == None
    ensures forall p :: p in props ==> p.name != name
    decreases |props|
  {
    if props != [] {
      LastOfNone(props[..|props| - 1], name);
      assert props == props[..|props| - 1] + [props[|props| - 1]];
    }
  }

  lemma LastIsLookup(props: seq<Property>, name: Bytes)
    requires UniqueNames(props)
    ensures LastOf(props, name) == Lookup(props, name)
  {
    if LastOf(props, name) == None {
      LastOfNone(props, name);
    } else {
      LookupIsMembership(props, name, LastOf(props, name).value);
    }
  }

  /** With unique names, what is known at the end is what can be looked up. */
  lemma UniqueNodeAfter(props: seq<Property>)
    requires UniqueNames(props)
    ensures Ready(NodeAfter(false, props)) <==> MemoryReg(props) != None
    ensures MemoryReg(props) != None ==> LastOf(props, REG) == MemoryReg(props)
  {
    LastIsLookup(props, REG);
    LookupIsMembership(props, DEVICE_TYPE, MEMORY + [0]);
  }

  lemma UniqueBefore(props: seq<Property>)
    requires props != [] && UniqueNames(props)
    ensures var before := props[..|props| - 1];
      UniqueNames(before) && (MemoryReg(before) != None ==> MemoryReg(props) == MemoryReg(before))
  {
    var before := props[..|props| - 1];
    assert props == before + [props[|props| - 1]];
    if MemoryReg(before) != None {
      LookupIsMembership(before, REG, MemoryReg(before).value);
      LookupIsMembership(props, REG, MemoryReg(before).value);
      LookupIsMembership(before, DEVICE_TYPE, MEMORY + [0]);
      LookupIsMembership(props, DEVICE_TYPE, MEMORY + [0]);
    }
  }

  /** With unique property names, the `reg` in force is the memory node's `reg`, if it is one. */
  lemma {:induction false} UniqueInForce(props: seq<Property>)
    requires UniqueNames(props)
    ensures InForce(props) == [] <==> MemoryReg(props) == None
    ensures forall k :: 0 <= k < |InForce(props)| ==> MemoryReg(props) == Some(InForce(props)[k])
    decreases |props|
  {
    if props != [] {
      UniqueBefore(props);
      UniqueInForce(props[..|props| - 1]);
      UniqueNodeAfter(props);
    }
  }
}
