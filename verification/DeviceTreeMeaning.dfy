/**
 What the walk finds in a device tree, stated without any order of visiting: the cell counts are
 the root's properties, and the memory is what the last memory node lists (Devicetree
 Specification v0.4, sections 2.3.5, 2.3.6 and 3.4).
 */
module DeviceTreeMeaning {
  import opened Words
  import opened Endian
  import opened Panic
  import opened Memory
  import opened DeviceTreeFold
  import opened DeviceTreeFlatten

  /** The value of a property, by name. */
  function Lookup(props: seq<Property>, name: Bytes): (v: Option<Bytes>)
    ensures v == None <==> forall k :: 0 <= k < |props| ==> props[k].name != name
  {
    if props == [] then None
    else if props[0].name == name then Some(props[0].value)
    else Lookup(props[1..], name)
  }

  ghost predicate UniqueNames(props: seq<Property>) {
    forall i, j :: 0 <= i < j < |props| ==> props[i].name != props[j].name
  }

  predicate SaysMemory(props: seq<Property>) {
    Lookup(props, DEVICE_TYPE) == Some(MEMORY + [0])
  }

  /** The `reg` value of a memory node. */
  function MemoryReg(props: seq<Property>): Option<Bytes> {
    if SaysMemory(props) then Lookup(props, REG) else None
  }

  // ---- One node ----

  /** What the walk remembers of a node after its properties, if it knew `n` before them. */
  function Remembered(n: Node, props: seq<Property>): Node {
    Node(n.unnamed, n.isMemory || SaysMemory(props),
         if Lookup(props, REG) != None then Lookup(props, REG) else n.reg)
  }

  lemma UniqueTail(props: seq<Property>)
    requires props != [] && UniqueNames(props)
    ensures UniqueNames(props[1..])
    ensures Lookup(props[1..], props[0].name) == None
  {
    assert forall k :: 0 <= k < |props| - 1 ==> props[1..][k] == props[k + 1];
  }

  lemma RememberedStep(n: Node, props: seq<Property>)
    requires props != [] && UniqueNames(props)
    ensures Remembered(n, props) == Remembered(NodeStep(n, props[0].name, props[0].value), props[1..])
  {
    UniqueTail(props);
    assert DEVICE_TYPE[0] != REG[0];
  }

  /** Decoding again what has been decoded changes nothing. */
  lemma DecodingIsIdempotent(n: Node, h: Harvest)
    requires MemoryStep(n, h).Ok?
    ensures MemoryStep(n, MemoryStep(n, h).value) == MemoryStep(n, h)
  {
  }

  /** In a named node the order of the properties does not matter, nor that `reg` is decoded again at
      every later property: the outcome is that of one decoding at the end. */
  lemma {:induction false} PropertyOrder(n: Node, h: Harvest, props: seq<Property>)
    requires UniqueNames(props) && !n.unnamed
    requires n.reg != None ==> Lookup(props, REG) == None
    requires MemoryStep(n, h) == Ok(h)
    ensures HarvestProps(InNode(n, h), props) ==
      match MemoryStep(Remembered(n, props), h)
      case Panicked(why) => Panicked(why)
      case Ok(h') => Ok(InNode(Remembered(n, props), h'))
    decreases |props|
  {
    if props != [] {
      UniqueTail(props);
      RememberedStep(n, props);
      var p := props[0];
      var n1 := NodeStep(n, p.name, p.value);
      assert CellsStep(n, h, p.name, p.value) == Ok(h);
      var r := MemoryStep(n1, h);
      if n1.reg != None {
        assert Lookup(props[1..], REG) == None;
      }
      if r.Ok? {
        DecodingIsIdempotent(n1, h);
        PropertyOrder(n1, r.value, props[1..]);
        SameDecoding(n1, h, Remembered(n1, props[1..]));
      } else {
        assert Remembered(n1, props[1..]) == n1;
      }
    }
  }

  /** With unique names, a property is looked up by membership. */
  lemma {:induction false} LookupIsMembership(props: seq<Property>, name: Bytes, v: Bytes)
    requires UniqueNames(props)
    ensures Lookup(props, name) == Some(v) <==> Property(name, v) in props
  {
    if props != [] {
      UniqueTail(props);
      LookupIsMembership(props[1..], name, v);
      assert props == [props[0]] + props[1..];
    }
  }

  lemma LookupPermuted(props: seq<Property>, other: seq<Property>, name: Bytes)
    requires UniqueNames(props) && UniqueNames(other) && multiset(props) == multiset(other)
    ensures Lookup(props, name) == Lookup(other, name)
  {
    assert forall p :: p in props <==> p in multiset(props);
    assert forall p :: p in other <==> p in multiset(other);
    if Lookup(props, name) != None {
      LookupIsMembership(props, name, Lookup(props, name).value);
      LookupIsMembership(other, name, Lookup(props, name).value);
    }
    if Lookup(other, name) != None {
      LookupIsMembership(props, name, Lookup(other, name).value);
      LookupIsMembership(other, name, Lookup(other, name).value);
    }
  }

  /** Reordering the properties of a named node changes nothing. */
  lemma AnyPropertyOrder(name: Bytes, h: Harvest, props: seq<Property>, other: seq<Property>)
    requires name != [] && UniqueNames(props) && UniqueNames(other) && multiset(props) == multiset(other)
    ensures HarvestProps(InNode(FreshNode(name), h), props) == HarvestProps(InNode(FreshNode(name), h), other)
  {
    LookupPermuted(props, other, DEVICE_TYPE);
    LookupPermuted(props, other, REG);
    PropertyOrder(FreshNode(name), h, props);
    PropertyOrder(FreshNode(name), h, other);
  }

  lemma SameDecoding(n: Node, h: Harvest, later: Node)
    requires MemoryStep(n, h).Ok?
    requires n.reg != None ==> later.reg == n.reg
    requires n.isMemory ==> later.isMemory
    ensures MemoryStep(later, MemoryStep(n, h).value) == MemoryStep(later, h)
  {
  }

  /** Decoding one memory node's `reg` into the harvest. */
  function Decode(h: Harvest, reg: Bytes): Result<Harvest> {
    MemoryStep(Node(false, true, Some(reg)), h)
  }

  /** A named node contributes its memory regions, if it is a memory node, and nothing else. */
  lemma NamedNode(name: Bytes, h: Harvest, props: seq<Property>)
    requires UniqueNames(props) && name != []
    ensures HarvestProps(InNode(FreshNode(name), h), props).Ok? <==>
      MemoryReg(props) == None || Decode(h, MemoryReg(props).value).Ok?
    ensures match HarvestProps(InNode(FreshNode(name), h), props)
      case Ok(s) => Ok(s.harvest) == if MemoryReg(props) == None then Ok(h) else Decode(h, MemoryReg(props).value)
      case Panicked(why) => MemoryReg(props) != None && Decode(h, MemoryReg(props).value) == Panicked(why)
  {
    PropertyOrder(FreshNode(name), h, props);
  }

  // ---- The root ----

  ghost predicate CellsFine(v: Option<Bytes>) {
    v == None || |v.value| == 4
  }

  function CellsValue(v: Option<Bytes>, before: Option<U32>): Option<U32>
    requires v != None ==> |v.value| == 4
  {
    if v == None then before else Some(Be32(v.value, 0))
  }

  lemma NamesDiffer()
    ensures ADDRESS_CELLS != SIZE_CELLS && ADDRESS_CELLS != DEVICE_TYPE && ADDRESS_CELLS != REG
    ensures SIZE_CELLS != DEVICE_TYPE && SIZE_CELLS != REG && DEVICE_TYPE != REG
  {
    assert SIZE_CELLS[0] != DEVICE_TYPE[0];
  }

  /** The root, when it is not itself a memory node, contributes its two cell counts. */
  lemma {:induction false} RootCells(n: Node, h: Harvest, props: seq<Property>)
    requires UniqueNames(props) && n.unnamed
    requires !(Remembered(n, props).isMemory && Remembered(n, props).reg != None)
    ensures var ac, sc := Lookup(props, ADDRESS_CELLS), Lookup(props, SIZE_CELLS);
      && (HarvestProps(InNode(n, h), props).Ok? <==> CellsFine(ac) && CellsFine(sc))
      && (HarvestProps(InNode(n, h), props).Ok? ==>
        HarvestProps(InNode(n, h), props).value.harvest
        == Harvest(CellsValue(ac, h.addressCells), CellsValue(sc, h.sizeCells), h.memory))
    decreases |props|
  {
    if props != [] {
      NamesDiffer();
      UniqueTail(props);
      RememberedStep(n, props);
      var p := props[0];
      var n1 := NodeStep(n, p.name, p.value);
      var r := CellsStep(n, h, p.name, p.value);
      if r.Ok? {
        StillNotMemory(n1, props[1..]);
        assert PropStep(InNode(n, h), p) == Ok(InNode(n1, r.value));
        RootCells(n1, r.value, props[1..]);
      }
    }
  }

  lemma StillNotMemory(n: Node, props: seq<Property>)
    requires !(Remembered(n, props).isMemory && Remembered(n, props).reg != None)
    ensures !(n.isMemory && n.reg != None)
  {
  }

  // ---- A root that is a memory node ----

  predicate Ready(n: Node) {
    n.isMemory && n.reg != None
  }

  /** The place of a property, or the number of properties. */
  function Index(props: seq<Property>, name: Bytes): (i: nat)
    ensures i <= |props| && (i < |props| <==> Lookup(props, name) != None)
    ensures i < |props| ==> props[i].name == name && Lookup(props, name) == Some(props[i].value)
  {
    if props == [] then 0 else if props[0].name == name then 0 else 1 + Index(props[1..], name)
  }

  /** How many properties it takes until the node is known to be memory and to have a `reg`. */
  function ReadyAfter(n: Node, props: seq<Property>): nat {
    Max(if n.isMemory then 0 else Index(props, DEVICE_TYPE) + 1, if n.reg != None then 0 else Index(props, REG) + 1)
  }

  function Max(a: nat, b: nat): nat {
    if a < b then b else a
  }

  /** Both cell counts are known by the time they are needed. */
  predicate CellsInTime(n: Node, h: Harvest, props: seq<Property>) {
    && (h.addressCells != None || Index(props, ADDRESS_CELLS) < ReadyAfter(n, props))
    && (h.sizeCells != None || Index(props, SIZE_CELLS) < ReadyAfter(n, props))
  }

  /** After the decoding, the rest of the node changes nothing. */
  lemma {:induction false} AfterDecoding(n: Node, h: Harvest, props: seq<Property>)
    requires UniqueNames(props) && Ready(n) && MemoryStep(n, h) == Ok(h)
    requires Lookup(props, ADDRESS_CELLS) == None && Lookup(props, SIZE_CELLS) == None && Lookup(props, REG) == None
    ensures HarvestProps(InNode(n, h), props) == Ok(InNode(n, h))
    decreases |props|
  {
    if props != [] {
      var p := props[0];
      UniqueTail(props);
      assert NodeStep(n, p.name, p.value) == n && CellsStep(n, h, p.name, p.value) == Ok(h);
      AfterDecoding(n, h, props[1..]);
    }
  }

  /** The counts, once all properties have been seen. */
  function CellsAfter(h: Harvest, props: seq<Property>): Harvest
    requires CellsFine(Lookup(props, ADDRESS_CELLS)) && CellsFine(Lookup(props, SIZE_CELLS))
  {
    Harvest(CellsValue(Lookup(props, ADDRESS_CELLS), h.addressCells),
            CellsValue(Lookup(props, SIZE_CELLS), h.sizeCells), h.memory)
  }

  /** The first property of a node that is not yet ready. */
  lemma ReadyAfterStep(n: Node, props: seq<Property>)
    requires props != [] && UniqueNames(props) && !Ready(n) && Ready(Remembered(n, props))
    ensures var n1 := NodeStep(n, props[0].name, props[0].value);
      ReadyAfter(n, props) == if Ready(n1) then 1 else 1 + ReadyAfter(n1, props[1..])
  {
    NamesDiffer();
    UniqueTail(props);
  }

  /** The root decodes its `reg` with its own cell counts, if they are well-formed and come in time. */
  ghost predicate RootDecodes(n: Node, h: Harvest, props: seq<Property>, r: Result<InNode>) {
    var fine := CellsFine(Lookup(props, ADDRESS_CELLS)) && CellsFine(Lookup(props, SIZE_CELLS));
    && (r.Ok? <==> fine && CellsInTime(n, h, props) && MemoryStep(Remembered(n, props), CellsAfter(h, props)).Ok?)
    && (r.Ok? ==> Ok(r.value.harvest) == MemoryStep(Remembered(n, props), CellsAfter(h, props)))
  }

  /** No property that is still to come has been seen. */
  ghost predicate Unseen(n: Node, h: Harvest, props: seq<Property>) {
    && (n.reg != None ==> Lookup(props, REG) == None)
    && (h.addressCells != None ==> Lookup(props, ADDRESS_CELLS) == None)
    && (h.sizeCells != None ==> Lookup(props, SIZE_CELLS) == None)
  }

  lemma ReadyNow(n: Node, h: Harvest, props: seq<Property>)
    requires props != [] && UniqueNames(props) && n.unnamed && !Ready(n) && Unseen(n, h, props)
    requires Ready(NodeStep(n, props[0].name, props[0].value))
    ensures RootDecodes(n, h, props, HarvestProps(InNode(n, h), props))
  {
    var p, tail := props[0], props[1..];
    var n1 := NodeStep(n, p.name, p.value);
    NamesDiffer();
    UniqueTail(props);
    RememberedStep(n, props);
    ReadyAfterStep(n, props);
    assert CellsStep(n, h, p.name, p.value) == Ok(h) && Remembered(n1, tail) == n1;
    var d := MemoryStep(n1, h);
    if d.Ok? {
      AfterDecoding(n1, d.value, tail);
    }
  }

  lemma NotReadyYet(n: Node, h: Harvest, props: seq<Property>, h1: Harvest)
    requires props != [] && UniqueNames(props) && n.unnamed && !Ready(n) && Ready(Remembered(n, props))
    requires Unseen(n, h, props) && CellsStep(n, h, props[0].name, props[0].value) == Ok(h1)
    requires !Ready(NodeStep(n, props[0].name, props[0].value))
    ensures var n1 := NodeStep(n, props[0].name, props[0].value);
      && UniqueNames(props[1..]) && n1.unnamed && Ready(Remembered(n1, props[1..])) && Unseen(n1, h1, props[1..])
      && HarvestProps(InNode(n, h), props) == HarvestProps(InNode(n1, h1), props[1..])
      && (CellsInTime(n, h, props) <==> CellsInTime(n1, h1, props[1..]))
  {
    NamesDiffer();
    UniqueTail(props);
    RememberedStep(n, props);
    ReadyAfterStep(n, props);
    assert PropStep(InNode(n, h), props[0]) == Ok(InNode(NodeStep(n, props[0].name, props[0].value), h1));
  }

  lemma CellsAfterStep(n: Node, h: Harvest, props: seq<Property>, h1: Harvest)
    requires props != [] && UniqueNames(props) && n.unnamed && Unseen(n, h, props)
    requires CellsStep(n, h, props[0].name, props[0].value) == Ok(h1)
    ensures CellsFine(Lookup(props, ADDRESS_CELLS)) == CellsFine(Lookup(props[1..], ADDRESS_CELLS))
    ensures CellsFine(Lookup(props, SIZE_CELLS)) == CellsFine(Lookup(props[1..], SIZE_CELLS))
    ensures CellsFine(Lookup(props, ADDRESS_CELLS)) && CellsFine(Lookup(props, SIZE_CELLS))
      ==> CellsAfter(h, props) == CellsAfter(h1, props[1..])
  {
    NamesDiffer();
    UniqueTail(props);
  }

  /** A root that is a memory node, from any of its properties on. */
  lemma {:induction false} RootMemory(n: Node, h: Harvest, props: seq<Property>)
    requires UniqueNames(props) && n.unnamed && !Ready(n) && Ready(Remembered(n, props)) && Unseen(n, h, props)
    ensures RootDecodes(n, h, props, HarvestProps(InNode(n, h), props))
    decreases |props|
  {
    var p := props[0];
    var n1, r := NodeStep(n, p.name, p.value), CellsStep(n, h, p.name, p.value);
    if r.Ok? {
      if Ready(n1) {
        ReadyNow(n, h, props);
      } else {
        NotReadyYet(n, h, props, r.value);
        CellsAfterStep(n, h, props, r.value);
        RememberedStep(n, props);
        RootMemory(n1, r.value, props[1..]);
      }
    }
  }

  /** In the root: each cell count comes before the later of `device_type` and `reg`. */
  predicate CellsBeforeMemory(props: seq<Property>) {
    CellsInTime(FreshNode([]), NOTHING, props)
  }

  lemma RootIsMemory(props: seq<Property>)
    ensures MemoryReg(props) != None <==> Ready(Remembered(FreshNode([]), props))
  {
  }

  lemma RootDecoding(h: Harvest, props: seq<Property>)
    requires MemoryReg(props) != None
    ensures MemoryStep(Remembered(FreshNode([]), props), h) == Decode(h, MemoryReg(props).value)
  {
  }

  /** The root is accepted exactly when its cell counts have four bytes and, if it is a memory node itself,
      both come before the later of `device_type` and `reg`, and its `reg` decodes; it contributes the cell
      counts and those regions. */
  lemma RootNode(props: seq<Property>)
    requires UniqueNames(props)
    ensures var r := HarvestProps(InNode(FreshNode([]), NOTHING), props);
      var fine := CellsFine(Lookup(props, ADDRESS_CELLS)) && CellsFine(Lookup(props, SIZE_CELLS));
      && (r.Ok? <==> fine && (MemoryReg(props) != None ==>
           CellsBeforeMemory(props) && Decode(CellsAfter(NOTHING, props), MemoryReg(props).value).Ok?))
      && (r.Ok? ==> Ok(r.value.harvest) == if MemoryReg(props) == None then Ok(CellsAfter(NOTHING, props))
                                           else Decode(CellsAfter(NOTHING, props), MemoryReg(props).value))
  {
    if MemoryReg(props) == None {
      RootCells(FreshNode([]), NOTHING, props);
    } else {
      RootIsMemory(props);
      RootMemory(FreshNode([]), NOTHING, props);
      if CellsFine(Lookup(props, ADDRESS_CELLS)) && CellsFine(Lookup(props, SIZE_CELLS)) {
        RootDecoding(CellsAfter(NOTHING, props), props);
      }
    }
  }

  /** Reordering the properties of an accepted root keeps it accepted exactly when the root is no memory
      node or its cell counts still come before its memory, and then nothing else changes. */
  lemma AnyRootOrder(props: seq<Property>, other: seq<Property>)
    requires UniqueNames(props) && UniqueNames(other) && multiset(props) == multiset(other)
    requires HarvestProps(InNode(FreshNode([]), NOTHING), props).Ok?
    ensures var r, r' := HarvestProps(InNode(FreshNode([]), NOTHING), props),
                         HarvestProps(InNode(FreshNode([]), NOTHING), other);
      && (r'.Ok? <==> MemoryReg(other) == None || CellsBeforeMemory(other))
      && (r'.Ok? ==> r'.value.harvest == r.value.harvest)
  {
    LookupPermuted(props, other, ADDRESS_CELLS);
    LookupPermuted(props, other, SIZE_CELLS);
    LookupPermuted(props, other, DEVICE_TYPE);
    LookupPermuted(props, other, REG);
    RootNode(props);
    RootNode(other);
  }

  lemma OneProp(s: InNode, p: Property, rest: seq<Property>)
    ensures HarvestProps(s, [p] + rest)
         == if PropStep(s, p).Ok? then HarvestProps(PropStep(s, p).value, rest) else Panicked(PropStep(s, p).reason)
  {
    assert ([p] + rest)[1..] == rest;
  }

  /** Two cell counts in front of the memory, and behind it. */
  lemma CellsThenMemory(ac: Property, sc: Property, ty: Property, rg: Property)
    requires ac.name == ADDRESS_CELLS && sc.name == SIZE_CELLS && ty.name == DEVICE_TYPE && rg.name == REG
    requires |ac.value| == 4 && |sc.value| == 4 && ty.value == MEMORY + [0]
    requires DecodeReg(Be32(ac.value, 0), Be32(sc.value, 0), rg.value).Ok?
    ensures HarvestProps(InNode(FreshNode([]), NOTHING), [ac] + ([sc] + ([ty] + ([rg] + [])))).Ok?
    ensures HarvestProps(InNode(FreshNode([]), NOTHING), [ty] + ([rg] + ([ac] + ([sc] + [])))).Panicked?
  {
    NamesDiffer();
    var start := InNode(FreshNode([]), NOTHING);
    var h1 := NOTHING.(addressCells := Some(Be32(ac.value, 0)));
    var h2 := h1.(sizeCells := Some(Be32(sc.value, 0)));
    var typed := Node(true, true, None);
    OneProp(start, ac, [sc] + ([ty] + ([rg] + [])));
    OneProp(InNode(FreshNode([]), h1), sc, [ty] + ([rg] + []));
    OneProp(InNode(FreshNode([]), h2), ty, [rg] + []);
    OneProp(InNode(typed, h2), rg, []);
    OneProp(start, ty, [rg] + ([ac] + ([sc] + [])));
    OneProp(InNode(typed, NOTHING), rg, [ac] + ([sc] + []));
  }

  lemma FourNames(a: Property, b: Property, c: Property, d: Property)
    requires a.name != b.name && a.name != c.name && a.name != d.name
    requires b.name != c.name && b.name != d.name && c.name != d.name
    ensures UniqueNames([a] + ([b] + ([c] + ([d] + []))))
  {
  }

  lemma Exchanged<T>(a: T, b: T, c: T, d: T)
    ensures multiset([a] + ([b] + ([c] + ([d] + [])))) == multiset([c] + ([d] + ([a] + ([b] + []))))
  {
    var ab, cd := [a, b], [c, d];
    assert [a] + ([b] + ([c] + ([d] + []))) == ab + cd && [c] + ([d] + ([a] + ([b] + []))) == cd + ab;
    assert multiset(ab + cd) == multiset(ab) + multiset(cd) == multiset(cd + ab);
  }

  lemma OneByteOfMemory() returns (cells: Bytes, reg: Bytes)
    ensures |cells| == 4 && DecodeReg(Be32(cells, 0), Be32(cells, 0), reg).Ok?
  {
    var rs := [Region(0, 1)];
    assert rs[0].Valid() && Representable(1, 1, rs);
    cells, reg := Enc32(1), EncodeReg(1, 1, rs);
    DecodeInvertsEncode(1, 1, reg, rs);
  }

  /** An accepted memory root with a permutation that is rejected. */
  lemma OrderMatters() returns (props: seq<Property>, other: seq<Property>)
    ensures UniqueNames(props) && UniqueNames(other) && multiset(props) == multiset(other)
    ensures HarvestProps(InNode(FreshNode([]), NOTHING), props).Ok?
    ensures HarvestProps(InNode(FreshNode([]), NOTHING), other).Panicked?
  {
    var cells, reg := OneByteOfMemory();
    var ac, sc := Property(ADDRESS_CELLS, cells), Property(SIZE_CELLS, cells);
    var ty, rg := Property(DEVICE_TYPE, MEMORY + [0]), Property(REG, reg);
    NamesDiffer();
    FourNames(ac, sc, ty, rg);
    FourNames(ty, rg, ac, sc);
    Exchanged(ac, sc, ty, rg);
    CellsThenMemory(ac, sc, ty, rg);
    props, other := [ac] + ([sc] + ([ty] + ([rg] + []))), [ty] + ([rg] + ([ac] + ([sc] + [])));
  }

  // ---- The order of device_type and reg in any node ----

  lemma {:induction false} HarvestConcat(s: InNode, a: seq<Property>, b: seq<Property>)
    ensures HarvestProps(s, a + b) == if HarvestProps(s, a).Ok? then HarvestProps(HarvestProps(s, a).value, b)
                                      else HarvestProps(s, a)
    decreases |a|
  {
    if a == [] {
      assert a + b == b;
    } else {
      assert (a + b)[1..] == a[1..] + b;
      if PropStep(s, a[0]).Ok? {
        HarvestConcat(PropStep(s, a[0]).value, a[1..], b);
      }
    }
  }

  /** No property is `device_type` or `reg`. */
  ghost predicate OfOtherNames(props: seq<Property>) {
    forall k :: 0 <= k < |props| ==> props[k].name != DEVICE_TYPE && props[k].name != REG
  }

  /** Such properties do nothing to a node that is not ready, and their effect does not depend on it. */
  lemma {:induction false} OtherNames(n: Node, m: Node, h: Harvest, props: seq<Property>)
    requires OfOtherNames(props) && !Ready(n) && !Ready(m) && n.unnamed == m.unnamed
    ensures var r, r' := HarvestProps(InNode(n, h), props), HarvestProps(InNode(m, h), props);
      if r.Ok? then r.value.node == n && r' == Ok(InNode(m, r.value.harvest)) else r' == r
    decreases |props|
  {
    if props != [] {
      var c := CellsStep(n, h, props[0].name, props[0].value);
      if c.Ok? {
        OtherNames(n, m, c.value, props[1..]);
      }
    }
  }

  /** Exchanging `device_type` and `reg` changes nothing in a node, named or root, that has no other property of
      these names before the later of the two. */
  lemma TypeAndRegOrder(n: Node, h: Harvest, a: seq<Property>, t: Property, b: seq<Property>, r: Property,
                        c: seq<Property>)
    requires t.name == DEVICE_TYPE && r.name == REG && OfOtherNames(a) && OfOtherNames(b)
    requires !n.isMemory && n.reg == None
    ensures HarvestProps(InNode(n, h), a + ([t] + (b + ([r] + c))))
         == HarvestProps(InNode(n, h), a + ([r] + (b + ([t] + c))))
  {
    HarvestConcat(InNode(n, h), a, [t] + (b + ([r] + c)));
    HarvestConcat(InNode(n, h), a, [r] + (b + ([t] + c)));
    OtherNames(n, n, h, a);
    var s := HarvestProps(InNode(n, h), a);
    if s.Ok? {
      BetweenTypeAndReg(n, s.value.harvest, t, b, r, c);
    }
  }

  lemma BetweenTypeAndReg(n: Node, h: Harvest, t: Property, b: seq<Property>, r: Property, c: seq<Property>)
    requires t.name == DEVICE_TYPE && r.name == REG && OfOtherNames(b) && !n.isMemory && n.reg == None
    ensures HarvestProps(InNode(n, h), [t] + (b + ([r] + c))) == HarvestProps(InNode(n, h), [r] + (b + ([t] + c)))
  {
    NamesDiffer();
    var typed, registered := NodeStep(n, t.name, t.value), NodeStep(n, r.name, r.value);
    FirstProp(InNode(n, h), t, b + ([r] + c), typed);
    FirstProp(InNode(n, h), r, b + ([t] + c), registered);
    OtherNames(typed, registered, h, b);
    HarvestConcat(InNode(typed, h), b, [r] + c);
    HarvestConcat(InNode(registered, h), b, [t] + c);
    var s := HarvestProps(InNode(typed, h), b);
    if s.Ok? {
      assert NodeStep(typed, r.name, r.value) == NodeStep(registered, t.name, t.value);
      assert PropStep(s.value, r) == PropStep(InNode(registered, s.value.harvest), t);
      assert ([r] + c)[1..] == c && ([t] + c)[1..] == c;
    }
  }

  /** A property that leaves the node not ready, and is no cell count, changes only the node. */
  lemma FirstProp(s: InNode, p: Property, rest: seq<Property>, n1: Node)
    requires p.name != ADDRESS_CELLS && p.name != SIZE_CELLS && n1 == NodeStep(s.node, p.name, p.value) && !Ready(n1)
    ensures HarvestProps(s, [p] + rest) == HarvestProps(InNode(n1, s.harvest), rest)
  {
    assert ([p] + rest)[1..] == rest;
  }

  // ---- The whole tree ----

  /** Every node below has a name, and property names are unique in each node. */
  ghost predicate NamedAndUnique(t: Tree)
    decreases t, 0
  {
    t.name != [] && UniqueNames(t.props) && AllNamedAndUnique(t.children)
  }

  ghost predicate AllNamedAndUnique(ts: seq<Tree>)
    decreases ts
  {
    ts == [] || (NamedAndUnique(ts[0]) && AllNamedAndUnique(ts[1..]))
  }

  /** The `reg` values of the memory nodes, in the order of the structure block. */
  function MemoryRegs(t: Tree): seq<Bytes>
    decreases t, 0
  {
    (if MemoryReg(t.props) == None then [] else [MemoryReg(t.props).value]) + MemoryRegsOfAll(t.children)
  }

  function MemoryRegsOfAll(ts: seq<Tree>): seq<Bytes>
    decreases ts
  {
    if ts == [] then [] else MemoryRegs(ts[0]) + MemoryRegsOfAll(ts[1..])
  }

  function DecodeAll(h: Harvest, regs: seq<Bytes>): Result<Harvest>
    decreases |regs|
  {
    if regs == [] then Ok(h)
    else
      var h' :- Decode(h, regs[0]);
      DecodeAll(h', regs[1..])
  }

  lemma {:induction false} DecodeAppend(h: Harvest, a: seq<Bytes>, b: seq<Bytes>)
    ensures DecodeAll(h, a + b) ==
      match DecodeAll(h, a)
      case Panicked(why) => Panicked(why)
      case Ok(h') => DecodeAll(h', b)
    decreases |a|
  {
    if a == [] {
      assert a + b == b;
    } else {
      assert (a + b)[1..] == a[1..] + b && (a + b)[0] == a[0];
      var r := Decode(h, a[0]);
      if r.Ok? {
        DecodeAppend(r.value, a[1..], b);
      }
    }
  }

  lemma {:induction false} HarvestIsDecoding(t: Tree, h: Harvest)
    requires NamedAndUnique(t)
    ensures HarvestTree(t, h) == DecodeAll(h, MemoryRegs(t))
    decreases t, 0
  {
    NamedNode(t.name, h, t.props);
    var own := if MemoryReg(t.props) == None then [] else [MemoryReg(t.props).value];
    assert MemoryReg(t.props) != None ==> own[1..] == [];
    DecodeAppend(h, own, MemoryRegsOfAll(t.children));
    var s := HarvestProps(InNode(FreshNode(t.name), h), t.props);
    if s.Ok? {
      ForestIsDecoding(t.children, s.value.harvest);
    }
  }

  lemma {:induction false} ForestIsDecoding(ts: seq<Tree>, h: Harvest)
    requires AllNamedAndUnique(ts)
    ensures HarvestAll(ts, h) == DecodeAll(h, MemoryRegsOfAll(ts))
    decreases ts
  {
    if ts != [] {
      HarvestIsDecoding(ts[0], h);
      DecodeAppend(h, MemoryRegs(ts[0]), MemoryRegsOfAll(ts[1..]));
      var r := HarvestTree(ts[0], h);
      if r.Ok? {
        ForestIsDecoding(ts[1..], r.value);
      }
    }
  }

  /** All are decodable with the cell counts known. */
  ghost predicate AllDecode(h: Harvest, regs: seq<Bytes>) {
    regs != [] ==>
      && h.addressCells != None && h.sizeCells != None
      && forall k :: 0 <= k < |regs| ==> DecodeReg(h.addressCells.value, h.sizeCells.value, regs[k]).Ok?
  }

  ghost function LastDecoded(h: Harvest, regs: seq<Bytes>): seq<Region>
    requires regs != [] && AllDecode(h, regs)
  {
    DecodeReg(h.addressCells.value, h.sizeCells.value, regs[|regs| - 1]).value
  }

  /** A sequence of decodings succeeds when each does; the last one is what remains visible. */
  lemma {:induction false} LastMemoryWins(h: Harvest, regs: seq<Bytes>)
    ensures DecodeAll(h, regs).Ok? <==> AllDecode(h, regs)
    ensures AllDecode(h, regs) ==>
      DecodeAll(h, regs).value == if regs == [] then h else h.(memory := Some(LastDecoded(h, regs)))
    decreases |regs|
  {
    if regs != [] {
      assert regs == [regs[0]] + regs[1..];
      var r := Decode(h, regs[0]);
      if r.Ok? {
        LastMemoryWins(r.value, regs[1..]);
      }
    }
  }

  /** The trees of the specification: the root alone has the empty name, and property names are unique in
      every node. */
  ghost predicate Proper(root: Tree) {
    root.name == [] && UniqueNames(root.props) && AllNamedAndUnique(root.children)
  }

  /** The values a tree declares: its root's cell counts, with no memory yet. */
  ghost function Declared(root: Tree): Harvest
    requires CellsFine(Lookup(root.props, ADDRESS_CELLS)) && CellsFine(Lookup(root.props, SIZE_CELLS))
  {
    CellsAfter(NOTHING, root.props)
  }

  /** The cell counts are well-formed, every memory node's `reg` decodes with them, and if the root is itself a
      memory node, they come in time. */
  ghost predicate Acceptable(root: Tree) {
    && CellsFine(Lookup(root.props, ADDRESS_CELLS)) && CellsFine(Lookup(root.props, SIZE_CELLS))
    && AllDecode(Declared(root), MemoryRegs(root))
    && (MemoryReg(root.props) != None ==> CellsBeforeMemory(root.props))
  }

  /** The memory a tree declares: the regions of its last memory node, if it has any. */
  ghost function DeclaredMemory(root: Tree): Option<seq<Region>>
    requires Acceptable(root)
  {
    if MemoryRegs(root) == [] then None else Some(LastDecoded(Declared(root), MemoryRegs(root)))
  }

  /** The recursion over a proper tree accepts exactly the acceptable trees, and finds what they declare. */
  lemma TreeMeaning(root: Tree)
    requires Proper(root)
    ensures HarvestTree(root, NOTHING).Ok? <==> Acceptable(root)
    ensures Acceptable(root) ==> HarvestTree(root, NOTHING).value == Declared(root).(memory := DeclaredMemory(root))
  {
    RootNode(root.props);
    var s := HarvestProps(InNode(FreshNode([]), NOTHING), root.props);
    if CellsFine(Lookup(root.props, ADDRESS_CELLS)) && CellsFine(Lookup(root.props, SIZE_CELLS)) {
      LastMemoryWins(Declared(root), MemoryRegs(root));
      OwnMemoryFirst(root, Declared(root));
    }
    if s.Ok? {
      ForestIsDecoding(root.children, s.value.harvest);
    }
  }

  /** A node's own memory is decoded before its children's. */
  lemma OwnMemoryFirst(t: Tree, h: Harvest)
    ensures var own := if MemoryReg(t.props) == None then Ok(h) else Decode(h, MemoryReg(t.props).value);
      DecodeAll(h, MemoryRegs(t))
      == if own.Ok? then DecodeAll(own.value, MemoryRegsOfAll(t.children)) else Panicked(own.reason)
  {
    if MemoryReg(t.props) != None {
      assert MemoryRegs(t)[1..] == MemoryRegsOfAll(t.children);
    } else {
      assert MemoryRegs(t) == MemoryRegsOfAll(t.children);
    }
  }
}
