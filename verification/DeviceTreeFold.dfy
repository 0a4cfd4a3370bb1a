/**
 What the token walk computes, as a fold over the token list: node nesting, the current node's
 context, and the values harvested for memory set-up (kernel/Hardware/DeviceTree.c, token loop).
 */
module DeviceTreeFold {
  import opened Words
  import opened Endian
  import opened Strings
  import opened Panic
  import opened Memory
  import opened TokenCut
  import opened DeviceTreeTokens

  const ADDRESS_CELLS := Ascii("#address-cells")
  const SIZE_CELLS := Ascii("#size-cells")
  const DEVICE_TYPE := Ascii("device_type")
  const REG := Ascii("reg")
  const MEMORY := Ascii("memory")

  /** What the walk leaves in the caller's structure. */
  datatype Harvest = Harvest(addressCells: Option<U32>, sizeCells: Option<U32>, memory: Option<seq<Region>>)

  const NOTHING := Harvest(None, None, None)

  /** What is remembered of the most recently begun node. */
  datatype Node = Node(unnamed: bool, isMemory: bool, reg: Option<Bytes>)

  function FreshNode(name: Bytes): Node {
    Node(name == [], false, None)
  }

  datatype Walk = Walk(depth: nat, node: Node, harvest: Harvest)

  /** Before the first node, the current name is the empty string. */
  const START := Walk(0, Node(true, false, None), NOTHING)

  function CellsStep(node: Node, h: Harvest, name: Bytes, value: Bytes): Result<Harvest> {
    if node.unnamed && name == ADDRESS_CELLS then
      if |value| != 4 then Panicked(AddressCellsNot32Bit) else Ok(h.(addressCells := Some(Be32(value, 0))))
    else if node.unnamed && name == SIZE_CELLS then
      if |value| != 4 then Panicked(SizeCellsNot32Bit) else Ok(h.(sizeCells := Some(Be32(value, 0))))
    else Ok(h)
  }

  function NodeStep(node: Node, name: Bytes, value: Bytes): Node {
    if name == DEVICE_TYPE then
      if value == MEMORY + [0] then node.(isMemory := true) else node
    else if name == REG then node.(reg := Some(value))
    else node
  }

  /** Decodes the node's `reg` as soon as the node is known to be memory. */
  function MemoryStep(node: Node, h: Harvest): Result<Harvest> {
    if node.reg == None || !node.isMemory then Ok(h)
    else if h.addressCells == None || h.sizeCells == None then Panicked(CellsNotInitialized)
    else
      var regions :- DecodeReg(h.addressCells.value, h.sizeCells.value, node.reg.value);
      Ok(h.(memory := Some(regions)))
  }

  datatype Property = Property(name: Bytes, value: Bytes)
  datatype InNode = InNode(node: Node, harvest: Harvest)

  function PropStep(s: InNode, p: Property): Result<InNode> {
    var h :- CellsStep(s.node, s.harvest, p.name, p.value);
    var node := NodeStep(s.node, p.name, p.value);
    var h' :- MemoryStep(node, h);
    Ok(InNode(node, h'))
  }

  /** A new current node, one level deeper. */
  function BegunNode(w: Walk, name: Bytes): Walk {
    Walk(w.depth + 1, FreshNode(name), w.harvest)
  }

  function Step(w: Walk, t: Token): Result<Walk> {
    match t
    case BeginNode(name) => Ok(BegunNode(w, name))
    case EndNode => if w.depth == 0 then Panicked(UnmatchedEndNode) else Ok(w.(depth := w.depth - 1))
    case Prop(name, value) =>
      var s :- PropStep(InNode(w.node, w.harvest), Property(name, value));
      Ok(Walk(w.depth, s.node, s.harvest))
    case Nop => Ok(w)
    case End => Ok(w)
    case Bad(reason) => Panicked(reason)
  }

  /** The checks after the loop. */
  function Finish(w: Walk, ended: bool): Result<Harvest> {
    if w.depth != 0 then Panicked(NestingMismatch)
    else if !ended then Panicked(NotOneEndToken)
    else Ok(w.harvest)
  }

  /** The verdict on a token list: nothing after the first FDT_END is looked at. */
  function Run(w: Walk, ts: seq<Token>): Result<Harvest>
    decreases |ts|
  {
    if ts == [] then Finish(w, false)
    else
      var w' :- Step(w, ts[0]);
      if ts[0].End? then Finish(w', true) else Run(w', ts[1..])
  }

  lemma RunCons(w: Walk, t: Token, ts: seq<Token>)
    requires !t.End?
    ensures Run(w, [t] + ts) == if Step(w, t).Ok? then Run(Step(w, t).value, ts) else Panicked(Step(w, t).reason)
  {
    assert ([t] + ts)[1..] == ts;
  }

  /** The verdict on a structure block at an address. */
  ghost function Verdict(block: Bytes, address: nat, names: Names): Result<Harvest>
    requires names.Valid()
  {
    Run(START, Tokens(block, address, names))
  }

  // ---- Accepted token streams ----

  /** Begun minus ended nodes. */
  function Net(ts: seq<Token>): int {
    if ts == [] then 0
    else (if ts[0].BeginNode? then 1 else if ts[0].EndNode? then -1 else 0) + Net(ts[1..])
  }

  /** Nesting, from a given depth, never goes negative and returns to zero. */
  ghost predicate Balanced(depth: int, ts: seq<Token>) {
    && (forall k :: 0 <= k <= |ts| ==> depth + Net(ts[..k]) >= 0)
    && depth + Net(ts) == 0
  }

  /** The properties alone, with no regard to nesting or to how the stream ends. */
  function Contents(s: InNode, ts: seq<Token>): Result<InNode>
    decreases |ts|
  {
    if ts == [] then Ok(s)
    else
      var s' :- ContentStep(s, ts[0]);
      Contents(s', ts[1..])
  }

  function ContentStep(s: InNode, t: Token): Result<InNode> {
    match t
    case BeginNode(name) => Ok(InNode(FreshNode(name), s.harvest))
    case Prop(name, value) => PropStep(s, Property(name, value))
    case Bad(reason) => Panicked(reason)
    case _ => Ok(s)
  }

  /** A step is a content step together with a change of depth that must not go below zero. */
  lemma StepSplits(w: Walk, t: Token)
    ensures Step(w, t).Ok? <==> w.depth + Net([t]) >= 0 && ContentStep(InNode(w.node, w.harvest), t).Ok?
    ensures Step(w, t).Ok? ==>
      && Step(w, t).value.depth == w.depth + Net([t])
      && InNode(Step(w, t).value.node, Step(w, t).value.harvest)
         == ContentStep(InNode(w.node, w.harvest), t).value
  {
    assert [t][1..] == [];
  }

  lemma {:induction false} BalancedStep(depth: int, ts: seq<Token>)
    requires ts != []
    ensures Balanced(depth, ts) <==> depth >= 0 && Balanced(depth + Net([ts[0]]), ts[1..])
  {
    var d := depth + Net([ts[0]]);
    assert Net([ts[0]]) + Net(ts[1..]) == Net(ts) by { assert [ts[0]][1..] == []; }
    forall k | 1 <= k <= |ts|
      ensures depth + Net(ts[..k]) == d + Net(ts[1..][..k - 1])
    {
      assert ts[..k][1..] == ts[1..][..k - 1] && ts[..k][0] == ts[0];
      assert [ts[0]][1..] == [];
    }
    if Balanced(depth, ts) {
      assert depth + Net(ts[..0]) >= 0;
      forall j | 0 <= j <= |ts[1..]|
        ensures d + Net(ts[1..][..j]) >= 0
      {
        assert depth + Net(ts[..j + 1]) == d + Net(ts[1..][..j + 1 - 1]);
      }
    }
  }

  /** A stream is accepted exactly when it is closed by FDT_END, its nesting never goes negative and
      ends at zero, and its tokens and properties are acceptable one by one; the harvest is theirs. */
  lemma {:induction false} AcceptedStreams(w: Walk, ts: seq<Token>)
    requires OnlyLastStops(ts)
    ensures Run(w, ts).Ok? <==>
      && Closed(ts)
      && Balanced(w.depth, ts)
      && Contents(InNode(w.node, w.harvest), ts).Ok?
    ensures Run(w, ts).Ok? ==> Run(w, ts).value == Contents(InNode(w.node, w.harvest), ts).value.harvest
    decreases |ts|
  {
    if ts != [] {
      StepSplits(w, ts[0]);
      BalancedStep(w.depth, ts);
      if |ts| == 1 {
        assert ts[1..] == [];
        BalancedNil(w.depth + Net([ts[0]]));
      } else {
        assert !ts[0].Stops();
        assert ts[1..][|ts| - 2] == ts[|ts| - 1];
        assert OnlyLastStops(ts[1..]) by {
          assert forall k :: 0 <= k < |ts| - 2 ==> ts[1..][k] == ts[k + 1];
        }
        var r := Step(w, ts[0]);
        if r.Ok? {
          AcceptedStreams(r.value, ts[1..]);
        } else if w.depth + Net([ts[0]]) < 0 {
          NeverBalanced(w.depth + Net([ts[0]]), ts[1..]);
        }
      }
    } else {
      BalancedNil(w.depth);
    }
  }

  lemma BalancedNil(depth: int)
    ensures Balanced(depth, []) <==> depth == 0
  {
    var none: seq<Token> := [];
    assert none[..0] == none;
  }

  lemma NeverBalanced(depth: int, ts: seq<Token>)
    requires depth < 0
    ensures !Balanced(depth, ts)
  {
    assert Net(ts[..0]) == 0;
  }
}
