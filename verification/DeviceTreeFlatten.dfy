/**
 Device trees, their flattening (Devicetree Specification v0.4, sections 5.4 and 5.5), and the walk
 over a flattened tree as a recursion over the tree itself.
 */
module DeviceTreeFlatten {
  import opened Words
  import opened Endian
  import opened Strings
  import opened Panic
  import opened TokenCut
  import opened DeviceTreeTokens
  import opened DeviceTreeFold

  datatype Tree = Tree(name: Bytes, props: seq<Property>, children: seq<Tree>)

  // ---- The bytes of a tree ----

  function BeginBytes(name: Bytes): (s: Bytes)
    ensures |s| >= 4 && |s| % 4 == 0
  {
    Enc32(FDT_BEGIN_NODE) + name + [0] + Zeros(Pad(4 + |name| + 1))
  }

  function PropBytes(offset: U32, value: Bytes): (s: Bytes)
    requires |value| < 0x1_0000_0000
    ensures |s| >= 4 && |s| % 4 == 0
  {
    Enc32(FDT_PROP) + Enc32(|value|) + Enc32(offset) + value + Zeros(Pad(12 + |value|))
  }

  /** Where each property name lies in the strings block. */
  type Offsets = map<Bytes, U32>

  ghost predicate Holds(names: Names, offsets: Offsets) {
    && names.Valid()
    && forall n :: n in offsets ==> offsets[n] < names.size && names.At(offsets[n]) == n
  }

  predicate Flattenable(t: Tree, offsets: Offsets) {
    && NulFree(t.name)
    && PropsFlattenable(t.props, offsets)
    && forall k :: 0 <= k < |t.children| ==> Flattenable(t.children[k], offsets)
  }

  predicate PropsFlattenable(props: seq<Property>, offsets: Offsets) {
    forall k :: 0 <= k < |props| ==> props[k].name in offsets && |props[k].value| < 0x1_0000_0000
  }

  function PropsBytes(props: seq<Property>, offsets: Offsets): Bytes
    requires PropsFlattenable(props, offsets)
  {
    if props == [] then []
    else
      assert PropsFlattenable(props[1..], offsets);
      PropBytes(offsets[props[0].name], props[0].value) + PropsBytes(props[1..], offsets)
  }

  function Flatten(t: Tree, offsets: Offsets): Bytes
    requires Flattenable(t, offsets)
    decreases t, 0
  {
    BeginBytes(t.name) + (PropsBytes(t.props, offsets) + (FlattenAll(t.children, offsets) + Enc32(FDT_END_NODE)))
  }

  function FlattenAll(ts: seq<Tree>, offsets: Offsets): Bytes
    requires forall k :: 0 <= k < |ts| ==> Flattenable(ts[k], offsets)
    decreases ts
  {
    if ts == [] then [] else Flatten(ts[0], offsets) + FlattenAll(ts[1..], offsets)
  }

  /** The structure block of a tree. */
  function StructureBlock(root: Tree, offsets: Offsets): Bytes
    requires Flattenable(root, offsets)
  {
    Flatten(root, offsets) + Enc32(FDT_END)
  }

  // ---- The tokens of a tree ----

  function PropTokens(props: seq<Property>): seq<Token> {
    if props == [] then [] else [Prop(props[0].name, props[0].value)] + PropTokens(props[1..])
  }

  function TokensOf(t: Tree): seq<Token>
    decreases t, 0
  {
    [BeginNode(t.name)] + (PropTokens(t.props) + (TokensOfAll(t.children) + [EndNode]))
  }

  function TokensOfAll(ts: seq<Tree>): seq<Token>
    decreases ts
  {
    if ts == [] then [] else TokensOf(ts[0]) + TokensOfAll(ts[1..])
  }

  // ---- Cutting the bytes gives the tokens ----

  /** The cut of an aligned block. Every token's bytes are a multiple of four, so alignment lasts. */
  ghost function Aligned(names: Names, block: Bytes): seq<Token>
    requires names.Valid()
  {
    Tokens(block, 0, names)
  }

  lemma AlignedCons(names: Names, piece: Bytes, rest: Bytes, token: Token)
    requires names.Valid() && |piece| >= 4 && |piece| % 4 == 0 && !token.Stops()
    requires NextPiece(piece, 0, names) == Piece(token, |piece|)
    ensures Aligned(names, piece + rest) == [token] + Aligned(names, rest)
  {
    CutCons(TokenScanner(names), piece, rest, 0, token);
    CutPhase(TokenScanner(names), rest, |piece|, 0);
  }

  lemma BeginCut(names: Names, name: Bytes, rest: Bytes)
    requires names.Valid() && NulFree(name)
    ensures Aligned(names, BeginBytes(name) + rest) == [BeginNode(name)] + Aligned(names, rest)
  {
    var s, n := BeginBytes(name), 4 + |name|;
    WordAt(s, 0, FDT_BEGIN_NODE);
    assert forall i :: 4 <= i < n ==> s[i] == name[i - 4];
    assert s[n] == 0;
    assert NulAt(s, 4) == n;
    assert s[4..n] == name;
    AlignedCons(names, s, rest, BeginNode(name));
  }

  lemma WordAt(s: Bytes, at: nat, v: U32)
    requires at + 4 <= |s| && s[at..at + 4] == Enc32(v)
    ensures Be32(s, at) == v
  {
    Be32Slice(s, at, at + 4, 0);
  }

  lemma PropCut(names: Names, offset: U32, value: Bytes, rest: Bytes)
    requires names.Valid() && offset < names.size && |value| < 0x1_0000_0000
    ensures Aligned(names, PropBytes(offset, value) + rest) == [Prop(names.At(offset), value)] + Aligned(names, rest)
  {
    var s := PropBytes(offset, value);
    WordAt(s, 0, FDT_PROP);
    WordAt(s, 4, |value|);
    WordAt(s, 8, offset);
    assert s[12..12 + |value|] == value;
    AlignedCons(names, s, rest, Prop(names.At(offset), value));
  }

  lemma EndNodeCut(names: Names, rest: Bytes)
    requires names.Valid()
    ensures Aligned(names, Enc32(FDT_END_NODE) + rest) == [EndNode] + Aligned(names, rest)
  {
    AlignedCons(names, Enc32(FDT_END_NODE), rest, EndNode);
  }

  lemma {:induction false} PropsCut(names: Names, offsets: Offsets, props: seq<Property>, rest: Bytes)
    requires Holds(names, offsets) && PropsFlattenable(props, offsets)
    ensures Aligned(names, PropsBytes(props, offsets) + rest) == PropTokens(props) + Aligned(names, rest)
    decreases |props|
  {
    if props == [] {
      assert PropsBytes(props, offsets) + rest == rest;
    } else {
      var p := props[0];
      var head, tail := PropBytes(offsets[p.name], p.value), PropsBytes(props[1..], offsets);
      PropCut(names, offsets[p.name], p.value, tail + rest);
      PropsCut(names, offsets, props[1..], rest);
      Assoc(head, tail, rest);
      Assoc([Prop(p.name, p.value)], PropTokens(props[1..]), Aligned(names, rest));
    }
  }

  lemma Regroup4<T>(a: seq<T>, b: seq<T>, c: seq<T>, d: seq<T>, e: seq<T>)
    ensures (a + (b + (c + d))) + e == a + (b + (c + (d + e)))
  {
  }

  lemma {:induction false} TreeCut(names: Names, offsets: Offsets, t: Tree, rest: Bytes)
    requires Holds(names, offsets) && Flattenable(t, offsets)
    ensures Aligned(names, Flatten(t, offsets) + rest) == TokensOf(t) + Aligned(names, rest)
    decreases t, 0
  {
    var begin, props := BeginBytes(t.name), PropsBytes(t.props, offsets);
    var below, end := FlattenAll(t.children, offsets), Enc32(FDT_END_NODE);
    BeginCut(names, t.name, props + (below + (end + rest)));
    PropsCut(names, offsets, t.props, below + (end + rest));
    ForestCut(names, offsets, t.children, end + rest);
    EndNodeCut(names, rest);
    Regroup4(begin, props, below, end, rest);
    Regroup4([BeginNode(t.name)], PropTokens(t.props), TokensOfAll(t.children), [EndNode], Aligned(names, rest));
  }

  lemma {:induction false} ForestCut(names: Names, offsets: Offsets, ts: seq<Tree>, rest: Bytes)
    requires Holds(names, offsets)
    requires forall k :: 0 <= k < |ts| ==> Flattenable(ts[k], offsets)
    ensures Aligned(names, FlattenAll(ts, offsets) + rest) == TokensOfAll(ts) + Aligned(names, rest)
    decreases ts
  {
    if ts == [] {
      assert FlattenAll(ts, offsets) + rest == rest;
    } else {
      var head, tail := Flatten(ts[0], offsets), FlattenAll(ts[1..], offsets);
      TreeCut(names, offsets, ts[0], tail + rest);
      ForestCut(names, offsets, ts[1..], rest);
      Assoc(head, tail, rest);
      Assoc(TokensOf(ts[0]), TokensOfAll(ts[1..]), Aligned(names, rest));
    }
  }

  /** The structure block of a tree cuts into the tree's tokens and FDT_END. */
  lemma StructureBlockCuts(root: Tree, address: nat, names: Names, offsets: Offsets)
    requires Holds(names, offsets) && Flattenable(root, offsets) && address % 4 == 0
    ensures Tokens(StructureBlock(root, offsets), address, names) == TokensOf(root) + [End]
  {
    var end := Enc32(FDT_END);
    CutPhase(TokenScanner(names), StructureBlock(root, offsets), address, 0);
    TreeCut(names, offsets, root, end);
    assert NextPiece(end, 0, names) == Piece(End, 4);
    CutEnd(TokenScanner(names), end, [], 0);
    assert end + [] == end;
  }

  // ---- The walk as a recursion over the tree ----

  function HarvestProps(s: InNode, props: seq<Property>): Result<InNode>
    decreases |props|
  {
    if props == [] then Ok(s)
    else
      var s' :- PropStep(s, props[0]);
      HarvestProps(s', props[1..])
  }

  /** A node's properties in order, then its children in order. */
  function HarvestTree(t: Tree, h: Harvest): Result<Harvest>
    decreases t, 0
  {
    var s :- HarvestProps(InNode(FreshNode(t.name), h), t.props);
    HarvestAll(t.children, s.harvest)
  }

  function HarvestAll(ts: seq<Tree>, h: Harvest): Result<Harvest>
    decreases ts
  {
    if ts == [] then Ok(h)
    else
      var h' :- HarvestTree(ts[0], h);
      HarvestAll(ts[1..], h')
  }

  lemma {:induction false} RunProps(w: Walk, props: seq<Property>, rest: seq<Token>)
    ensures match HarvestProps(InNode(w.node, w.harvest), props)
      case Panicked(why) => Run(w, PropTokens(props) + rest) == Panicked(why)
      case Ok(s) => Run(w, PropTokens(props) + rest) == Run(Walk(w.depth, s.node, s.harvest), rest)
    decreases |props|
  {
    if props == [] {
      assert PropTokens(props) + rest == rest;
    } else {
      var t := Prop(props[0].name, props[0].value);
      assert PropTokens(props) + rest == [t] + (PropTokens(props[1..]) + rest);
      assert Property(t.name, t.value) == props[0];
      RunCons(w, t, PropTokens(props[1..]) + rest);
      if Step(w, t).Ok? {
        RunProps(Step(w, t).value, props[1..], rest);
      }
    }
  }

  /** Running a tree's tokens: the depth is restored, the harvest is the tree's. */
  lemma {:induction false} RunTree(w: Walk, t: Tree, rest: seq<Token>) returns (w': Walk)
    ensures match HarvestTree(t, w.harvest)
      case Panicked(why) => Run(w, TokensOf(t) + rest) == Panicked(why)
      case Ok(h) => w'.depth == w.depth && w'.harvest == h && Run(w, TokensOf(t) + rest) == Run(w', rest)
    decreases t, 0
  {
    var begin := BeginNode(t.name);
    var props, below := PropTokens(t.props), TokensOfAll(t.children);
    Regroup4([begin], props, below, [EndNode], rest);
    RunCons(w, begin, props + (below + ([EndNode] + rest)));
    var w1 := Walk(w.depth + 1, FreshNode(t.name), w.harvest);
    assert Step(w, begin) == Ok(w1);
    RunProps(w1, t.props, below + ([EndNode] + rest));
    var s := HarvestProps(InNode(w1.node, w1.harvest), t.props);
    w' := w;
    if s.Ok? {
      var w2 := RunForest(Walk(w1.depth, s.value.node, s.value.harvest), t.children, [EndNode] + rest);
      if HarvestAll(t.children, s.value.harvest).Ok? {
        RunCons(w2, EndNode, rest);
        w' := w2.(depth := w2.depth - 1);
      }
    }
  }

  lemma {:induction false} RunForest(w: Walk, ts: seq<Tree>, rest: seq<Token>) returns (w': Walk)
    ensures match HarvestAll(ts, w.harvest)
      case Panicked(why) => Run(w, TokensOfAll(ts) + rest) == Panicked(why)
      case Ok(h) => w'.depth == w.depth && w'.harvest == h && Run(w, TokensOfAll(ts) + rest) == Run(w', rest)
    decreases ts
  {
    w' := w;
    if ts == [] {
      assert TokensOfAll(ts) + rest == rest;
    } else {
      assert TokensOfAll(ts) + rest == TokensOf(ts[0]) + (TokensOfAll(ts[1..]) + rest);
      var w1 := RunTree(w, ts[0], TokensOfAll(ts[1..]) + rest);
      if HarvestTree(ts[0], w.harvest).Ok? {
        w' := RunForest(w1, ts[1..], rest);
      }
    }
  }

  /** Flatten, then walk: the verdict and the harvest are those of the recursion over the tree. */
  lemma FlattenThenWalk(root: Tree, address: nat, names: Names, offsets: Offsets)
    requires Holds(names, offsets) && Flattenable(root, offsets) && address % 4 == 0
    ensures Verdict(StructureBlock(root, offsets), address, names) == HarvestTree(root, NOTHING)
  {
    StructureBlockCuts(root, address, names, offsets);
    var w := RunTree(START, root, [End]);
    assert [End][1..] == [];
  }
}
