/**
 The converse of flattening: an accepted token stream, apart from FDT_NOP, is the flattening of exactly one
 forest, and the walk finds what a recursion over the forest finds.
 */
module DeviceTreeForest {
  import opened Words
  import opened Panic
  import opened TokenCut
  import opened DeviceTreeTokens
  import opened DeviceTreeFold

  /** The items of a node, in any order. */
  datatype Item = Attribute(name: Bytes, value: Bytes) | Element(name: Bytes, items: seq<Item>)

  function ItemTokens(i: Item): seq<Token>
    decreases i, 0
  {
    match i
    case Attribute(name, value) => [Prop(name, value)]
    case Element(name, items) => [BeginNode(name)] + (ItemsTokens(items) + [EndNode])
  }

  function ItemsTokens(items: seq<Item>): seq<Token>
    decreases items
  {
    if items == [] then [] else ItemTokens(items[0]) + ItemsTokens(items[1..])
  }

  // ---- Reading a forest back ----

  /** The items that the tokens start with, and the tokens after them. */
  function Unflatten(ts: seq<Token>): (r: (seq<Item>, seq<Token>))
    ensures |r.1| <= |ts|
    decreases |ts|
  {
    if ts == [] then ([], ts)
    else
      match ts[0]
      case Prop(name, value) =>
        var more := Unflatten(ts[1..]);
        ([Attribute(name, value)] + more.0, more.1)
      case BeginNode(name) =>
        var inner := Unflatten(ts[1..]);
        if inner.1 == [] || !inner.1[0].EndNode? then ([], ts)
        else
          var more := Unflatten(inner.1[1..]);
          ([Element(name, inner.0)] + more.0, more.1)
      case _ => ([], ts)
  }

  lemma ItemsCons(i: Item, items: seq<Item>, rest: seq<Token>)
    ensures ItemsTokens([i] + items) + rest == ItemTokens(i) + (ItemsTokens(items) + rest)
  {
    assert ([i] + items)[1..] == items;
  }

  lemma Nested(name: Bytes, items: seq<Item>, rest: seq<Token>)
    ensures ItemTokens(Element(name, items)) + rest == [BeginNode(name)] + (ItemsTokens(items) + ([EndNode] + rest))
  {
  }

  /** What was read and what is left are the tokens. */
  lemma {:induction false} UnflattenSplits(ts: seq<Token>)
    ensures ts == ItemsTokens(Unflatten(ts).0) + Unflatten(ts).1
    decreases |ts|
  {
    if ts != [] {
      var r, tail := Unflatten(ts), ts[1..];
      assert ts == [ts[0]] + tail;
      if ts[0].Prop? {
        UnflattenSplits(tail);
        ItemsCons(Attribute(ts[0].name, ts[0].value), Unflatten(tail).0, r.1);
      } else if ts[0].BeginNode? {
        var inner := Unflatten(tail);
        if inner.1 != [] && inner.1[0].EndNode? {
          var after := inner.1[1..];
          UnflattenSplits(tail);
          UnflattenSplits(after);
          ItemsCons(Element(ts[0].name, inner.0), Unflatten(after).0, r.1);
          Nested(ts[0].name, inner.0, after);
          assert inner.1 == [EndNode] + after;
        }
      }
    }
  }

  /** No item starts here. */
  predicate NoItem(rest: seq<Token>) {
    rest == [] || !(rest[0].Prop? || rest[0].BeginNode?)
  }

  lemma {:induction false} UnflattenInverts(items: seq<Item>, rest: seq<Token>)
    requires NoItem(rest)
    ensures Unflatten(ItemsTokens(items) + rest) == (items, rest)
    decreases items
  {
    if items == [] {
      assert ItemsTokens(items) + rest == rest;
    } else {
      var i, more := items[0], items[1..];
      UnflattenInverts(more, rest);
      assert items == [i] + more;
      ItemsCons(i, more, rest);
      var after := ItemsTokens(more) + rest;
      var ts := ItemTokens(i) + after;
      if i.Attribute? {
        assert ts[0] == Prop(i.name, i.value) && ts[1..] == after;
      } else {
        Nested(i.name, i.items, after);
        UnflattenInverts(i.items, [EndNode] + after);
        assert ts[0] == BeginNode(i.name) && ts[1..] == ItemsTokens(i.items) + ([EndNode] + after);
        assert ([EndNode] + after)[1..] == after;
      }
    }
  }

  /** A forest is determined by its tokens. */
  lemma TokensDetermineItems(a: seq<Item>, b: seq<Item>)
    requires ItemsTokens(a) == ItemsTokens(b)
    ensures a == b
  {
    UnflattenInverts(a, []);
    UnflattenInverts(b, []);
    assert ItemsTokens(a) + [] == ItemsTokens(a);
  }

  // ---- Nesting ----

  lemma NetOne(t: Token)
    ensures Net([t]) == if t.BeginNode? then 1 else if t.EndNode? then -1 else 0
  {
    assert [t][1..] == [];
  }

  /** A forest in front changes nothing about nesting. */
  lemma {:induction false} BalancedItems(d: nat, items: seq<Item>, rest: seq<Token>)
    ensures Balanced(d, ItemsTokens(items) + rest) <==> Balanced(d, rest)
    decreases items
  {
    if items == [] {
      assert ItemsTokens(items) + rest == rest;
    } else {
      var i, more := items[0], items[1..];
      var after := ItemsTokens(more) + rest;
      assert items == [i] + more;
      ItemsCons(i, more, rest);
      BalancedItems(d, more, rest);
      BalancedItem(d, i, after);
    }
  }

  lemma {:induction false} BalancedItem(d: nat, i: Item, after: seq<Token>)
    ensures Balanced(d, ItemTokens(i) + after) <==> Balanced(d, after)
    decreases i
  {
    var ts := ItemTokens(i) + after;
    BalancedStep(d, ts);
    NetOne(ts[0]);
    if i.Attribute? {
      assert ts[1..] == after;
    } else {
      Nested(i.name, i.items, after);
      assert ts[1..] == ItemsTokens(i.items) + ([EndNode] + after);
      BalancedItems(d + 1, i.items, [EndNode] + after);
      BalancedStep(d + 1, [EndNode] + after);
      NetOne(EndNode);
      assert ([EndNode] + after)[1..] == after;
    }
  }

  lemma {:induction false} NetConcat(a: seq<Token>, b: seq<Token>)
    ensures Net(a + b) == Net(a) + Net(b)
    decreases |a|
  {
    if a == [] {
      assert a + b == b;
    } else {
      assert (a + b)[1..] == a[1..] + b;
      NetConcat(a[1..], b);
    }
  }

  lemma NetOfItems(items: seq<Item>)
    ensures Net(ItemsTokens(items)) == 0
  {
    BalancedNil(0);
    BalancedItems(0, items, []);
    assert ItemsTokens(items) + [] == ItemsTokens(items);
  }

  // ---- Streams of tokens ----

  /** Only the last token may stop the walk, and none is FDT_NOP. */
  ghost predicate Plain(ts: seq<Token>) {
    OnlyLastStops(ts) && forall k :: 0 <= k < |ts| ==> !ts[k].Nop?
  }

  lemma PlainRest(a: seq<Token>, b: seq<Token>)
    requires Plain(a + b)
    ensures Plain(b)
  {
    assert forall k :: 0 <= k < |b| ==> b[k] == (a + b)[|a| + k];
  }

  lemma StopsAlone(r: seq<Token>)
    requires Plain(r) && r != [] && r[0].Stops()
    ensures r == [r[0]]
  {
  }

  /** What stops the reading: something that is no item, or a node that is not ended. */
  predicate StopsReading(r: seq<Token>) {
    r != [] ==> !r[0].Prop? && (r[0].BeginNode? ==> NotEndedAfter(Unflatten(r[1..]).1))
  }

  predicate NotEndedAfter(rest: seq<Token>) {
    rest == [] || !rest[0].EndNode?
  }

  lemma {:induction false} RestShape(ts: seq<Token>)
    ensures StopsReading(Unflatten(ts).1)
    decreases |ts|
  {
    if ts != [] && ts[0].Prop? {
      RestShape(ts[1..]);
    } else if ts != [] && ts[0].BeginNode? {
      var inner := Unflatten(ts[1..]);
      if !NotEndedAfter(inner.1) {
        RestShape(inner.1[1..]);
      }
    }
  }

  /** What is left after reading: a node that is not ended leaves the nesting open. */
  predicate LeftOpen(r: seq<Token>) {
    (r != [] && r[0].BeginNode? ==> Net(r) >= 1) && (r != [] && !r[0].EndNode? ==> Net(r) >= 0)
  }

  lemma NotEnded(t: Token, items: seq<Item>, rest: seq<Token>)
    requires t.BeginNode? && LeftOpen(rest) && NotEndedAfter(rest)
    ensures LeftOpen([t] + (ItemsTokens(items) + rest))
  {
    NetConcat(ItemsTokens(items), rest);
    NetOfItems(items);
    NetConcat([t], ItemsTokens(items) + rest);
    NetOne(t);
  }

  lemma NotBegun(r: seq<Token>)
    requires Plain(r) && (r != [] ==> !r[0].Prop? && !r[0].BeginNode?)
    ensures LeftOpen(r)
  {
    if r != [] && r[0].Stops() {
      StopsAlone(r);
      NetOne(r[0]);
    }
  }

  /** The items inside a node that is not ended, and what is left then. */
  lemma Inside(r: seq<Token>) returns (items: seq<Item>, rest: seq<Token>)
    requires Plain(r) && StopsReading(r) && r != [] && r[0].BeginNode?
    ensures r == [r[0]] + (ItemsTokens(items) + rest)
    ensures Plain(rest) && StopsReading(rest) && NotEndedAfter(rest) && |rest| < |r|
  {
    var tail := r[1..];
    items, rest := Unflatten(tail).0, Unflatten(tail).1;
    UnflattenSplits(tail);
    RestShape(tail);
    assert r == [r[0]] + tail;
    PlainRest([r[0]], tail);
    PlainRest(ItemsTokens(items), rest);
  }

  lemma {:induction false} OpenNode(r: seq<Token>)
    requires Plain(r) && StopsReading(r)
    ensures LeftOpen(r)
    decreases |r|
  {
    if r != [] && r[0].BeginNode? {
      var items, rest := Inside(r);
      OpenNode(rest);
      NotEnded(r[0], items, rest);
    } else {
      NotBegun(r);
    }
  }

  lemma {:induction false} NoEndInItems(items: seq<Item>)
    ensures End !in ItemsTokens(items)
    decreases items
  {
    if items != [] {
      if items[0].Element? {
        NoEndInItems(items[0].items);
      }
      NoEndInItems(items[1..]);
    }
  }

  lemma LastOfConcat(a: seq<Token>, b: seq<Token>)
    requires a + b != []
    ensures var last := (a + b)[|a + b| - 1];
      if b == [] then last in a else last == b[|b| - 1]
  {
    if b == [] {
      assert a + b == a;
    }
  }

  lemma EndIsInRest(items: seq<Item>, r: seq<Token>)
    requires Closed(ItemsTokens(items) + r)
    ensures r != [] && r[|r| - 1] == End
  {
    NoEndInItems(items);
    LastOfConcat(ItemsTokens(items), r);
  }

  lemma RestIsEnd(r: seq<Token>)
    requires Plain(r) && r != [] && r[|r| - 1] == End && !r[0].Prop? && (r[0].BeginNode? ==> Net(r) >= 1)
    requires Balanced(0, r)
    ensures r == [End]
  {
    if r[0].EndNode? {
      BalancedStep(0, r);
      NetOne(r[0]);
      NeverBalanced(-1, r[1..]);
    } else if !r[0].BeginNode? {
      StopsAlone(r);
    }
  }

  /** A closed, balanced stream is a forest and FDT_END. */
  lemma BalancedIsForest(ts: seq<Token>) returns (items: seq<Item>)
    requires Plain(ts) && Closed(ts) && Balanced(0, ts)
    ensures ts == ItemsTokens(items) + [End]
  {
    items := Unflatten(ts).0;
    var r := Unflatten(ts).1;
    UnflattenSplits(ts);
    RestShape(ts);
    EndIsInRest(items, r);
    BalancedItems(0, items, r);
    PlainRest(ItemsTokens(items), r);
    OpenNode(r);
    RestIsEnd(r);
  }

  /** Closed and balanced streams are exactly the flattenings of forests, each of one forest. */
  lemma ForestStreams(ts: seq<Token>)
    requires Plain(ts)
    ensures Closed(ts) && Balanced(0, ts) <==> exists items: seq<Item> :: ts == ItemsTokens(items) + [End]
    ensures forall a: seq<Item>, b: seq<Item> ::
      ts == ItemsTokens(a) + [End] && ts == ItemsTokens(b) + [End] ==> a == b
  {
    if Closed(ts) && Balanced(0, ts) {
      var items := BalancedIsForest(ts);
    }
    if items: seq<Item> :| ts == ItemsTokens(items) + [End] {
      BalancedItems(0, items, [End]);
      BalancedStep(0, [End]);
      NetOne(End);
      assert [End][1..] == [];
      BalancedNil(0);
    }
    forall a: seq<Item>, b: seq<Item> | ts == ItemsTokens(a) + [End] && ts == ItemsTokens(b) + [End]
      ensures a == b
    {
      assert ItemsTokens(a) == ts[..|ts| - 1] == ItemsTokens(b);
      TokensDetermineItems(a, b);
    }
  }

  // ---- What the walk finds in a forest ----

  /** The recursion over a forest. What is known of the current node is handed on as the walk does it: a
      property after a child is handled with the child's node. */
  function HarvestItem(s: InNode, i: Item): Result<InNode>
    decreases i, 0
  {
    match i
    case Attribute(name, value) => PropStep(s, Property(name, value))
    case Element(name, items) => HarvestItems(InNode(FreshNode(name), s.harvest), items)
  }

  function HarvestItems(s: InNode, items: seq<Item>): Result<InNode>
    decreases items
  {
    if items == [] then Ok(s)
    else
      var s' :- HarvestItem(s, items[0]);
      HarvestItems(s', items[1..])
  }

  lemma ContentsCons(s: InNode, t: Token, rest: seq<Token>)
    ensures var r := ContentStep(s, t);
      Contents(s, [t] + rest) == if r.Ok? then Contents(r.value, rest) else r
  {
    assert ([t] + rest)[1..] == rest;
  }

  /** The contents from a result on. */
  function Onwards(r: Result<InNode>, rest: seq<Token>): Result<InNode> {
    if r.Ok? then Contents(r.value, rest) else r
  }

  lemma {:induction false} ContentsOfItem(s: InNode, i: Item, rest: seq<Token>)
    ensures Contents(s, ItemTokens(i) + rest) == Onwards(HarvestItem(s, i), rest)
    decreases i, 0
  {
    if i.Attribute? {
      ContentsCons(s, Prop(i.name, i.value), rest);
    } else {
      var s1 := InNode(FreshNode(i.name), s.harvest);
      Nested(i.name, i.items, rest);
      ContentsCons(s, BeginNode(i.name), ItemsTokens(i.items) + ([EndNode] + rest));
      ContentsOfItems(s1, i.items, [EndNode] + rest);
      var r := HarvestItems(s1, i.items);
      if r.Ok? {
        ContentsCons(r.value, EndNode, rest);
      }
    }
  }

  lemma {:induction false} ContentsOfItems(s: InNode, items: seq<Item>, rest: seq<Token>)
    ensures Contents(s, ItemsTokens(items) + rest) == Onwards(HarvestItems(s, items), rest)
    decreases items
  {
    if items == [] {
      assert ItemsTokens(items) + rest == rest;
    } else {
      var i, more := items[0], items[1..];
      assert items == [i] + more;
      ItemsCons(i, more, rest);
      ContentsOfItem(s, i, ItemsTokens(more) + rest);
      var r := HarvestItem(s, i);
      if r.Ok? {
        ContentsOfItems(r.value, more, rest);
      }
    }
  }

  function WithoutNops(ts: seq<Token>): seq<Token> {
    if ts == [] then [] else (if ts[0].Nop? then [] else [ts[0]]) + WithoutNops(ts[1..])
  }

  lemma {:induction false} RunWithoutNops(w: Walk, ts: seq<Token>)
    ensures Run(w, WithoutNops(ts)) == Run(w, ts)
    decreases |ts|
  {
    if ts != [] {
      var t, tail := ts[0], ts[1..];
      assert ts == [t] + tail;
      if t.Nop? {
        RunCons(w, t, tail);
        RunWithoutNops(w, tail);
        assert WithoutNops(ts) == WithoutNops(tail);
      } else if !t.End? {
        RunCons(w, t, tail);
        RunCons(w, t, WithoutNops(tail));
        if Step(w, t).Ok? {
          RunWithoutNops(Step(w, t).value, tail);
        }
      }
    }
  }

  lemma PlainCons(t: Token, rest: seq<Token>)
    requires Plain(rest) && !t.Nop? && (t.Stops() ==> rest == [])
    ensures Plain([t] + rest)
  {
    var ts := [t] + rest;
    forall k | 0 < k < |ts|
      ensures ts[k] == rest[k - 1]
    {
    }
  }

  lemma OnlyLastStopsRest(t: Token, tail: seq<Token>)
    requires OnlyLastStops([t] + tail)
    ensures OnlyLastStops(tail) && (t.Stops() ==> tail == [])
  {
    var ts := [t] + tail;
    assert ts[0] == t && forall k :: 0 <= k < |tail| ==> tail[k] == ts[k + 1];
  }

  lemma {:induction false} WithoutNopsIsPlain(ts: seq<Token>)
    requires OnlyLastStops(ts)
    ensures Plain(WithoutNops(ts))
    decreases |ts|
  {
    if ts != [] {
      var t, tail := ts[0], ts[1..];
      assert ts == [t] + tail;
      OnlyLastStopsRest(t, tail);
      WithoutNopsIsPlain(tail);
      if t.Nop? {
        assert WithoutNops(ts) == WithoutNops(tail);
      } else {
        PlainCons(t, WithoutNops(tail));
      }
    }
  }

  /** Before the first token: no name, nothing known of a node, and nothing found. */
  const AT_START := InNode(Node(true, false, None), Harvest(None, None, None))

  /** A forest that a stream flattens, up to FDT_NOP. */
  ghost predicate Flattens(ts: seq<Token>, items: seq<Item>) {
    WithoutNops(ts) == ItemsTokens(items) + [End]
  }

  lemma RunOfForest(ts: seq<Token>, items: seq<Item>)
    requires OnlyLastStops(ts) && Flattens(ts, items)
    ensures var r := HarvestItems(AT_START, items);
      (Run(START, ts).Ok? <==> r.Ok?) && (r.Ok? ==> Run(START, ts) == Ok(r.value.harvest))
  {
    var plain := WithoutNops(ts);
    WithoutNopsIsPlain(ts);
    RunWithoutNops(START, ts);
    AcceptedStreams(START, plain);
    ForestStreams(plain);
    ContentsOfItems(AT_START, items, [End]);
    var r := HarvestItems(AT_START, items);
    if r.Ok? {
      ContentsCons(r.value, End, []);
      assert [End] + [] == [End];
    }
  }

  /** A stream is accepted exactly when, up to FDT_NOP, it is the flattening of a forest that the recursion
      accepts; that forest is unique, and the harvest is the recursion's. */
  lemma AcceptedIsForest(ts: seq<Token>)
    requires OnlyLastStops(ts)
    ensures Run(START, ts).Ok? <==> exists items: seq<Item> :: Flattens(ts, items) && HarvestItems(AT_START, items).Ok?
    ensures forall items: seq<Item> :: Flattens(ts, items) && Run(START, ts).Ok? ==>
      HarvestItems(AT_START, items).Ok? && Run(START, ts).value == HarvestItems(AT_START, items).value.harvest
    ensures forall a: seq<Item>, b: seq<Item> :: Flattens(ts, a) && Flattens(ts, b) ==> a == b
  {
    WithoutNopsIsPlain(ts);
    RunWithoutNops(START, ts);
    AcceptedStreams(START, WithoutNops(ts));
    ForestStreams(WithoutNops(ts));
    forall items: seq<Item> | Flattens(ts, items)
      ensures Run(START, ts).Ok? <==> HarvestItems(AT_START, items).Ok?
      ensures Run(START, ts).Ok? ==> Run(START, ts).value == HarvestItems(AT_START, items).value.harvest
    {
      RunOfForest(ts, items);
    }
    if Run(START, ts).Ok? {
      var items: seq<Item> :| WithoutNops(ts) == ItemsTokens(items) + [End];
      assert Flattens(ts, items);
    }
  }

  /** Every accepted structure block is the flattening of exactly one forest, up to FDT_NOP and the bytes after
      FDT_END. */
  lemma AcceptedBlockIsForest(block: Bytes, address: nat, names: Names)
    requires names.Valid()
    ensures Verdict(block, address, names).Ok? <==>
      exists items: seq<Item> :: Flattens(Tokens(block, address, names), items) && HarvestItems(AT_START, items).Ok?
    ensures forall items: seq<Item> ::
      Flattens(Tokens(block, address, names), items) && Verdict(block, address, names).Ok? ==>
        HarvestItems(AT_START, items).Ok?
        && Verdict(block, address, names).value == HarvestItems(AT_START, items).value.harvest
  {
    CutStopsOnce(TokenScanner(names), block, address);
    AcceptedIsForest(Tokens(block, address, names));
  }
}
