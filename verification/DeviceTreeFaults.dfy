/**
 Exactly when, and for what reason, the walk of a structure block stops: token by token, with the numbers and
 names of the format.
 */
module DeviceTreeFaults {
  import opened Words
  import opened Endian
  import opened Strings
  import opened Panic
  import opened Memory
  import opened TokenCut
  import opened DeviceTreeTokens
  import opened DeviceTreeFold
  import opened DeviceTreeLayout

  /** The next multiple of four. */
  function Up(a: nat): nat {
    (a + 3) / 4 * 4
  }

  lemma PadIsUp(a: nat)
    ensures a + Pad(a) == Up(a)
  {
  }

  lemma NulIs(s: Bytes, name: Bytes)
    requires 4 <= |s| && NulFree(name) && Has(s, 4, name + [0])
    ensures NulAt(s, 4) == 4 + |name| && s[4..4 + |name|] == name
  {
    var there := s[4..4 + |name + [0]|];
    assert forall i :: 0 <= i < |name| ==> s[4 + i] == there[i] == name[i];
    assert s[4 + |name|] == there[|name|] == 0;
    NulFirst(s, 4, 4 + |name|);
  }

  lemma NulFirst(s: Bytes, from: nat, n: nat)
    requires from <= n < |s| && s[n] == 0 && forall i :: from <= i < n ==> s[i] != 0
    ensures NulAt(s, from) == n
  {
  }

  /** A block begins with the name of a node: word 1, the name and its terminator, and room for the padding. */
  ghost predicate Begins(s: Bytes, address: nat, name: Bytes)
    requires 4 <= |s|
  {
    Be32(s, 0) == 1 && NulFree(name) && Has(s, 4, name + [0]) && Up(address + 5 + |name|) <= address + |s|
  }

  lemma BeginReads(s: Bytes, address: nat, names: Names, name: Bytes)
    requires 4 <= |s| && names.Valid()
    ensures NextPiece(s, address, names).token == BeginNode(name) <==> Begins(s, address, name)
    ensures Begins(s, address, name) ==> address + NextPiece(s, address, names).size == Up(address + 5 + |name|)
  {
    var nul := NulAt(s, 4);
    if Begins(s, address, name) {
      NulIs(s, name);
      PadIsUp(address + 5 + |name|);
    }
    if NextPiece(s, address, names).token == BeginNode(name) {
      assert s[4..nul + 1] == name + [0];
      PadIsUp(address + nul + 1);
    }
  }

  /** A block begins with a property: word 3, the length and the offset of the name, the value, and room for the
      padding. */
  ghost predicate Declares(s: Bytes, address: nat, names: Names, name: Bytes, value: Bytes)
    requires 4 <= |s| && names.Valid()
  {
    && Be32(s, 0) == 3 && 12 <= |s|
    && Be32(s, 4) == |value| && Has(s, 12, value) && Up(address + 12 + |value|) <= address + |s|
    && Be32(s, 8) < names.size && names.At(Be32(s, 8)) == name
  }

  lemma PropReads(s: Bytes, address: nat, names: Names, name: Bytes, value: Bytes)
    requires 4 <= |s| && names.Valid()
    ensures NextPiece(s, address, names).token == Prop(name, value) <==> Declares(s, address, names, name, value)
    ensures Declares(s, address, names, name, value) ==>
      address + NextPiece(s, address, names).size == Up(address + 12 + |value|)
  {
    if |s| >= 12 {
      PadIsUp(address + 12 + Be32(s, 4));
    }
  }

  /** The words 2, 4 and 9 are tokens by themselves. */
  lemma WordReads(s: Bytes, address: nat, names: Names)
    requires 4 <= |s| && names.Valid()
    ensures NextPiece(s, address, names) == Piece(EndNode, 4) <==> Be32(s, 0) == 2
    ensures NextPiece(s, address, names) == Piece(Nop, 4) <==> Be32(s, 0) == 4
    ensures NextPiece(s, address, names) == Piece(End, 4) <==> Be32(s, 0) == 9
  {
  }

  /** The first NUL of the name. */
  ghost predicate NameEndsAt(s: Bytes, e: nat) {
    4 <= e < |s| && s[e] == 0 && forall i :: 4 <= i < e ==> s[i] != 0
  }

  /** The name ends in the block, but its padding does not. */
  ghost predicate Unpadded(s: Bytes, address: nat) {
    exists e: nat :: NameEndsAt(s, e) && Up(address + e + 1) > address + |s|
  }

  lemma UnpaddedIs(s: Bytes, address: nat)
    requires 4 <= |s|
    ensures Unpadded(s, address) <==> NulAt(s, 4) < |s| && Up(address + NulAt(s, 4) + 1) > address + |s|
  {
    if e: nat :| NameEndsAt(s, e) {
      NulFirst(s, 4, e);
    }
    if NulAt(s, 4) < |s| {
      assert NameEndsAt(s, NulAt(s, 4));
    }
  }

  lemma NulInside(s: Bytes)
    requires 4 <= |s|
    ensures 0 in s[4..] <==> NulAt(s, 4) < |s|
  {
    if NulAt(s, 4) < |s| {
      assert s[4..][NulAt(s, 4) - 4] == 0;
    }
  }

  lemma FaultOfBegin(s: Bytes, address: nat)
    requires 4 <= |s|
    ensures var t, nul := BeginPiece(s, address).token, NulAt(s, 4);
      t == if |s| == 4 then Bad(NodeNameMissing) else if nul == |s| then Bad(NodeNameOverflow)
           else if Up(address + nul + 1) > address + |s| then Bad(NodeAlignOverflow) else BeginNode(s[4..nul])
  {
    PadIsUp(address + NulAt(s, 4) + 1);
  }

  /** No node can be begun: each reason, and exactly when it is given. */
  lemma NodeFaults(s: Bytes, address: nat, names: Names)
    requires 4 <= |s| && names.Valid()
    ensures var t := NextPiece(s, address, names).token;
      && (t == Bad(NodeNameMissing) <==> Be32(s, 0) == 1 && |s| == 4)
      && (t == Bad(NodeNameOverflow) <==> Be32(s, 0) == 1 && |s| > 4 && 0 !in s[4..])
      && (t == Bad(NodeAlignOverflow) <==> Be32(s, 0) == 1 && Unpadded(s, address))
  {
    NulInside(s);
    UnpaddedIs(s, address);
    FaultOfBegin(s, address);
  }

  /** No property can be read, or the word is none of the tokens. */
  lemma PropFaults(s: Bytes, address: nat, names: Names)
    requires 4 <= |s| && names.Valid()
    ensures var t := NextPiece(s, address, names).token;
      && (t == Bad(PropertyMetadataOverflow) <==> Be32(s, 0) == 3 && |s| < 12)
      && (t == Bad(PropertyLengthOverflow) <==> Be32(s, 0) == 3 && 12 <= |s| && 12 + Be32(s, 4) as int > |s|)
      && (t == Bad(PropertyValueOverflow) <==>
           Be32(s, 0) == 3 && 12 <= |s| && 12 + Be32(s, 4) as int <= |s|
           && Up(address + 12 + Be32(s, 4)) > address + |s|)
      && (t == Bad(PropertyNameOverflow) <==>
           Be32(s, 0) == 3 && 12 <= |s| && Up(address + 12 + Be32(s, 4)) <= address + |s| && Be32(s, 8) >= names.size)
      && (t == Bad(UnknownToken) <==> Be32(s, 0) !in {1, 2, 3, 4, 9})
  {
    if |s| >= 12 {
      PadIsUp(address + 12 + Be32(s, 4));
    }
  }

  // ---- Properties ----

  lemma SameText(a: Bytes, b: Bytes, text: string)
    requires Says(a, text) && Says(b, text)
    ensures a == b
  {
  }

  lemma NamesSay()
    ensures Says(ADDRESS_CELLS, "#address-cells") && Says(SIZE_CELLS, "#size-cells")
    ensures Says(DEVICE_TYPE, "device_type") && Says(REG, "reg")
  {
  }

  lemma MemoryText()
    ensures Says(MEMORY + [0], "memory\0")
  {
  }

  lemma Named(name: Bytes)
    ensures name == ADDRESS_CELLS <==> Says(name, "#address-cells")
    ensures name == SIZE_CELLS <==> Says(name, "#size-cells")
    ensures name == DEVICE_TYPE <==> Says(name, "device_type")
    ensures name == REG <==> Says(name, "reg")
  {
    NamesSay();
    if Says(name, "#address-cells") { SameText(name, ADDRESS_CELLS, "#address-cells"); }
    if Says(name, "#size-cells") { SameText(name, SIZE_CELLS, "#size-cells"); }
    if Says(name, "device_type") { SameText(name, DEVICE_TYPE, "device_type"); }
    if Says(name, "reg") { SameText(name, REG, "reg"); }
  }

  lemma SaysMemoryText(value: Bytes)
    ensures value == MEMORY + [0] <==> Says(value, "memory\0")
  {
    MemoryText();
    if Says(value, "memory\0") { SameText(value, MEMORY + [0], "memory\0"); }
  }

  /** The value is a root cell count. */
  ghost predicate Counts(n: Node, p: Property, text: string) {
    n.unnamed && Says(p.name, text)
  }

  /** What is known of the node after a property. */
  ghost function Known(n: Node, p: Property): Node {
    Node(n.unnamed, n.isMemory || (Says(p.name, "device_type") && Says(p.value, "memory\0")),
         if Says(p.name, "reg") then Some(p.value) else n.reg)
  }

  /** The cell counts after a property whose value is four bytes long, or that is no cell count. */
  ghost function Counted(n: Node, h: Harvest, p: Property): Harvest
    requires Counts(n, p, "#address-cells") || Counts(n, p, "#size-cells") ==> |p.value| == 4
  {
    Harvest(if Counts(n, p, "#address-cells") then Some(Be32(p.value, 0)) else h.addressCells,
            if Counts(n, p, "#size-cells") then Some(Be32(p.value, 0)) else h.sizeCells, h.memory)
  }

  lemma NotBoth(name: Bytes)
    ensures !(Says(name, "#address-cells") && Says(name, "#size-cells"))
    ensures !(Says(name, "device_type") && Says(name, "reg"))
  {
  }

  /** A root cell count that is not four bytes long is reported; otherwise, as soon as the node is known to be
      memory and to have a `reg`, both cell counts must be known and the `reg` must decode with them. */
  lemma PropertyMeaning(n: Node, h: Harvest, p: Property)
    ensures var r, ac, sc := PropStep(InNode(n, h), p), Counts(n, p, "#address-cells"), Counts(n, p, "#size-cells");
      && (r == Panicked(AddressCellsNot32Bit) <==> ac && |p.value| != 4)
      && (r == Panicked(SizeCellsNot32Bit) <==> sc && |p.value| != 4)
      && (!((ac || sc) && |p.value| != 4) ==>
           var node, cells := Known(n, p), Counted(n, h, p);
           if !node.isMemory || node.reg == None then r == Ok(InNode(node, cells))
           else if cells.addressCells == None || cells.sizeCells == None then r == Panicked(CellsNotInitialized)
           else
             match DecodeReg(cells.addressCells.value, cells.sizeCells.value, node.reg.value)
             case Panicked(why) => r == Panicked(why)
             case Ok(rs) => r == Ok(InNode(node, cells.(memory := Some(rs)))))
  {
    Named(p.name);
    NotBoth(p.name);
    SaysMemoryText(p.value);
    var node, cells := NodeStep(n, p.name, p.value), CellsStep(n, h, p.name, p.value);
    if cells.Ok? && node.reg != None && cells.value.addressCells != None && cells.value.sizeCells != None {
      DecodeReasons(cells.value.addressCells.value, cells.value.sizeCells.value, node.reg.value);
    }
  }

  // ---- Streams ----

  /** The walk gets through these tokens, none of which is FDT_END. */
  ghost predicate Reaches(w: Walk, ts: seq<Token>, w': Walk)
    decreases |ts|
  {
    if ts == [] then w' == w
    else !ts[0].End? && Step(w, ts[0]).Ok? && Reaches(Step(w, ts[0]).value, ts[1..], w')
  }

  /** At this place the walk stops for this reason. */
  ghost predicate StopsFor(w: Walk, rest: seq<Token>, why: Reason) {
    if rest == [] then why == if w.depth != 0 then NestingMismatch else NotOneEndToken
    else
      match rest[0]
      case BeginNode(_) => false
      case EndNode => w.depth == 0 && why == UnmatchedEndNode
      case Prop(name, value) => PropStep(InNode(w.node, w.harvest), Property(name, value)) == Panicked(why)
      case Nop => false
      case End => w.depth != 0 && why == NestingMismatch
      case Bad(reason) => why == reason
  }

  lemma {:induction false} FaultIsReached(w: Walk, ts: seq<Token>, k: nat, w': Walk, why: Reason)
    requires k <= |ts| && Reaches(w, ts[..k], w') && StopsFor(w', ts[k..], why)
    ensures Run(w, ts) == Panicked(why)
    decreases k
  {
    if k == 0 {
      assert ts[0..] == ts;
      assert ts[..0] == [];
    } else {
      assert ts[..k][0] == ts[0] && ts[..k][1..] == ts[1..][..k - 1] && ts[k..] == ts[1..][k - 1..];
      FaultIsReached(Step(w, ts[0]).value, ts[1..], k - 1, w', why);
    }
  }

  lemma {:induction false} FaultIsFound(w: Walk, ts: seq<Token>) returns (k: nat, w': Walk)
    requires Run(w, ts).Panicked?
    ensures k <= |ts| && Reaches(w, ts[..k], w') && StopsFor(w', ts[k..], Run(w, ts).reason)
    decreases |ts|
  {
    if ts == [] || ts[0].End? || Step(w, ts[0]).Panicked? {
      k, w' := 0, w;
      assert ts[0..] == ts && ts[..0] == [];
    } else {
      var j;
      j, w' := FaultIsFound(Step(w, ts[0]).value, ts[1..]);
      k := j + 1;
      assert ts[..k][0] == ts[0] && ts[..k][1..] == ts[1..][..j] && ts[k..] == ts[1..][j..];
    }
  }

  /** The walk is rejected for a reason exactly when it gets through some tokens and stops for that reason at the
      next: an end without a beginning, a property that is not acceptable, a place without a token, FDT_END
      inside a node, or the end of the block without it. */
  lemma FirstFault(w: Walk, ts: seq<Token>, why: Reason)
    ensures Run(w, ts) == Panicked(why) <==>
      exists k: nat, w': Walk :: k <= |ts| && Reaches(w, ts[..k], w') && StopsFor(w', ts[k..], why)
  {
    if Run(w, ts) == Panicked(why) {
      var k, w' := FaultIsFound(w, ts);
    } else if k: nat, w': Walk :| k <= |ts| && Reaches(w, ts[..k], w') && StopsFor(w', ts[k..], why) {
      FaultIsReached(w, ts, k, w', why);
    }
  }
}
