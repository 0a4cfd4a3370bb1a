/**
 parse_device_tree_blob (kernel/Hardware/DeviceTree.c): the cursor walk over memory, proved to reach
 exactly the verdict of DeviceTreeBlob.Parse.
 */
module DeviceTree {
  import opened Words
  import opened Endian
  import opened Strings
  import opened Panic
  import opened Memory
  import opened TokenCut
  import opened DeviceTreeTokens
  import opened DeviceTreeFold
  import opened DeviceTreeBlob

  /** The memory fields of the caller's structure, as values. */
  datatype Fields = Fields(addressCells: U32, sizeCells: U32, regions: seq<Region>, count: nat)

  /** A cell count of the structure: the harvested one, or what was there before. */
  ghost predicate ShowsCells(cells: U32, harvested: Option<U32>, before: U32) {
    cells == if harvested == None then before else harvested.value
  }

  /** The regions of the structure: the harvested ones up to the count, or what was there before. */
  ghost predicate ShowsMemory(regions: seq<Region>, count: nat, harvested: Option<seq<Region>>, before: Fields) {
    if harvested == None then regions == before.regions && count == before.count
    else count == |harvested.value| <= |regions| && regions[..count] == harvested.value
  }

  /** Locals of the walk that describe the current node and what has been initialised. The `reg`
      pointer is an address, 0 when it is NULL. */
  datatype Locals = Locals(
    addressCellsInitialized: bool, sizeCellsInitialized: bool,
    deviceType: Option<Bytes>, reg: nat, regSize: U32)
  {
    ghost predicate Tracks(mem: Bytes, node: Node, h: Harvest) {
      && addressCellsInitialized == (h.addressCells != None)
      && sizeCellsInitialized == (h.sizeCells != None)
      && deviceType == (if node.isMemory then Some(Literal(MEMORY)) else None)
      && (reg == 0 <==> node.reg == None)
      && (reg != 0 ==> reg + regSize <= |mem| && node.reg == Some(mem[reg..reg + regSize]))
    }
  }

  class HardwareInfo {
    var header: Header
    var addressCells: U32
    var sizeCells: U32
    const physicalMemoryRegions: array<Region>
    var physicalMemoryRegionCount: nat
    const reservedRegionBases: array<U64>
    const reservedRegionSizes: array<U64>
    var reservedRegionsCount: nat

    ghost predicate Valid() {
      && physicalMemoryRegions.Length == MAX_REGIONS
      && reservedRegionBases.Length == MAX_RESERVED && reservedRegionSizes.Length == MAX_RESERVED
      && reservedRegionBases != reservedRegionSizes
    }

    ghost function Parts(): set<object> {
      {this as object, physicalMemoryRegions as object, reservedRegionBases as object, reservedRegionSizes as object}
    }

    ghost function MemoryFields(): Fields
      reads this, physicalMemoryRegions
    {
      Fields(addressCells, sizeCells, physicalMemoryRegions[..], physicalMemoryRegionCount)
    }

    /** The cell counts are those of `before` with a harvest written over them. */
    ghost predicate CellsShow(h: Harvest, before: Fields)
      reads this`addressCells, this`sizeCells
    {
      && ShowsCells(addressCells, h.addressCells, before.addressCells)
      && ShowsCells(sizeCells, h.sizeCells, before.sizeCells)
    }

    ghost predicate MemoryShows(h: Harvest, before: Fields)
      reads this`physicalMemoryRegionCount, physicalMemoryRegions
    {
      ShowsMemory(physicalMemoryRegions[..], physicalMemoryRegionCount, h.memory, before)
    }

    /** The structure is `before` with a harvest written over it. */
    ghost predicate Shows(h: Harvest, before: Fields)
      reads this, physicalMemoryRegions
    {
      CellsShow(h, before) && MemoryShows(h, before)
    }

    /** All zero, like the static structure of kernel_init. */
    constructor ()
      ensures Valid()
      ensures header == Header(0, 0, 0, 0, 0, 0, 0, 0, 0, 0)
      ensures addressCells == 0 && sizeCells == 0 && physicalMemoryRegionCount == 0 && reservedRegionsCount == 0
    {
      header := Header(0, 0, 0, 0, 0, 0, 0, 0, 0, 0);
      addressCells, sizeCells := 0, 0;
      physicalMemoryRegions := new Region[MAX_REGIONS](_ => Region(0, 0));
      physicalMemoryRegionCount := 0;
      reservedRegionBases := new U64[MAX_RESERVED](_ => 0);
      reservedRegionSizes := new U64[MAX_RESERVED](_ => 0);
      reservedRegionsCount := 0;
    }

    // ---- Header ----

    method ReadHeader(mem: Bytes, dtb: nat) returns (r: Result<()>)
      requires Readable(mem, dtb)
      modifies this`header
      ensures match HeaderVerdict(mem, dtb)
        case Panicked(why) => r == Panicked(why)
        case Ok(h) => r == Ok(()) && header == h
    {
      if dtb == 0 {
        return Panicked(NullBlob);
      }
      var magic := LoadBe32(mem, dtb);
      header := header.(magic := magic);
      if magic != FDT_MAGIC {
        return Panicked(BadMagic);
      }
      var totalSize := LoadBe32(mem, dtb + 4);
      header := header.(totalSize := totalSize);
      if header.totalSize < HEADER_BYTES {
        return Panicked(TotalSizeTooSmall);
      }
      var offStruct := LoadBe32(mem, dtb + 8);
      var offStrings := LoadBe32(mem, dtb + 12);
      var offReserved := LoadBe32(mem, dtb + 16);
      var version := LoadBe32(mem, dtb + 20);
      var lastCompVersion := LoadBe32(mem, dtb + 24);
      var bootCpuid := LoadBe32(mem, dtb + 28);
      var sizeStrings := LoadBe32(mem, dtb + 32);
      var sizeStruct := LoadBe32(mem, dtb + 36);
      header := header.(
        offStruct := offStruct, offStrings := offStrings, offReserved := offReserved,
        version := version, lastCompVersion := lastCompVersion, bootCpuid := bootCpuid,
        sizeStrings := sizeStrings, sizeStruct := sizeStruct);
      if header.offReserved >= header.totalSize {
        return Panicked(ReservationMapOutOfBounds);
      }
      if (header.offStruct as int) + (header.sizeStruct as int) > header.totalSize {
        return Panicked(StructOutOfBounds);
      }
      if (header.offStrings as int) + (header.sizeStrings as int) > header.totalSize {
        return Panicked(StringsOutOfBounds);
      }
      r := Ok(());
    }

    // ---- Reservation block ----

    ghost predicate ReservedShows(es: seq<Entry>)
      reads this, reservedRegionBases, reservedRegionSizes
    {
      && Valid()
      && reservedRegionsCount == |es| <= MAX_RESERVED
      && forall k :: 0 <= k < |es| ==> reservedRegionBases[k] == es[k].base && reservedRegionSizes[k] == es[k].size
    }

    method ReadReservations(mem: Bytes, dtb: nat) returns (r: Result<()>)
      requires Valid() && header.offReserved <= header.totalSize && dtb + header.totalSize <= |mem|
      modifies this`reservedRegionsCount, reservedRegionBases, reservedRegionSizes
      ensures match Reserved(ReservedTable(mem, dtb, header))
        case Panicked(why) => r == Panicked(why)
        case Ok(es) => r == Ok(()) && ReservedShows(es)
    {
      var i := 0;
      reservedRegionsCount := 0;
      ghost var table := ReservedTable(mem, dtb, header);
      ghost var es := Entries(table);
      while true
        invariant i <= MAX_RESERVED && i <= FirstZero(es) && ReservedShows(es[..i])
        decreases MAX_RESERVED - i
      {
        if i >= 255 {
          return Panicked(TooManyReservations);
        }
        if (header.offReserved as int) + 16 * i + 16 > header.totalSize {
          return Panicked(ReservationOverflow);
        }
        var start := dtb + header.offReserved + 16 * i;
        var end := start + 8;
        if end >= dtb + header.totalSize {
          // The bounds check above leaves no way to get here.
          assert false;
        }
        EntryInPlace(mem, dtb, header, i);
        var last := ReadEntry(mem, start, end, i, es);
        if last {
          return Ok(());
        }
        i := i + 1;
      }
    }

    /** Lines 128 to 144: one entry; `last` when it is the terminator. */
    method ReadEntry(mem: Bytes, start: nat, end: nat, i: nat, ghost es: seq<Entry>) returns (last: bool)
      requires i < |es| && i < MAX_RESERVED && i <= FirstZero(es) && ReservedShows(es[..i])
      requires start + 16 <= |mem| && end == start + 8 && es[i] == Entry(Be64(mem, start), Be64(mem, end))
      modifies this`reservedRegionsCount, reservedRegionBases, reservedRegionSizes
      ensures if last then i == FirstZero(es) && ReservedShows(es[..i])
              else i < FirstZero(es) && ReservedShows(es[..i + 1])
    {
      reservedRegionBases[i] := LoadBe64(mem, start);
      reservedRegionSizes[i] := LoadBe64(mem, end);
      last := false;
      if reservedRegionBases[i] == 0 && reservedRegionSizes[i] == 0 {
        last := true;
      } else {
        reservedRegionsCount := reservedRegionsCount + 1;
      }
    }

    // ---- One property ----

    /** Lines 304 to 325: the root's cell counts. */
    method SaveCells(mem: Bytes, nodeName: Bytes, propName: Bytes, data: nat, length: U32,
                     addressCellsInitialized: bool, sizeCellsInitialized: bool,
                     ghost node: Node, ghost h: Harvest, ghost before: Fields)
      returns (fault: Option<Reason>, addressCellsInitialized': bool, sizeCellsInitialized': bool)
      requires CellsShow(h, before)
      requires addressCellsInitialized == (h.addressCells != None) && sizeCellsInitialized == (h.sizeCells != None)
      requires nodeName != [] && (nodeName[0] == 0 <==> node.unnamed)
      requires |propName| > NAME_SLACK && data + length <= |mem|
      modifies this`addressCells, this`sizeCells
      ensures var r := CellsStep(node, h, CString(propName), mem[data..data + length]);
        && fault == (if r.Ok? then None else Some(r.reason))
        && (r.Ok? ==>
          && CellsShow(r.value, before)
          && addressCellsInitialized' == (r.value.addressCells != None)
          && sizeCellsInitialized' == (r.value.sizeCells != None))
    {
      fault := None;
      addressCellsInitialized', sizeCellsInitialized' := addressCellsInitialized, sizeCellsInitialized;
      var isRoot := CompareToLiteral(nodeName, [], 0);
      if isRoot {
        var isAddressCells := CompareToLiteral(propName, ADDRESS_CELLS, 14);
        if isAddressCells {
          if length != 4 {
            fault := Some(AddressCellsNot32Bit);
            return;
          }
          addressCellsInitialized' := true;
          addressCells := LoadBe32(mem, data);
          Be32Slice(mem, data, data + 4, 0);
        } else {
          var isSizeCells := CompareToLiteral(propName, SIZE_CELLS, 11);
          if isSizeCells {
            if length != 4 {
              fault := Some(SizeCellsNot32Bit);
              return;
            }
            sizeCellsInitialized' := true;
            sizeCells := LoadBe32(mem, data);
            Be32Slice(mem, data, data + 4, 0);
          }
        }
      }
    }

    /** Lines 340 to 358: decode the memory node's `reg`. */
    method DecodeMemory(mem: Bytes, l: Locals, ghost node: Node, ghost h: Harvest, ghost before: Fields)
      returns (r: Result<()>)
      requires Valid() && Shows(h, before) && l.Tracks(mem, node, h)
      modifies this`physicalMemoryRegionCount, physicalMemoryRegions
      ensures match MemoryStep(node, h)
        case Panicked(why) => r == Panicked(why)
        case Ok(h') => r == Ok(()) && l.Tracks(mem, node, h') && Shows(h', before)
    {
      if l.reg != 0 {
        // A NULL device type compares unequal.
        var isMemory := l.deviceType != None;
        if isMemory {
          isMemory := CompareToLiteral(l.deviceType.value, MEMORY, 6);
        }
        if isMemory {
          if l.addressCellsInitialized && l.sizeCellsInitialized {
            var count;
            r, count := PhysicalMemoryRegions(physicalMemoryRegions, addressCells, sizeCells, mem, l.reg, l.regSize);
            physicalMemoryRegionCount := count;
            return;
          } else {
            return Panicked(CellsNotInitialized);
          }
        }
      }
      r := Ok(());
    }

    /** Lines 304 to 358: everything done with one property. */
    method HandleProperty(mem: Bytes, nodeName: Bytes, propName: Bytes, data: nat, length: U32, l: Locals,
                          ghost s: InNode, ghost before: Fields)
      returns (r: Result<Locals>, ghost s': InNode)
      requires Valid() && Shows(s.harvest, before) && l.Tracks(mem, s.node, s.harvest)
      requires nodeName != [] && (nodeName[0] == 0 <==> s.node.unnamed)
      requires |propName| > NAME_SLACK && 0 < data && data + length <= |mem|
      modifies this`addressCells, this`sizeCells, this`physicalMemoryRegionCount, physicalMemoryRegions
      ensures var out := PropStep(s, Property(CString(propName), mem[data..data + length]));
        if r.Panicked? then out == Panicked(r.reason)
        else out == Ok(s') && r.value.Tracks(mem, s'.node, s'.harvest) && Shows(s'.harvest, before)
    {
      s' := s;
      var fault, addressReady, sizeReady := SaveCells(mem, nodeName, propName, data, length,
        l.addressCellsInitialized, l.sizeCellsInitialized, s.node, s.harvest, before);
      if fault != None {
        return Panicked(fault.value), s;
      }
      ghost var value := mem[data..data + length];
      ghost var h := CellsStep(s.node, s.harvest, CString(propName), value).value;
      var l' := l.(addressCellsInitialized := addressReady, sizeCellsInitialized := sizeReady);
      l' := NoteNode(mem, propName, data, length, l', s.node, h);
      ghost var node := NodeStep(s.node, CString(propName), value);
      var decoded := DecodeMemory(mem, l', node, h, before);
      if decoded.Panicked? {
        return Panicked(decoded.reason), s;
      }
      r := Ok(l');
      s' := InNode(node, MemoryStep(node, h).value);
    }

    // ---- The walk ----

    /** The structure and the locals agree with an abstract walk. */
    ghost predicate Agrees(mem: Bytes, structEnd: nat, s: WalkState, w: Walk, before: Fields)
      reads this, physicalMemoryRegions
    {
      Valid() && Shows(w.harvest, before) && s.Tracks(mem, w) && s.cursor <= structEnd
    }

    /** A whole token word lies at the cursor. */
    ghost predicate AtToken(mem: Bytes, structEnd: nat, s: WalkState, w: Walk, before: Fields)
      reads this, physicalMemoryRegions
    {
      && structEnd <= |mem| <= TWO_64
      && Agrees(mem, structEnd, s, w, before)
      && s.endTokens == 0 && s.cursor + 4 <= structEnd && s.nodeDepth <= s.cursor
    }

    /** The iteration has done with one piece what the abstract step does. */
    ghost predicate Handled(mem: Bytes, structEnd: nat, s: WalkState, w: Walk, p: Piece,
                            r: Result<WalkState>, w': Walk, before: Fields)
      reads this, physicalMemoryRegions
    {
      && StepsAs(structEnd, s, w, p, r, w')
      && (r.Ok? ==> Agrees(mem, structEnd, r.value, w', before))
      && (r.Ok? && s.cursor % 4 == 0 && r.value.endTokens == 0 ==> r.value.cursor % 4 == 0)
    }

    /** One iteration for FDT_BEGIN_NODE. */
    method WalkBeginNode(mem: Bytes, structEnd: nat, s: WalkState, ghost w: Walk, ghost before: Fields)
      returns (r: Result<WalkState>, ghost w': Walk)
      requires AtToken(mem, structEnd, s, w, before)
      ensures Handled(mem, structEnd, s, w, BeginPiece(mem[s.cursor..structEnd], s.cursor), r, w', before)
    {
      w' := w;
      var at := s.cursor;
      var fault, cursor := SkipNodeName(mem, at, structEnd);
      if fault != None {
        return Panicked(fault.value), w;
      }
      var l := s.locals.(deviceType := None, reg := 0);
      r := Ok(s.(cursor := cursor, nodeDepth := s.nodeDepth + 1, nodeName := mem[at + 4..structEnd], locals := l));
      w' := BegunNode(w, BeginPiece(mem[at..structEnd], at).token.name);
    }

    /** One iteration for FDT_PROP. */
    method WalkProp(mem: Bytes, structEnd: nat, namesAt: nat, names: Names, s: WalkState,
                    ghost w: Walk, ghost before: Fields)
      returns (r: Result<WalkState>, ghost w': Walk)
      requires AtToken(mem, structEnd, s, w, before)
      requires names.Valid() && namesAt + |names.bytes| <= |mem| && names.bytes == mem[namesAt..namesAt + |names.bytes|]
      modifies this`addressCells, this`sizeCells, this`physicalMemoryRegionCount, physicalMemoryRegions
      ensures Handled(mem, structEnd, s, w, PropPiece(mem[s.cursor..structEnd], s.cursor, names), r, w', before)
    {
      w' := w;
      var at := s.cursor;
      var fault, length, nameOffset, cursor := SkipProperty(mem, at, structEnd, names);
      if fault != None {
        return Panicked(fault.value), w;
      }
      var propName := mem[namesAt + nameOffset..namesAt + names.size + NAME_SLACK];
      assert propName == names.bytes[nameOffset..];
      r, w' := ApplyProperty(mem, structEnd, propName, at + 12, length, cursor, s, w,
                             PropPiece(mem[at..structEnd], at, names), before);
    }

    /** The rest of the iteration, for a property that is the piece p. */
    method ApplyProperty(mem: Bytes, structEnd: nat, propName: Bytes, data: nat, length: U32, cursor: nat, s: WalkState,
                         ghost w: Walk, ghost p: Piece, ghost before: Fields)
      returns (r: Result<WalkState>, ghost w': Walk)
      requires AtToken(mem, structEnd, s, w, before)
      requires |propName| > NAME_SLACK && 0 < data && data + length <= structEnd
      requires p.token == Prop(CString(propName), mem[data..data + length])
      requires cursor == s.cursor + p.size <= structEnd && cursor % 4 == 0
      modifies this`addressCells, this`sizeCells, this`physicalMemoryRegionCount, physicalMemoryRegions
      ensures Handled(mem, structEnd, s, w, p, r, w', before)
    {
      w' := w;
      var l, node := HandleProperty(mem, s.nodeName, propName, data, length, s.locals,
                                    InNode(w.node, w.harvest), before);
      StepOfProp(w, CString(propName), mem[data..data + length], p.token);
      if l.Panicked? {
        return Panicked(l.reason), w;
      }
      r := Ok(s.(cursor := cursor, locals := l.value));
      w' := Walk(w.depth, node.node, node.harvest);
    }

    /** One iteration of the loop. */
    method WalkToken(mem: Bytes, structEnd: nat, namesAt: nat, names: Names, s: WalkState,
                     ghost w: Walk, ghost before: Fields)
      returns (r: Result<WalkState>, ghost w': Walk)
      requires AtToken(mem, structEnd, s, w, before)
      requires names.Valid() && namesAt + |names.bytes| <= |mem| && names.bytes == mem[namesAt..namesAt + |names.bytes|]
      modifies this`addressCells, this`sizeCells, this`physicalMemoryRegionCount, physicalMemoryRegions
      ensures Handled(mem, structEnd, s, w, NextPiece(mem[s.cursor..structEnd], s.cursor, names), r, w', before)
    {
      w' := w;
      var token := LoadBe32(mem, s.cursor);
      Be32Slice(mem, s.cursor, structEnd, 0);
      var cursor := s.cursor + 4;
      if cursor > structEnd {
        // A whole token word is in the block.
        assert false;
      }
      if token == FDT_BEGIN_NODE {
        r, w' := WalkBeginNode(mem, structEnd, s, w, before);
      } else if token == FDT_END_NODE {
        if s.nodeDepth == 0 {
          return Panicked(UnmatchedEndNode), w;
        }
        r := Ok(s.(cursor := cursor, nodeDepth := s.nodeDepth - 1));
        w' := w.(depth := w.depth - 1);
      } else if token == FDT_PROP {
        r, w' := WalkProp(mem, structEnd, namesAt, names, s, w, before);
      } else if token == FDT_NOP {
        r := Ok(s.(cursor := cursor));
      } else if token == FDT_END {
        // To the end of the block, so that the loop terminates.
        r := Ok(s.(cursor := structEnd, endTokens := s.endTokens + 1));
      } else {
        r := Panicked(UnknownToken);
      }
    }

    /** The loop and the checks after it. */
    method WalkTokens(mem: Bytes, structStart: nat, structEnd: nat, namesAt: nat, names: Names,
                      ghost before: Fields, ghost verdict: Result<Harvest>)
      returns (r: Result<()>)
      requires Valid() && 0 < structStart <= structEnd <= |mem| <= TWO_64
      requires names.Valid() && namesAt + |names.bytes| <= |mem| && names.bytes == mem[namesAt..namesAt + |names.bytes|]
      requires before == MemoryFields()
      requires verdict == Verdict(mem[structStart..structEnd], structStart, names)
      modifies this`addressCells, this`sizeCells, this`physicalMemoryRegionCount, physicalMemoryRegions
      ensures r == Outcome(verdict)
      ensures r.Ok? ==> Shows(verdict.value, before)
    {
      ghost var scan, w := TokenScanner(names), START;
      var s := WalkState(structStart, 0, 0, Literal([]), Locals(false, false, None, 0, 0));
      while true
        invariant Agrees(mem, structEnd, s, w, before)
        invariant Remains(scan, mem, structEnd, s, w, verdict)
        invariant structStart <= s.cursor && s.nodeDepth <= s.cursor - structStart
        invariant structStart % 4 == 0 && s.endTokens == 0 ==> s.cursor % 4 == 0
        decreases structEnd - s.cursor
      {
        if s.cursor > structEnd {
          // The cursor never passes the end of the block.
          assert false;
        }
        if structEnd - s.cursor < 4 {
          break;
        }
        var next; ghost var w';
        next, w' := WalkToken(mem, structEnd, namesAt, names, s, w, before);
        VerdictAfter(scan, mem, structEnd, s, w, next, w', verdict);
        if next.Panicked? {
          return Panicked(next.reason);
        }
        s, w := next.value, w';
      }
      assert verdict == Finish(w, s.endTokens == 1);
      if s.nodeDepth != 0 {
        return Panicked(NestingMismatch);
      }
      if s.endTokens != 1 {
        return Panicked(NotOneEndToken);
      }
      r := Ok(());
    }

    method WalkStructureBlock(mem: Bytes, dtb: nat) returns (r: Result<()>)
      requires Valid() && BoundsFault(header) == None
      requires 0 < dtb && dtb + header.totalSize + NAME_SLACK <= |mem| <= TWO_64
      modifies this`addressCells, this`sizeCells, this`physicalMemoryRegionCount, physicalMemoryRegions
      ensures var v := Verdict(StructOf(mem, dtb, header), dtb + header.offStruct, StringsOf(mem, dtb, header));
        r == Outcome(v) && (r.Ok? ==> Shows(v.value, old(MemoryFields())))
    {
      var names, namesAt := StringsOf(mem, dtb, header), dtb + header.offStrings;
      var structStart := dtb + header.offStruct;
      var structEnd := structStart + header.sizeStruct;
      ghost var verdict := Verdict(StructOf(mem, dtb, header), structStart, names);
      r := WalkTokens(mem, structStart, structEnd, namesAt, names, MemoryFields(), verdict);
    }
  }

  /** parse_device_tree_blob. The console output of the source is left out. */
  method ParseDeviceTreeBlob(hw: HardwareInfo?, mem: Bytes, dtb: nat) returns (r: Result<()>)
    requires Readable(mem, dtb) && (hw != null ==> hw.Valid())
    modifies if hw == null then {} else hw.Parts()
    ensures hw == null ==> r == Panicked(NullOutput)
    ensures hw != null ==> r == Outcome(Parse(mem, dtb))
    ensures hw != null && r.Ok? ==>
      && hw.header == Parse(mem, dtb).value.header
      && hw.ReservedShows(Parse(mem, dtb).value.reserved)
      && hw.Shows(Parse(mem, dtb).value.harvest, old(hw.MemoryFields()))
  {
    if hw == null {
      return Panicked(NullOutput);
    }
    ghost var before := hw.MemoryFields();
    r := hw.ReadHeader(mem, dtb);
    if r.Panicked? {
      return;
    }
    r := hw.ReadReservations(mem, dtb);
    if r.Panicked? {
      return;
    }
    assert hw.MemoryFields() == before;
    r := hw.WalkStructureBlock(mem, dtb);
  }

  /** A verdict without what was learnt. */
  function Outcome<T>(v: Result<T>): Result<()> {
    if v.Ok? then Ok(()) else Panicked(v.reason)
  }

  /** The loop's state: cursor, depth, FDT_END count, the name pointer as the bytes readable from it,
      and the locals that describe the node. */
  datatype WalkState = WalkState(cursor: nat, nodeDepth: U64, endTokens: U64, nodeName: Bytes, locals: Locals)
  {
    ghost predicate Tracks(mem: Bytes, w: Walk) {
      && nodeDepth == w.depth
      && nodeName != [] && (nodeName[0] == 0 <==> w.node.unnamed)
      && locals.Tracks(mem, w.node, w.harvest)
    }
  }

  /** Before FDT_END, the verdict is that of the tokens from the cursor on; after it, the cursor is at
      the end, one FDT_END has been counted, and the verdict is that of the final checks. */
  ghost predicate Remains(scan: Scanner, mem: Bytes, structEnd: nat, s: WalkState, w: Walk, verdict: Result<Harvest>)
    requires Progresses(scan) && s.cursor <= structEnd <= |mem|
  {
    if s.endTokens == 0 then verdict == Run(w, Cut(scan, mem[s.cursor..structEnd], s.cursor))
    else s.endTokens == 1 && s.cursor == structEnd && verdict == Finish(w, true)
  }

  /** What one iteration does with one piece, apart from the harvest. */
  ghost predicate StepsAs(structEnd: nat, s: WalkState, w: Walk, p: Piece, r: Result<WalkState>, w': Walk) {
    if p.token.Bad? then r == Panicked(p.token.reason)
    else if p.token.End? then w' == w && r == Ok(s.(cursor := structEnd, endTokens := 1))
    else if r.Panicked? then Step(w, p.token) == Panicked(r.reason)
    else Step(w, p.token) == Ok(w') && r.value.cursor == s.cursor + p.size && r.value.endTokens == 0
  }

  /** The verdict from a piece on, in terms of that piece. */
  lemma VerdictOfPiece(scan: Scanner, mem: Bytes, at: nat, structEnd: nat, w: Walk, p: Piece)
    requires Progresses(scan) && at + 4 <= structEnd <= |mem| && p == scan(mem[at..structEnd], at)
    ensures var v := Run(w, Cut(scan, mem[at..structEnd], at));
      if p.token.Bad? then v == Panicked(p.token.reason)
      else if p.token.End? then v == Finish(w, true)
      else if Step(w, p.token).Panicked? then v == Panicked(Step(w, p.token).reason)
      else
        && 4 <= p.size <= structEnd - at
        && v == Run(Step(w, p.token).value, Cut(scan, mem[at + p.size..structEnd], at + p.size))
  {
    var block := mem[at..structEnd];
    if !p.token.Stops() {
      assert block[p.size..] == mem[at + p.size..structEnd];
      RunCons(w, p.token, Cut(scan, block[p.size..], at + p.size));
    }
  }

  /** One iteration keeps the verdict still to come. */
  lemma VerdictAfter(scan: Scanner, mem: Bytes, structEnd: nat, s: WalkState, w: Walk,
                     r: Result<WalkState>, w': Walk, verdict: Result<Harvest>)
    requires Progresses(scan) && s.cursor + 4 <= structEnd <= |mem| && s.endTokens == 0
    requires Remains(scan, mem, structEnd, s, w, verdict)
    requires StepsAs(structEnd, s, w, scan(mem[s.cursor..structEnd], s.cursor), r, w')
    ensures r.Panicked? ==> verdict == Panicked(r.reason)
    ensures r.Ok? ==>
      && s.cursor + 4 <= r.value.cursor <= structEnd
      && Remains(scan, mem, structEnd, r.value, w', verdict)
      && w'.depth <= w.depth + 1
  {
    VerdictOfPiece(scan, mem, s.cursor, structEnd, w, scan(mem[s.cursor..structEnd], s.cursor));
  }

  lemma StepOfProp(w: Walk, name: Bytes, value: Bytes, t: Token)
    requires t == Prop(name, value)
    ensures var out := PropStep(InNode(w.node, w.harvest), Property(name, value));
      Step(w, t) == if out.Ok? then Ok(Walk(w.depth, out.value.node, out.value.harvest)) else Panicked(out.reason)
  {
  }

  lemma EntryInPlace(mem: Bytes, dtb: nat, h: Header, i: nat)
    requires dtb + h.totalSize <= |mem| && h.offReserved + 16 * i + 16 <= h.totalSize
    ensures var at := dtb + h.offReserved + 16 * i;
      EntryAt(ReservedTable(mem, dtb, h), i) == Entry(Be64(mem, at), Be64(mem, at + 8))
  {
    Be64Slice(mem, dtb + h.offReserved, dtb + h.totalSize, 16 * i);
    Be64Slice(mem, dtb + h.offReserved, dtb + h.totalSize, 16 * i + 8);
  }

  lemma SevenByteMemory(value: Bytes)
    requires |value| == 7
    ensures CString(value) == MEMORY <==> value == MEMORY + [0]
  {
    BoundedEqualIsStringEqual(value, MEMORY);
    assert value == value[..6] + [value[6]];
  }

  /** Lines 330 to 339: what the property says about the current node. */
  method NoteNode(mem: Bytes, propName: Bytes, data: nat, length: U32, l: Locals, ghost node: Node, ghost h: Harvest)
    returns (l': Locals)
    requires l.Tracks(mem, node, h)
    requires |propName| > NAME_SLACK && 0 < data && data + length <= |mem|
    ensures l'.Tracks(mem, NodeStep(node, CString(propName), mem[data..data + length]), h)
  {
    l' := l;
    var isDeviceType := CompareToLiteral(propName, DEVICE_TYPE, 11);
    if isDeviceType {
      if length == 7 {
        var value := mem[data..data + length];
        var isMemory := CompareToLiteral(value, MEMORY, 6);
        SevenByteMemory(value);
        if isMemory {
          l' := l'.(deviceType := Some(Literal(MEMORY)));
        }
      }
    } else {
      var isReg := CompareToLiteral(propName, REG, 3);
      if isReg {
        l' := l'.(reg := data, regSize := length);
      }
    }
  }

  // ---- The token walk ----

  /** Steps the cursor to the next multiple of four. */
  method Align(start: nat) returns (cursor: nat)
    ensures cursor == start + Pad(start)
  {
    cursor := start;
    while cursor % 4 != 0
      invariant start <= cursor <= start + Pad(start)
      decreases start + Pad(start) - cursor
    {
      cursor := cursor + 1;
    }
  }

  /** Lines 193 to 225: the node's name, then padding. `at` is the address of the token. */
  method SkipNodeName(mem: Bytes, at: nat, structEnd: nat) returns (fault: Option<Reason>, cursor: nat)
    requires at + 4 <= structEnd <= |mem|
    ensures var p := BeginPiece(mem[at..structEnd], at);
      match p.token
      case Bad(why) => fault == Some(why)
      case BeginNode(name) =>
        && fault == None && cursor == at + p.size <= structEnd && cursor % 4 == 0
        && at + 4 < structEnd && (mem[at + 4] == 0 <==> name == [])
      case _ => false
  {
    ghost var s := mem[at..structEnd];
    ghost var nul := NulAt(s, 4);
    fault, cursor := None, at + 4;
    if cursor == structEnd {
      fault := Some(NodeNameMissing);
      return;
    }
    while mem[cursor] != 0
      invariant at + 4 <= cursor < structEnd && cursor <= at + nul
      decreases structEnd - cursor
    {
      assert s[cursor - at] == mem[cursor];
      if cursor + 1 > structEnd {
        // The loop is never entered with the cursor at the end.
        assert false;
      }
      cursor := cursor + 1;
      if cursor == structEnd {
        fault := Some(NodeNameOverflow);
        return;
      }
    }
    assert s[cursor - at] == mem[cursor];
    cursor := Align(cursor + 1);
    if cursor > structEnd {
      fault := Some(NodeAlignOverflow);
    }
  }

  /** Lines 248 to 283: the length, the name offset and the value, then padding. */
  method SkipProperty(mem: Bytes, at: nat, structEnd: nat, names: Names)
    returns (fault: Option<Reason>, length: U32, nameOffset: U32, cursor: nat)
    requires at + 4 <= structEnd <= |mem| && names.Valid()
    ensures var p := PropPiece(mem[at..structEnd], at, names);
      match p.token
      case Bad(why) => fault == Some(why)
      case Prop(name, value) =>
        && fault == None && cursor == at + p.size <= structEnd && cursor % 4 == 0
        && at + 12 + length <= structEnd && value == mem[at + 12..at + 12 + length]
        && nameOffset < names.size && name == names.At(nameOffset)
      case _ => false
  {
    fault, length, nameOffset, cursor := None, 0, 0, at + 4;
    if structEnd - cursor < 8 {
      fault := Some(PropertyMetadataOverflow);
      return;
    }
    length := LoadBe32(mem, cursor);
    cursor := cursor + 4;
    nameOffset := LoadBe32(mem, cursor);
    cursor := cursor + 4;
    Be32Slice(mem, at, structEnd, 4);
    Be32Slice(mem, at, structEnd, 8);
    if length > structEnd - cursor {
      fault := Some(PropertyLengthOverflow);
      return;
    }
    SliceOfSlice(mem, at, structEnd, 12, 12 + length);
    cursor := cursor + length;
    cursor := Align(cursor);
    if cursor > structEnd {
      fault := Some(PropertyValueOverflow);
      return;
    }
    if nameOffset >= names.size {
      fault := Some(PropertyNameOverflow);
    }
  }
}
