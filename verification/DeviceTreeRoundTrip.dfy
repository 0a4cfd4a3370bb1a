/**
 From a device tree to a blob in memory and back: what parsing an encoded tree returns, and what
 parsing does not depend on.
 */
module DeviceTreeRoundTrip {
  import opened Words
  import opened Endian
  import opened Strings
  import opened Panic
  import opened TokenCut
  import opened DeviceTreeTokens
  import opened DeviceTreeFold
  import opened DeviceTreeFlatten
  import opened DeviceTreeMeaning
  import opened DeviceTreeBlob

  // ---- Any layout ----

  /** The verdict on a proper tree, from its declarations alone. */
  ghost function TreeVerdict(root: Tree): (v: Result<Harvest>)
    requires Proper(root)
    ensures v == HarvestTree(root, NOTHING)
  {
    TreeMeaning(root);
    if Acceptable(root) then Ok(Declared(root).(memory := DeclaredMemory(root)))
    else Panicked(HarvestTree(root, NOTHING).reason)
  }

  /** A structure block that reaches the verdict `v` at every aligned address, with every strings block
      that holds the names. */
  ghost predicate WalksTo(struct: Bytes, offsets: Offsets, v: Result<Harvest>) {
    forall names: Names, at: nat {:trigger Verdict(struct, at, names)} |
      Holds(names, offsets) && at % 4 == 0 :: Verdict(struct, at, names) == v
  }

  lemma TreeWalks(root: Tree, offsets: Offsets)
    requires Flattenable(root, offsets)
    ensures WalksTo(StructureBlock(root, offsets), offsets, HarvestTree(root, NOTHING))
  {
    forall names: Names, at: nat | Holds(names, offsets) && at % 4 == 0
      ensures Verdict(StructureBlock(root, offsets), at, names) == HarvestTree(root, NOTHING)
    {
      FlattenThenWalk(root, at, names, offsets);
    }
  }

  lemma ParsesAsBlock(mem: Bytes, dtb: nat, h: Header, offsets: Offsets, v: Result<Harvest>)
    requires Readable(mem, dtb) && HeaderVerdict(mem, dtb) == Ok(h)
    requires (dtb + h.offStruct) % 4 == 0
    requires WalksTo(StructOf(mem, dtb, h), offsets, v)
    requires Holds(StringsOf(mem, dtb, h), offsets)
    ensures Parse(mem, dtb) == Combine(h, Reserved(ReservedTable(mem, dtb, h)), v)
  {
    ParsesAs(mem, dtb, h, Reserved(ReservedTable(mem, dtb, h)), v);
  }

  /** A blob whose structure block, at a 4-aligned address, is a tree's, and whose strings block holds the
      tree's property names, parses exactly when its header, its reservation block and the tree are
      acceptable; what is learnt of memory is what the tree yields, and for a proper tree, what it declares. */
  lemma ParsesAsTree(mem: Bytes, dtb: nat, h: Header, root: Tree, offsets: Offsets)
    requires Readable(mem, dtb) && HeaderVerdict(mem, dtb) == Ok(h)
    requires Flattenable(root, offsets)
    requires (dtb + h.offStruct) % 4 == 0
    requires StructOf(mem, dtb, h) == StructureBlock(root, offsets)
    requires Holds(StringsOf(mem, dtb, h), offsets)
    ensures Parse(mem, dtb) == Combine(h, Reserved(ReservedTable(mem, dtb, h)), HarvestTree(root, NOTHING))
    ensures Proper(root) ==> Parse(mem, dtb) == Combine(h, Reserved(ReservedTable(mem, dtb, h)), TreeVerdict(root))
  {
    TreeWalks(root, offsets);
    ParsesAsBlock(mem, dtb, h, offsets, HarvestTree(root, NOTHING));
  }

  // ---- One layout for every tree ----

  function PropNames(props: seq<Property>): seq<Bytes> {
    if props == [] then [] else [props[0].name] + PropNames(props[1..])
  }

  function NamesOf(t: Tree): seq<Bytes>
    decreases t, 0
  {
    PropNames(t.props) + NamesOfAll(t.children)
  }

  function NamesOfAll(ts: seq<Tree>): seq<Bytes>
    decreases ts
  {
    if ts == [] then [] else NamesOf(ts[0]) + NamesOfAll(ts[1..])
  }

  /** The names, each with its terminator. */
  function StringsBlock(ns: seq<Bytes>): Bytes {
    if ns == [] then [] else ns[0] + [0] + StringsBlock(ns[1..])
  }

  /** Where a name lies in the block. */
  function PlaceOf(ns: seq<Bytes>, n: Bytes): (place: nat)
    requires n in ns
    ensures place < |StringsBlock(ns)|
  {
    if ns[0] == n then 0 else |ns[0]| + 1 + PlaceOf(ns[1..], n)
  }

  function OffsetsOf(ns: seq<Bytes>): (offsets: Offsets)
    requires |StringsBlock(ns)| < 0x1_0000_0000
    ensures forall n :: n in offsets <==> n in ns
    ensures forall n :: n in offsets ==> offsets[n] == PlaceOf(ns, n)
  {
    map n | n in ns :: PlaceOf(ns, n)
  }

  lemma {:induction false} PlacesHold(ns: seq<Bytes>, s: Bytes, n: Bytes)
    requires n in ns && forall k :: 0 <= k < |ns| ==> NulFree(ns[k])
    requires StringsBlock(ns) <= s
    ensures PlaceOf(ns, n) <= |s| && CString(s[PlaceOf(ns, n)..]) == n
    decreases |ns|
  {
    BlockStart(ns, s);
    if ns[0] == n {
      assert s[0..] == s;
    } else {
      var skip, place := |ns[0]| + 1, PlaceOf(ns[1..], n);
      PlacesHold(ns[1..], s[skip..], n);
      assert s[skip..][place..] == s[skip + place..];
    }
  }

  /** A strings block starts with its first name, and the others follow its terminator. */
  lemma BlockStart(ns: seq<Bytes>, s: Bytes)
    requires ns != [] && NulFree(ns[0]) && StringsBlock(ns) <= s
    ensures |ns[0]| + 1 <= |s| && CString(s) == ns[0] && StringsBlock(ns[1..]) <= s[|ns[0]| + 1..]
  {
    var first := ns[0] + [0];
    var rest := s[|first|..];
    assert StringsBlock(ns)[..|first|] == first && StringsBlock(ns)[|first|..] == StringsBlock(ns[1..]);
    assert s[..|first|] == first;
    assert s == ns[0] + [0] + rest;
    CStringOfLiteral(ns[0], rest);
  }

  /** Names and values that the format can carry. */
  ghost predicate Encodes(t: Tree)
    decreases t, 0
  {
    && NulFree(t.name)
    && (forall k :: 0 <= k < |t.props| ==> NulFree(t.props[k].name) && |t.props[k].value| < 0x1_0000_0000)
    && EncodesAll(t.children)
  }

  ghost predicate EncodesAll(ts: seq<Tree>)
    decreases ts
  {
    ts == [] || (Encodes(ts[0]) && EncodesAll(ts[1..]))
  }

  lemma {:induction false} PropNamesIn(props: seq<Property>, n: Bytes)
    ensures n in PropNames(props) <==> exists k :: 0 <= k < |props| && props[k].name == n
  {
    if props != [] {
      PropNamesIn(props[1..], n);
      assert forall k :: 1 <= k < |props| ==> props[k] == props[1..][k - 1];
      assert props[0].name == n ==> exists k :: 0 <= k < |props| && props[k].name == n;
    }
  }

  lemma {:induction false} TreeEncodes(t: Tree, offsets: Offsets)
    requires Encodes(t) && forall n :: n in NamesOf(t) ==> n in offsets
    ensures Flattenable(t, offsets)
    ensures forall n :: n in NamesOf(t) ==> NulFree(n)
    decreases t, 0
  {
    forall k | 0 <= k < |t.props|
      ensures t.props[k].name in offsets
    {
      PropNamesIn(t.props, t.props[k].name);
    }
    forall n | n in PropNames(t.props)
      ensures NulFree(n)
    {
      PropNamesIn(t.props, n);
    }
    ForestEncodes(t.children, offsets);
  }

  lemma {:induction false} ForestEncodes(ts: seq<Tree>, offsets: Offsets)
    requires EncodesAll(ts) && forall n :: n in NamesOfAll(ts) ==> n in offsets
    ensures forall k :: 0 <= k < |ts| ==> Flattenable(ts[k], offsets)
    ensures forall n :: n in NamesOfAll(ts) ==> NulFree(n)
    decreases ts
  {
    if ts != [] {
      TreeEncodes(ts[0], offsets);
      ForestEncodes(ts[1..], offsets);
      assert forall k :: 1 <= k < |ts| ==> ts[k] == ts[1..][k - 1];
    }
  }

  /** The header fields that do not describe the layout. */
  datatype Misc = Misc(version: U32, lastCompVersion: U32, bootCpuid: U32)

  /** A tree and a reservation list that one blob can carry. */
  ghost predicate Fits(reserved: seq<Entry>, root: Tree) {
    && Encodes(root)
    && |StringsBlock(NamesOf(root))| < 0x1_0000_0000
    && Flattenable(root, OffsetsOf(NamesOf(root)))
    && HEADER_BYTES + |ReservationBlock(reserved)| + |BlobStruct(root)| + |StringsBlock(NamesOf(root))| < 0x1_0000_0000
  }

  function BlobStruct(root: Tree): Bytes
    requires |StringsBlock(NamesOf(root))| < 0x1_0000_0000 && Flattenable(root, OffsetsOf(NamesOf(root)))
  {
    StructureBlock(root, OffsetsOf(NamesOf(root)))
  }

  /** The blocks follow the header in order: reservations, structure, strings. */
  function HeaderFor(misc: Misc, reserved: nat, struct: nat, strings: nat): Header
    requires HEADER_BYTES + reserved + struct + strings < 0x1_0000_0000
  {
    var offStruct := HEADER_BYTES + reserved;
    Header(FDT_MAGIC, offStruct + struct + strings, offStruct, offStruct + struct, HEADER_BYTES,
           misc.version, misc.lastCompVersion, misc.bootCpuid, strings, struct)
  }

  function EncodeHeader(h: Header): (s: Bytes)
    ensures |s| == HEADER_BYTES
  {
    EncodeWords([h.magic, h.totalSize, h.offStruct, h.offStrings, h.offReserved,
                 h.version, h.lastCompVersion, h.bootCpuid, h.sizeStrings, h.sizeStruct])
  }

  function EncodeWords(ws: seq<U32>): (s: Bytes)
    ensures |s| == 4 * |ws|
  {
    if ws == [] then [] else Enc32(ws[0]) + EncodeWords(ws[1..])
  }

  lemma {:induction false} WordReads(ws: seq<U32>, k: nat)
    requires k < |ws|
    ensures Be32(EncodeWords(ws), 4 * k) == ws[k]
  {
    var s := EncodeWords(ws);
    if k == 0 {
      assert s[0..4] == Enc32(ws[0]) == Enc32(ws[0])[0..4];
    } else {
      WordReads(ws[1..], k - 1);
      assert s[4..|s|] == EncodeWords(ws[1..]);
      Be32Slice(s, 4, |s|, 4 * (k - 1));
    }
  }

  lemma HeaderReads(h: Header)
    ensures HeaderAt(EncodeHeader(h), 0) == h
  {
    var ws := [h.magic, h.totalSize, h.offStruct, h.offStrings, h.offReserved,
               h.version, h.lastCompVersion, h.bootCpuid, h.sizeStrings, h.sizeStruct];
    forall k | 0 <= k < 10
      ensures Be32(EncodeHeader(h), 4 * k) == ws[k]
    {
      WordReads(ws, k);
    }
    WordReads(ws, 0); WordReads(ws, 1); WordReads(ws, 2); WordReads(ws, 3); WordReads(ws, 4);
    WordReads(ws, 5); WordReads(ws, 6); WordReads(ws, 7); WordReads(ws, 8); WordReads(ws, 9);
  }

  function BlobHeader(misc: Misc, reserved: seq<Entry>, root: Tree): Header
    requires Fits(reserved, root)
  {
    HeaderFor(misc, |ReservationBlock(reserved)|, |BlobStruct(root)|, |StringsBlock(NamesOf(root))|)
  }

  /** The flattened device tree. */
  function EncodeBlob(misc: Misc, reserved: seq<Entry>, root: Tree): Bytes
    requires Fits(reserved, root)
  {
    Assemble(misc, ReservationBlock(reserved), BlobStruct(root), StringsBlock(NamesOf(root)))
  }

  function Assemble(misc: Misc, rsv: Bytes, struct: Bytes, strings: Bytes): Bytes
    requires HEADER_BYTES + |rsv| + |struct| + |strings| < 0x1_0000_0000
  {
    EncodeHeader(HeaderFor(misc, |rsv|, |struct|, |strings|)) + rsv + struct + strings
  }

  lemma HeaderInPlace(mem: Bytes, dtb: nat, s: Bytes)
    requires HEADER_BYTES <= |s| && dtb + |s| <= |mem| && mem[dtb..dtb + |s|] == s
    ensures HeaderAt(mem, dtb) == HeaderAt(s, 0)
  {
    var hi := dtb + |s|;
    Be32Slice(mem, dtb, hi, 0); Be32Slice(mem, dtb, hi, 4); Be32Slice(mem, dtb, hi, 8); Be32Slice(mem, dtb, hi, 12);
    Be32Slice(mem, dtb, hi, 16); Be32Slice(mem, dtb, hi, 20); Be32Slice(mem, dtb, hi, 24); Be32Slice(mem, dtb, hi, 28);
    Be32Slice(mem, dtb, hi, 32); Be32Slice(mem, dtb, hi, 36);
  }

  /** The blob lies in memory at a 4-aligned address, with the slack readable after it. */
  ghost predicate Placed(mem: Bytes, dtb: nat, blob: Bytes) {
    && 0 < dtb && dtb % 4 == 0 && |mem| <= TWO_64
    && dtb + |blob| + NAME_SLACK <= |mem|
    && mem[dtb..dtb + |blob|] == blob
  }

  lemma HeaderParses(h: Header, header: Bytes, rest: Bytes, mem: Bytes, dtb: nat)
    requires |header| == HEADER_BYTES && HeaderAt(header, 0) == h
    requires h.magic == FDT_MAGIC && BoundsFault(h) == None && h.totalSize == |header + rest|
    requires Placed(mem, dtb, header + rest)
    ensures Readable(mem, dtb) && HeaderVerdict(mem, dtb) == Ok(h)
  {
    var blob := header + rest;
    assert blob[0..0 + |header|] == header;
    HeaderInPlace(blob, 0, header);
    HeaderInPlace(mem, dtb, blob);
  }

  /** The four parts of a blob, cut at the offsets of its header. */
  lemma PartsInPlace(a: Bytes, b: Bytes, c: Bytes, d: Bytes, mem: Bytes, dtb: nat)
    requires dtb + |a| + |b| + |c| + |d| <= |mem|
    requires mem[dtb..dtb + |a| + |b| + |c| + |d|] == a + b + c + d
    ensures b <= mem[dtb + |a|..dtb + |a| + |b| + |c| + |d|]
    ensures mem[dtb + |a| + |b|..dtb + |a| + |b| + |c|] == c
    ensures mem[dtb + |a| + |b| + |c|..dtb + |a| + |b| + |c| + |d|] == d
  {
    var s, n := a + b + c + d, |a| + |b| + |c| + |d|;
    SliceOfSlice(mem, dtb, dtb + n, |a|, n);
    SliceOfSlice(mem, dtb, dtb + n, |a| + |b|, |a| + |b| + |c|);
    SliceOfSlice(mem, dtb, dtb + n, |a| + |b| + |c|, n);
    assert s[|a|..n] == b + (c + d);
    assert s[|a| + |b|..|a| + |b| + |c|] == c;
    assert s[|a| + |b| + |c|..n] == d;
  }

  /** A strings block that holds the names of the offsets, whatever bytes follow it. */
  ghost predicate Stores(strings: Bytes, offsets: Offsets) {
    forall slack: Bytes | |slack| == NAME_SLACK :: Holds(Names(strings + slack, |strings|), offsets)
  }

  lemma StringsHold(mem: Bytes, dtb: nat, h: Header, strings: Bytes, offsets: Offsets)
    requires Stores(strings, offsets) && dtb + h.offStrings + h.sizeStrings + NAME_SLACK <= |mem|
    requires mem[dtb + h.offStrings..dtb + h.offStrings + h.sizeStrings] == strings
    ensures Holds(StringsOf(mem, dtb, h), offsets)
  {
    var at := dtb + h.offStrings;
    var slack := mem[at + h.sizeStrings..at + h.sizeStrings + NAME_SLACK];
    assert mem[at..at + h.sizeStrings + NAME_SLACK] == strings + slack;
    assert StringsOf(mem, dtb, h) == Names(strings + slack, |strings|);
  }

  lemma NamesAreStored(root: Tree)
    requires Encodes(root) && |StringsBlock(NamesOf(root))| < 0x1_0000_0000
    ensures Stores(StringsBlock(NamesOf(root)), OffsetsOf(NamesOf(root)))
  {
    var ns := NamesOf(root);
    var strings, offsets := StringsBlock(ns), OffsetsOf(ns);
    TreeEncodes(root, offsets);
    forall slack: Bytes | |slack| == NAME_SLACK
      ensures Holds(Names(strings + slack, |strings|), offsets)
    {
      forall n | n in offsets
        ensures offsets[n] < |strings| && Names(strings + slack, |strings|).At(offsets[n]) == n
      {
        PlacesHold(ns, strings + slack, n);
      }
    }
  }

  /** What each stage of the parser sees of blocks laid out behind their header. */
  ghost predicate Seen(mem: Bytes, dtb: nat, h: Header, rsv: Bytes, struct: Bytes, strings: Bytes) {
    && Readable(mem, dtb) && HeaderVerdict(mem, dtb) == Ok(h)
    && rsv <= ReservedTable(mem, dtb, h) && StructOf(mem, dtb, h) == struct
    && mem[dtb + h.offStrings..dtb + h.offStrings + h.sizeStrings] == strings
  }

  lemma BlocksSeen(misc: Misc, rsv: Bytes, struct: Bytes, strings: Bytes, mem: Bytes, dtb: nat)
    requires HEADER_BYTES + |rsv| + |struct| + |strings| < 0x1_0000_0000 && |rsv| > 0
    requires Placed(mem, dtb, Assemble(misc, rsv, struct, strings))
    ensures Seen(mem, dtb, HeaderFor(misc, |rsv|, |struct|, |strings|), rsv, struct, strings)
  {
    var h := HeaderFor(misc, |rsv|, |struct|, |strings|);
    var header := EncodeHeader(h);
    HeaderReads(h);
    assert header + rsv + struct + strings == header + (rsv + struct + strings);
    HeaderParses(h, header, rsv + struct + strings, mem, dtb);
    PartsInPlace(header, rsv, struct, strings, mem, dtb);
  }

  lemma BlocksParse(mem: Bytes, dtb: nat, h: Header, reserved: seq<Entry>, struct: Bytes, strings: Bytes,
                    offsets: Offsets, v: Result<Harvest>)
    requires Seen(mem, dtb, h, ReservationBlock(reserved), struct, strings)
    requires |reserved| < MAX_RESERVED && ZERO_ENTRY !in reserved
    requires WalksTo(struct, offsets, v) && (dtb + h.offStruct) % 4 == 0
    requires Stores(strings, offsets)
    ensures Readable(mem, dtb) && Parse(mem, dtb) == Combine(h, Ok(reserved), v)
  {
    ReservedMeaning(ReservedTable(mem, dtb, h), reserved);
    StringsHold(mem, dtb, h, strings, offsets);
    ParsesAsBlock(mem, dtb, h, offsets, v);
  }

  lemma StructAligned(dtb: nat, offStruct: nat, entries: nat)
    requires dtb % 4 == 0 && offStruct == HEADER_BYTES + 16 * (entries + 1)
    ensures (dtb + offStruct) % 4 == 0
  {
  }

  /** Blocks assembled behind their header parse block by block. */
  lemma AssembledParses(misc: Misc, h: Header, reserved: seq<Entry>, rsv: Bytes, struct: Bytes, strings: Bytes,
                        offsets: Offsets, v: Result<Harvest>, mem: Bytes, dtb: nat)
    requires WalksTo(struct, offsets, v) && Stores(strings, offsets)
    requires |reserved| < MAX_RESERVED && ZERO_ENTRY !in reserved && rsv == ReservationBlock(reserved)
    requires HEADER_BYTES + |rsv| + |struct| + |strings| < 0x1_0000_0000
    requires h == HeaderFor(misc, |rsv|, |struct|, |strings|)
    requires Placed(mem, dtb, Assemble(misc, rsv, struct, strings))
    ensures Readable(mem, dtb) && Parse(mem, dtb) == Combine(h, Ok(reserved), v)
  {
    StructAligned(dtb, h.offStruct, |reserved|);
    BlocksSeen(misc, rsv, struct, strings, mem, dtb);
    BlocksParse(mem, dtb, h, reserved, struct, strings, offsets, v);
  }

  /** Encode, then parse: what a tree yields and any list of at most 254 reservations come back, whatever
      surrounds the blob in memory, or the parser reports why the tree cannot be used. A proper tree yields
      what it declares. */
  lemma EncodeThenParse(misc: Misc, reserved: seq<Entry>, root: Tree, mem: Bytes, dtb: nat)
    requires Fits(reserved, root)
    requires |reserved| < MAX_RESERVED && ZERO_ENTRY !in reserved
    requires Placed(mem, dtb, EncodeBlob(misc, reserved, root))
    ensures Readable(mem, dtb)
    ensures Parse(mem, dtb) == Combine(BlobHeader(misc, reserved, root), Ok(reserved), HarvestTree(root, NOTHING))
    ensures Proper(root) ==>
      Parse(mem, dtb) == Combine(BlobHeader(misc, reserved, root), Ok(reserved), TreeVerdict(root))
  {
    var offsets := OffsetsOf(NamesOf(root));
    NamesAreStored(root);
    TreeWalks(root, offsets);
    AssembledParses(misc, BlobHeader(misc, reserved, root), reserved, ReservationBlock(reserved), BlobStruct(root),
                    StringsBlock(NamesOf(root)), offsets, HarvestTree(root, NOTHING), mem, dtb);
  }

  /** Every blob can lie in memory, and the smallest tree makes one. */
  lemma PlacedSomewhere(blob: Bytes) returns (mem: Bytes, dtb: nat)
    requires |blob| < 0x1_0000_0000
    ensures Placed(mem, dtb, blob)
  {
    mem, dtb := Zeros(4) + blob + Zeros(NAME_SLACK), 4;
    assert mem[4..4 + |blob|] == blob;
  }

  const ROOT_ALONE := Tree([], [], [])

  lemma RootAloneFits()
    ensures Fits([], ROOT_ALONE) && Proper(ROOT_ALONE)
  {
    var offsets := OffsetsOf([]);
    assert NamesOf(ROOT_ALONE) == [] && |StringsBlock([])| == 0;
    RootAloneIsSmall(offsets);
    NoReservations();
  }

  lemma RootAloneIsSmall(offsets: Offsets)
    ensures Encodes(ROOT_ALONE) && Flattenable(ROOT_ALONE, offsets)
    ensures |StructureBlock(ROOT_ALONE, offsets)| == 16
  {
    assert PropsBytes([], offsets) == [] && FlattenAll([], offsets) == [];
    assert |BeginBytes([])| == 8;
  }

  lemma NoReservations()
    ensures |ReservationBlock([])| == 16
  {
    assert [] + [ZERO_ENTRY] == [ZERO_ENTRY];
  }

  // ---- What parsing does not depend on ----

  lemma VerdictPhase(block: Bytes, a: nat, b: nat, names: Names)
    requires names.Valid() && a % 4 == b % 4
    ensures Verdict(block, a, names) == Verdict(block, b, names)
  {
    CutPhase(TokenScanner(names), block, a, b);
  }

  /** How many bytes the parser looks at: the magic number, if it is wrong; the size, if it is too small;
      else the blob and the slack after it. */
  ghost function Extent(mem: Bytes, dtb: nat): (n: nat)
    requires Readable(mem, dtb) && 0 < dtb
    ensures dtb + n <= |mem|
  {
    if Be32(mem, dtb) != FDT_MAGIC then 4
    else if Be32(mem, dtb + 4) < HEADER_BYTES then 8
    else Be32(mem, dtb + 4) + NAME_SLACK
  }

  /** Parsing looks at these bytes alone, and of the address only at its alignment: the same bytes
      elsewhere, at an address with the same residue modulo 4, parse the same, accepted or rejected. */
  lemma Relocatable(mem: Bytes, dtb: nat, mem': Bytes, dtb': nat)
    requires Readable(mem, dtb) && Readable(mem', dtb') && 0 < dtb && 0 < dtb' && dtb % 4 == dtb' % 4
    requires dtb' + Extent(mem, dtb) <= |mem'|
    requires mem[dtb..dtb + Extent(mem, dtb)] == mem'[dtb'..dtb' + Extent(mem, dtb)]
    ensures Parse(mem', dtb') == Parse(mem, dtb)
  {
    SameHeaderVerdict(mem, dtb, mem', dtb', Extent(mem, dtb));
    if HeaderVerdict(mem, dtb).Ok? {
      AcceptedHeaderRelocates(mem, dtb, mem', dtb', HeaderVerdict(mem, dtb).value);
    }
  }

  lemma AcceptedHeaderRelocates(mem: Bytes, dtb: nat, mem': Bytes, dtb': nat, h: Header)
    requires Readable(mem, dtb) && HeaderVerdict(mem, dtb) == Ok(h)
    requires Readable(mem', dtb') && HeaderVerdict(mem', dtb') == Ok(h) && dtb % 4 == dtb' % 4
    requires var n := h.totalSize + NAME_SLACK;
      dtb + n <= |mem| && dtb' + n <= |mem'| && mem[dtb..dtb + n] == mem'[dtb'..dtb' + n]
    ensures Parse(mem', dtb') == Parse(mem, dtb)
  {
    SameBlocks(mem, dtb, mem', dtb', h);
    PadPhase(dtb, dtb', h.offStruct);
    SameParse(mem, dtb, mem', dtb', h, Reserved(ReservedTable(mem, dtb, h)), StructOf(mem, dtb, h),
              StringsOf(mem, dtb, h));
  }

  /** The header checks see the same bytes. */
  lemma SameHeaderVerdict(mem: Bytes, dtb: nat, mem': Bytes, dtb': nat, n: nat)
    requires Readable(mem, dtb) && Readable(mem', dtb') && 0 < dtb && 0 < dtb'
    requires n == Extent(mem, dtb) && dtb' + n <= |mem'| && mem[dtb..dtb + n] == mem'[dtb'..dtb' + n]
    ensures HeaderVerdict(mem', dtb') == HeaderVerdict(mem, dtb)
  {
    SameLoad(mem, dtb, mem', dtb', n, 0);
    if Be32(mem, dtb) == FDT_MAGIC {
      SameLoad(mem, dtb, mem', dtb', n, 4);
      if Be32(mem, dtb + 4) >= HEADER_BYTES {
        var blob := mem[dtb..dtb + n];
        HeaderInPlace(mem, dtb, blob);
        HeaderInPlace(mem', dtb', blob);
      }
    }
  }

  lemma SameLoad(mem: Bytes, dtb: nat, mem': Bytes, dtb': nat, n: nat, at: nat)
    requires at + 4 <= n && dtb + n <= |mem| && dtb' + n <= |mem'| && mem[dtb..dtb + n] == mem'[dtb'..dtb' + n]
    ensures Be32(mem', dtb' + at) == Be32(mem, dtb + at)
  {
    Be32Slice(mem, dtb, dtb + n, at);
    Be32Slice(mem', dtb', dtb' + n, at);
  }

  lemma SameParse(mem: Bytes, dtb: nat, mem': Bytes, dtb': nat, h: Header, reserved: Result<seq<Entry>>, block: Bytes,
                  names: Names)
    requires names.Valid() && (dtb + h.offStruct) % 4 == (dtb' + h.offStruct) % 4
    ensures Shows(mem, dtb, h, reserved, block, names) && Shows(mem', dtb', h, reserved, block, names)
      ==> Parse(mem', dtb') == Parse(mem, dtb)
  {
    VerdictPhase(block, dtb + h.offStruct, dtb' + h.offStruct, names);
    SameVerdictParse(mem, dtb, mem', dtb', h, reserved, block, names, Verdict(block, dtb + h.offStruct, names));
  }

  lemma SameVerdictParse(mem: Bytes, dtb: nat, mem': Bytes, dtb': nat, h: Header, reserved: Result<seq<Entry>>,
                         block: Bytes, names: Names, v: Result<Harvest>)
    requires names.Valid()
    requires v == Verdict(block, dtb + h.offStruct, names) == Verdict(block, dtb' + h.offStruct, names)
    ensures Shows(mem, dtb, h, reserved, block, names) && Shows(mem', dtb', h, reserved, block, names)
      ==> Parse(mem', dtb') == Parse(mem, dtb)
  {
    if Shows(mem, dtb, h, reserved, block, names) && Shows(mem', dtb', h, reserved, block, names) {
      ParsesAs(mem, dtb, h, reserved, v);
      ParsesAs(mem', dtb', h, reserved, v);
    }
  }

  lemma SameBlocks(mem: Bytes, dtb: nat, mem': Bytes, dtb': nat, h: Header)
    requires BoundsFault(h) == None
    requires var n := h.totalSize + NAME_SLACK;
      dtb + n <= |mem| && dtb' + n <= |mem'| && mem[dtb..dtb + n] == mem'[dtb'..dtb' + n]
    ensures ReservedTable(mem', dtb', h) == ReservedTable(mem, dtb, h)
    ensures StructOf(mem', dtb', h) == StructOf(mem, dtb, h)
    ensures StringsOf(mem', dtb', h) == StringsOf(mem, dtb, h)
    ensures mem[dtb..dtb + h.totalSize] == mem'[dtb'..dtb' + h.totalSize]
  {
    var n := h.totalSize + NAME_SLACK;
    SameSlice(mem, dtb, mem', dtb', n, 0, h.totalSize);
    SameSlice(mem, dtb, mem', dtb', n, h.offReserved, h.totalSize);
    SameSlice(mem, dtb, mem', dtb', n, h.offStruct, h.offStruct + h.sizeStruct);
    SameSlice(mem, dtb, mem', dtb', n, h.offStrings, h.offStrings + h.sizeStrings + NAME_SLACK);
  }

  lemma SameSlice(mem: Bytes, dtb: nat, mem': Bytes, dtb': nat, n: nat, lo: nat, hi: nat)
    requires lo <= hi <= n && dtb + n <= |mem| && dtb' + n <= |mem'|
    requires mem[dtb..dtb + n] == mem'[dtb'..dtb' + n]
    ensures mem[dtb + lo..dtb + hi] == mem'[dtb' + lo..dtb' + hi]
  {
    SliceOfSlice(mem, dtb, dtb + n, lo, hi);
    SliceOfSlice(mem', dtb', dtb' + n, lo, hi);
  }
}
