/**
 A small blob, byte for byte, and what the parser learns from it.
 */
module DeviceTreeExample {
  import opened Words
  import opened Endian
  import opened Panic
  import opened Memory
  import opened TokenCut
  import opened DeviceTreeTokens
  import opened DeviceTreeFold
  import opened DeviceTreeInvariance
  import opened DeviceTreeFlatten
  import opened DeviceTreeMeaning
  import opened DeviceTreeBlob
  import opened DeviceTreeRoundTrip
  import opened DeviceTreeLayout
  import opened DeviceTree

  // ---- Words ----

  /** A word lies at an address, most significant byte first. */
  ghost predicate Word(mem: Bytes, at: nat, v: U32) {
    at + 4 <= |mem| && Be32(mem, at) == v
  }

  ghost predicate Words2(mem: Bytes, at: nat, a: U32, b: U32) {
    Word(mem, at, a) && Word(mem, at + 4, b)
  }

  ghost predicate Words3(mem: Bytes, at: nat, a: U32, b: U32, c: U32) {
    Words2(mem, at, a, b) && Word(mem, at + 8, c)
  }

  ghost predicate Words4(mem: Bytes, at: nat, a: U32, b: U32, c: U32, d: U32) {
    Words2(mem, at, a, b) && Words2(mem, at + 8, c, d)
  }

  lemma HasJoined(mem: Bytes, at: nat, a: Bytes, b: Bytes)
    requires Has(mem, at, a) && Has(mem, at + |a|, b)
    ensures Has(mem, at, a + b)
  {
    var s := mem[at..at + |a + b|];
    assert s[..|a|] == a && s[|a|..] == b;
  }

  lemma WordHas(mem: Bytes, at: nat, v: U32)
    requires Word(mem, at, v)
    ensures Has(mem, at, Enc32(v))
  {
    EncOfBe(mem[at..at + 4]);
  }

  lemma Words2Have(mem: Bytes, at: nat, a: U32, b: U32)
    requires Words2(mem, at, a, b)
    ensures Has(mem, at, Enc32(a) + Enc32(b))
  {
    WordHas(mem, at, a);
    WordHas(mem, at + 4, b);
    HasJoined(mem, at, Enc32(a), Enc32(b));
  }

  lemma Words3Have(mem: Bytes, at: nat, a: U32, b: U32, c: U32)
    requires Words3(mem, at, a, b, c)
    ensures Has(mem, at, Enc32(a) + Enc32(b) + Enc32(c))
  {
    Words2Have(mem, at, a, b);
    WordHas(mem, at + 8, c);
    HasJoined(mem, at, Enc32(a) + Enc32(b), Enc32(c));
  }

  /** The encoding of a word, byte by byte. */
  lemma WordIs(v: U32, s: Bytes)
    requires |s| == 4 && Be32(s, 0) == v
    ensures Enc32(v) == s
  {
    assert s[0..4] == s;
    EncOfBe(s);
  }

  lemma LowAndHigh(hi: U32, lo: U32)
    ensures Be32(Enc32(hi) + Enc32(lo), 0) == hi && Be32(Enc32(hi) + Enc32(lo), 4) == lo
  {
    var s := Enc32(hi) + Enc32(lo);
    Be32Slice(s, 0, 4, 0);
    Be32Slice(s, 4, 8, 0);
    assert s[0..4] == Enc32(hi) && s[4..8] == Enc32(lo);
  }

  lemma DoubleIs(v: U64, s: Bytes)
    requires |s| == 8 && Be64(s, 0) == v
    ensures Enc64(v) == s
  {
    assert s[0..8] == s;
    EncOfBe(s);
  }

  lemma Double(v: U64, hi: U32, lo: U32)
    requires v == hi * 0x1_0000_0000 + lo
    ensures Enc64(v) == Enc32(hi) + Enc32(lo)
  {
    Be64Words(Enc32(hi) + Enc32(lo), 0);
    LowAndHigh(hi, lo);
    DoubleIs(v, Enc32(hi) + Enc32(lo));
  }

  // ---- Pieces of the structure block ----

  lemma BeginHas(mem: Bytes, at: nat, name: Bytes)
    requires Word(mem, at, 1) && Has(mem, at + 4, name + [0] + Zeros(Pad(4 + |name| + 1)))
    ensures Has(mem, at, BeginBytes(name))
  {
    WordHas(mem, at, 1);
    HasJoined(mem, at, Enc32(1), name + [0] + Zeros(Pad(4 + |name| + 1)));
    assert BeginBytes(name) == Enc32(1) + (name + [0] + Zeros(Pad(4 + |name| + 1)));
  }

  lemma PropHas(mem: Bytes, at: nat, offset: U32, value: Bytes)
    requires |value| < 0x100 && Words3(mem, at, 3, |value|, offset)
    requires Has(mem, at + 12, value + Zeros(Pad(12 + |value|)))
    ensures Has(mem, at, PropBytes(offset, value))
  {
    Words3Have(mem, at, 3, |value|, offset);
    var head := Enc32(3) + Enc32(|value|) + Enc32(offset);
    HasJoined(mem, at, head, value + Zeros(Pad(12 + |value|)));
    assert PropBytes(offset, value) == head + (value + Zeros(Pad(12 + |value|)));
  }

  /** A property of one word. */
  lemma CellHas(mem: Bytes, at: nat, offset: U32, v: U32)
    requires Words4(mem, at, 3, 4, offset, v)
    ensures Has(mem, at, PropBytes(offset, Enc32(v)))
  {
    WordHas(mem, at + 12, v);
    assert Enc32(v) + Zeros(Pad(12 + 4)) == Enc32(v);
    PropHas(mem, at, offset, Enc32(v));
  }

  lemma NamesInBytes()
    ensures ADDRESS_CELLS == [0x23, 0x61, 0x64, 0x64, 0x72, 0x65, 0x73, 0x73, 0x2D, 0x63, 0x65, 0x6C, 0x6C, 0x73]
    ensures SIZE_CELLS == [0x23, 0x73, 0x69, 0x7A, 0x65, 0x2D, 0x63, 0x65, 0x6C, 0x6C, 0x73]
    ensures DEVICE_TYPE == [0x64, 0x65, 0x76, 0x69, 0x63, 0x65, 0x5F, 0x74, 0x79, 0x70, 0x65]
    ensures REG == [0x72, 0x65, 0x67]
    ensures MEMORY == [0x6D, 0x65, 0x6D, 0x6F, 0x72, 0x79]
  {
  }

  lemma ZeroWord()
    ensures Enc32(0) == [0] + Zeros(3)
  {
    var s: Bytes := [0] + Zeros(3);
    Be32Bytes(s, 0);
    WordIs(0, s);
  }

  lemma RootHas(mem: Bytes, at: nat)
    requires Words2(mem, at, 1, 0)
    ensures Has(mem, at, BeginBytes([]))
  {
    WordHas(mem, at + 4, 0);
    ZeroWord();
    assert [] + [0] + Zeros(3) == [0] + Zeros(3);
    BeginHas(mem, at, []);
  }

  /** The text "memory", with its terminator and one byte of padding. */
  ghost predicate HasMemory(mem: Bytes, at: nat) {
    Has(mem, at, [0x6D, 0x65, 0x6D, 0x6F, 0x72, 0x79, 0, 0])
  }

  lemma MemoryHas(mem: Bytes, at: nat)
    requires HasMemory(mem, at)
    ensures Has(mem, at, MEMORY + [0] + Zeros(1))
  {
    NamesInBytes();
    assert MEMORY + [0] + Zeros(1) == [0x6D, 0x65, 0x6D, 0x6F, 0x72, 0x79, 0, 0];
  }

  lemma NodeHas(mem: Bytes, at: nat)
    requires Word(mem, at, 1) && HasMemory(mem, at + 4)
    ensures Has(mem, at, BeginBytes(MEMORY))
  {
    MemoryHas(mem, at + 4);
    BeginHas(mem, at, MEMORY);
  }

  lemma TypeHas(mem: Bytes, at: nat)
    requires Words3(mem, at, 3, 7, 27) && HasMemory(mem, at + 12)
    ensures Has(mem, at, PropBytes(27, MEMORY + [0]))
  {
    MemoryHas(mem, at + 12);
    PropHas(mem, at, 27, MEMORY + [0]);
  }

  lemma RegHas(mem: Bytes, at: nat, reg: Bytes, a: U32, b: U32, c: U32)
    requires Words3(mem, at, 3, 12, 39) && Words3(mem, at + 12, a, b, c) && reg == Enc32(a) + Enc32(b) + Enc32(c)
    ensures Has(mem, at, PropBytes(39, reg))
  {
    Words3Have(mem, at + 12, a, b, c);
    assert reg + Zeros(Pad(12 + 12)) == reg;
    PropHas(mem, at, 39, reg);
  }

  /** The tree of the example: two cell counts in the root, and a memory node. */
  function ExampleTree(ac: Bytes, sc: Bytes, reg: Bytes): Tree {
    Tree([], [Property(ADDRESS_CELLS, ac), Property(SIZE_CELLS, sc)],
         [Tree(MEMORY, [Property(DEVICE_TYPE, MEMORY + [0]), Property(REG, reg)], [])])
  }

  /** Where the names lie. */
  function ExampleOffsets(): Offsets {
    map[ADDRESS_CELLS := 0, SIZE_CELLS := 15, DEVICE_TYPE := 27, REG := 39]
  }

  lemma TwoPropsInBytes(a: Property, b: Property, offsets: Offsets)
    requires a.name in offsets && b.name in offsets && |a.value| < 0x1_0000_0000 && |b.value| < 0x1_0000_0000
    ensures PropsFlattenable([a, b], offsets)
    ensures PropsBytes([a, b], offsets) == PropBytes(offsets[a.name], a.value) + PropBytes(offsets[b.name], b.value)
  {
    var props := [a, b];
    assert props[0] == a && props[1] == b && props[1..] == [b] && [b][1..] == [];
    assert PropsFlattenable(props[1..], offsets);
    assert PropsBytes([b], offsets) == PropBytes(offsets[b.name], b.value) + [];
  }

  lemma OneChildInBytes(t: Tree, offsets: Offsets)
    requires Flattenable(t, offsets)
    ensures FlattenAll([t], offsets) == Flatten(t, offsets)
  {
    assert [t][1..] == [];
  }

  lemma NodeFlattens(reg: Bytes, node: Tree)
    requires |reg| < 0x100
    requires node == Tree(MEMORY, [Property(DEVICE_TYPE, MEMORY + [0]), Property(REG, reg)], [])
    ensures Flattenable(node, ExampleOffsets())
    ensures Flatten(node, ExampleOffsets())
         == BeginBytes(MEMORY) + ((PropBytes(27, MEMORY + [0]) + PropBytes(39, reg)) + Enc32(2))
  {
    NamesDiffer();
    TwoPropsInBytes(Property(DEVICE_TYPE, MEMORY + [0]), Property(REG, reg), ExampleOffsets());
    assert [] + Enc32(2) == Enc32(2);
  }

  lemma RootFlattens(a: Property, b: Property, node: Tree, offsets: Offsets)
    requires a.name in offsets && b.name in offsets && |a.value| < 0x100 && |b.value| < 0x100
    requires Flattenable(node, offsets)
    ensures Flattenable(Tree([], [a, b], [node]), offsets)
    ensures StructureBlock(Tree([], [a, b], [node]), offsets)
         == BeginBytes([]) + ((PropBytes(offsets[a.name], a.value) + PropBytes(offsets[b.name], b.value))
                              + (Flatten(node, offsets) + Enc32(2))) + Enc32(9)
  {
    TwoPropsInBytes(a, b, offsets);
    OneChildInBytes(node, offsets);
  }

  lemma ExampleFlattens(ac: Bytes, sc: Bytes, reg: Bytes)
    requires |ac| < 0x100 && |sc| < 0x100 && |reg| < 0x100
    ensures Flattenable(ExampleTree(ac, sc, reg), ExampleOffsets())
    ensures StructureBlock(ExampleTree(ac, sc, reg), ExampleOffsets())
         == BeginBytes([]) + ((PropBytes(0, ac) + PropBytes(15, sc))
            + ((BeginBytes(MEMORY) + ((PropBytes(27, MEMORY + [0]) + PropBytes(39, reg)) + Enc32(2))) + Enc32(2)))
            + Enc32(9)
  {
    NamesDiffer();
    var root := ExampleTree(ac, sc, reg);
    NodeFlattens(reg, root.children[0]);
    RootFlattens(root.props[0], root.props[1], root.children[0], ExampleOffsets());
  }

  // ---- What the tree yields ----

  lemma TwoProps(s: InNode, a: Property, b: Property, s1: InNode, s2: InNode)
    requires PropStep(s, a) == Ok(s1) && PropStep(s1, b) == Ok(s2)
    ensures HarvestProps(s, [a, b]) == Ok(s2)
  {
    OneProp(s, a, [b]);
    OneProp(s1, b, []);
    assert [a] + [b] == [a, b] && [b] + [] == [b];
  }

  lemma ExampleYields(ac: Bytes, sc: Bytes, reg: Bytes, rs: seq<Region>)
    requires |ac| == 4 && |sc| == 4 && DecodeReg(Be32(ac, 0), Be32(sc, 0), reg) == Ok(rs)
    ensures HarvestTree(ExampleTree(ac, sc, reg), NOTHING)
         == Ok(Harvest(Some(Be32(ac, 0)), Some(Be32(sc, 0)), Some(rs)))
  {
    NamesDiffer();
    var root := ExampleTree(ac, sc, reg);
    var node := root.children[0];
    var h1 := Harvest(Some(Be32(ac, 0)), None, None);
    var h2 := Harvest(Some(Be32(ac, 0)), Some(Be32(sc, 0)), None);
    var begun := FreshNode([]);
    TwoProps(InNode(begun, NOTHING), root.props[0], root.props[1], InNode(begun, h1), InNode(begun, h2));
    ExampleNode(h2, reg, rs);
    assert root.children[1..] == [];
  }

  lemma ExampleNode(h: Harvest, reg: Bytes, rs: seq<Region>)
    requires h.addressCells != None && h.sizeCells != None
    requires DecodeReg(h.addressCells.value, h.sizeCells.value, reg) == Ok(rs)
    ensures HarvestTree(Tree(MEMORY, [Property(DEVICE_TYPE, MEMORY + [0]), Property(REG, reg)], []), h)
         == Ok(h.(memory := Some(rs)))
  {
    NamesDiffer();
    TwoProps(InNode(Node(false, false, None), h), Property(DEVICE_TYPE, MEMORY + [0]), Property(REG, reg),
             InNode(Node(false, true, None), h), InNode(Node(false, true, Some(reg)), h.(memory := Some(rs))));
  }

  lemma ExampleRegion(reg: Bytes, r: Region, hi: U32, lo: U32, size: U32)
    requires reg == Enc32(hi) + Enc32(lo) + Enc32(size) && r == Region(hi * 0x1_0000_0000 + lo, size)
    requires r.Valid()
    ensures DecodeReg(2, 1, reg) == Ok([r])
  {
    Double(r.base, hi, lo);
    assert [r][0].Valid() && Encodable(2, 1, r) && EncRegion(2, 1, r) == reg;
    OneRegion(r);
    DecodeInvertsEncode(2, 1, reg, [r]);
  }

  lemma OneRegion(r: Region)
    requires Encodable(2, 1, r)
    ensures EncodeReg(2, 1, [r]) == EncRegion(2, 1, r)
  {
    var pieces := EncPieces(2, 1, [r]);
    assert pieces == [EncRegion(2, 1, r)] && pieces[1..] == [];
    assert Concat(pieces[1..]) == [];
  }

  // ---- The blob ----

  /** Magic, total size 256, structure at 80, strings at 200, reservations at 48, versions 17 and 16, processor 3,
      43 bytes of strings, 112 of structure. */
  ghost predicate HeaderWords(mem: Bytes, dtb: nat) {
    && Words4(mem, dtb, 0xd00dfeed, 256, 80, 200) && Words4(mem, dtb + 16, 48, 17, 16, 3)
    && Words2(mem, dtb + 32, 43, 112)
  }

  /** One reservation, and the entry that ends the list. */
  ghost predicate ReservationWords(mem: Bytes, dtb: nat) {
    Words4(mem, dtb + 48, 0, 0x4800_0000, 0, 0x1_0000) && Words4(mem, dtb + 64, 0, 0, 0, 0)
  }

  /** A token without meaning; the root with its two cell counts; the memory node with its type and its region;
      the ends of both nodes and of the block. */
  ghost predicate StructureWords(mem: Bytes, dtb: nat) {
    && Word(mem, dtb + 80, 4)
    && Words2(mem, dtb + 84, 1, 0)
    && Words4(mem, dtb + 92, 3, 4, 0, 2) && Words4(mem, dtb + 108, 3, 4, 15, 1)
    && Word(mem, dtb + 124, 1) && HasMemory(mem, dtb + 128)
    && Words3(mem, dtb + 136, 3, 7, 27) && HasMemory(mem, dtb + 148)
    && Words3(mem, dtb + 156, 3, 12, 39) && Words3(mem, dtb + 168, 1, 0, 0x8000_0000)
    && Word(mem, dtb + 180, 2) && Word(mem, dtb + 184, 2) && Word(mem, dtb + 188, 9)
  }

  /** The names #address-cells, #size-cells, device_type and reg. */
  ghost predicate StringsBytes(mem: Bytes, dtb: nat) {
    && Has(mem, dtb + 200, [0x23, 0x61, 0x64, 0x64, 0x72, 0x65, 0x73, 0x73, 0x2D, 0x63, 0x65, 0x6C, 0x6C, 0x73, 0])
    && Has(mem, dtb + 215, [0x23, 0x73, 0x69, 0x7A, 0x65, 0x2D, 0x63, 0x65, 0x6C, 0x6C, 0x73, 0])
    && Has(mem, dtb + 227, [0x64, 0x65, 0x76, 0x69, 0x63, 0x65, 0x5F, 0x74, 0x79, 0x70, 0x65, 0])
    && Has(mem, dtb + 239, [0x72, 0x65, 0x67, 0])
  }

  lemma HeaderIs(mem: Bytes, dtb: nat)
    requires HeaderWords(mem, dtb)
    ensures HasHeader(mem, dtb, Header(0xd00dfeed, 256, 80, 200, 48, 17, 16, 3, 43, 112))
  {
  }

  lemma EntryHas(mem: Bytes, at: nat, base: U32, size: U32)
    requires Words4(mem, at, 0, base, 0, size)
    ensures Has(mem, at, EncodeEntries([Entry(base, size)]))
  {
    Words2Have(mem, at, 0, base);
    Words2Have(mem, at + 8, 0, size);
    HasJoined(mem, at, Enc32(0) + Enc32(base), Enc32(0) + Enc32(size));
    Double(base, 0, base);
    Double(size, 0, size);
    var es := [Entry(base, size)];
    assert es[1..] == [] && EncodeEntries(es) == Enc64(base) + Enc64(size) + [];
  }

  lemma OneReservation(mem: Bytes, at: nat, e: Entry)
    requires Has(mem, at, EncodeEntries([e])) && Has(mem, at + 16, EncodeEntries([ZERO_ENTRY]))
    ensures Has(mem, at, ReservationBlock([e]))
  {
    HasJoined(mem, at, EncodeEntries([e]), EncodeEntries([ZERO_ENTRY]));
    assert ([e] + [ZERO_ENTRY])[1..] == [ZERO_ENTRY] && [e][1..] == [];
  }

  lemma ReservationIs(mem: Bytes, dtb: nat, base: U32, size: U32)
    requires Words4(mem, dtb + 48, 0, base, 0, size) && Words4(mem, dtb + 64, 0, 0, 0, 0)
    ensures Has(mem, dtb + 48, ReservationBlock([Entry(base, size)]))
  {
    EntryHas(mem, dtb + 48, base, size);
    EntryHas(mem, dtb + 64, 0, 0);
    OneReservation(mem, dtb + 48, Entry(base, size));
  }

  lemma NodeJoined(mem: Bytes, at: nat, m: Bytes, d: Bytes, r: Bytes, e: Bytes)
    requires Has(mem, at, m) && Has(mem, at + |m|, d) && Has(mem, at + |m| + |d|, r)
    requires Has(mem, at + |m| + |d| + |r|, e)
    ensures Has(mem, at, m + ((d + r) + e))
  {
    HasJoined(mem, at + |m|, d, r);
    HasJoined(mem, at + |m|, d + r, e);
    HasJoined(mem, at, m, (d + r) + e);
  }

  lemma TreeJoined(mem: Bytes, at: nat, b: Bytes, a: Bytes, s: Bytes, node: Bytes, e: Bytes, f: Bytes)
    requires Has(mem, at, b) && Has(mem, at + |b|, a) && Has(mem, at + |b| + |a|, s)
    requires Has(mem, at + |b| + |a| + |s|, node) && Has(mem, at + |b| + |a| + |s| + |node|, e)
    requires Has(mem, at + |b| + |a| + |s| + |node| + |e|, f)
    ensures Has(mem, at, b + ((a + s) + (node + e)) + f)
  {
    HasJoined(mem, at + |b|, a, s);
    HasJoined(mem, at + |b| + |a| + |s|, node, e);
    HasJoined(mem, at + |b|, a + s, node + e);
    HasJoined(mem, at, b, (a + s) + (node + e));
    HasJoined(mem, at, b + ((a + s) + (node + e)), f);
  }

  lemma RootSizes(name: Bytes, offset: U32, ac: Bytes, offset': U32, sc: Bytes)
    requires name == [] && |ac| == 4 && |sc| == 4
    ensures |BeginBytes(name)| == 8 && |PropBytes(offset, ac)| == 16 && |PropBytes(offset', sc)| == 16
  {
    BeginSize(name, 0);
    PropSize(offset, ac, 4);
    PropSize(offset', sc, 4);
  }

  lemma NodeSizes(dt: Bytes, reg: Bytes)
    requires dt == MEMORY + [0] && |reg| == 12
    ensures |BeginBytes(MEMORY)| == 12 && |PropBytes(27, dt)| == 20 && |PropBytes(39, reg)| == 24
  {
    BeginSize(MEMORY, 6);
    PropSize(27, dt, 7);
    PropSize(39, reg, 12);
  }

  lemma BeginSize(name: Bytes, n: nat)
    requires |name| == n
    ensures |BeginBytes(name)| == 5 + n + Pad(5 + n)
  {
  }

  lemma PropSize(offset: U32, value: Bytes, n: nat)
    requires |value| == n < 0x100
    ensures |PropBytes(offset, value)| == 12 + n + Pad(12 + n)
  {
  }

  lemma NodeIs(mem: Bytes, at: nat, reg: Bytes, size: U32)
    requires Word(mem, at, 1) && HasMemory(mem, at + 4)
    requires Words3(mem, at + 12, 3, 7, 27) && HasMemory(mem, at + 24)
    requires Words3(mem, at + 32, 3, 12, 39) && Words3(mem, at + 44, 1, 0, size) && Word(mem, at + 56, 2)
    requires reg == Enc32(1) + Enc32(0) + Enc32(size)
    ensures Has(mem, at, BeginBytes(MEMORY) + ((PropBytes(27, MEMORY + [0]) + PropBytes(39, reg)) + Enc32(2)))
  {
    NodeSizes(MEMORY + [0], reg);
    NodeHas(mem, at);
    TypeHas(mem, at + 12);
    RegHas(mem, at + 32, reg, 1, 0, size);
    WordHas(mem, at + 56, 2);
    NodeJoined(mem, at, BeginBytes(MEMORY), PropBytes(27, MEMORY + [0]), PropBytes(39, reg), Enc32(2));
  }

  lemma TreeBytes(mem: Bytes, at: nat, ac: U32, sc: U32, b: Bytes, a: Bytes, s: Bytes, node: Bytes)
    requires Words2(mem, at, 1, 0) && Words4(mem, at + 8, 3, 4, 0, ac) && Words4(mem, at + 24, 3, 4, 15, sc)
    requires b == BeginBytes([]) && a == PropBytes(0, Enc32(ac)) && s == PropBytes(15, Enc32(sc))
    requires |b| == 8 && |a| == 16 && |s| == 16 && |node| == 60 && Has(mem, at + 40, node)
    requires Word(mem, at + 100, 2) && Word(mem, at + 104, 9)
    ensures Has(mem, at, b + ((a + s) + (node + Enc32(2))) + Enc32(9))
  {
    RootHas(mem, at);
    CellHas(mem, at + 8, 0, ac);
    CellHas(mem, at + 24, 15, sc);
    WordHas(mem, at + 100, 2);
    WordHas(mem, at + 104, 9);
    TreeJoined(mem, at, b, a, s, node, Enc32(2), Enc32(9));
  }

  lemma TreeIs(mem: Bytes, at: nat, ac: U32, sc: U32, reg: Bytes, node: Bytes)
    requires Words2(mem, at, 1, 0) && Words4(mem, at + 8, 3, 4, 0, ac) && Words4(mem, at + 24, 3, 4, 15, sc)
    requires |reg| == 12 && Has(mem, at + 40, node) && |node| == 60
    requires node == BeginBytes(MEMORY) + ((PropBytes(27, MEMORY + [0]) + PropBytes(39, reg)) + Enc32(2))
    requires Word(mem, at + 100, 2) && Word(mem, at + 104, 9)
    ensures Flattenable(ExampleTree(Enc32(ac), Enc32(sc), reg), ExampleOffsets())
    ensures Has(mem, at, StructureBlock(ExampleTree(Enc32(ac), Enc32(sc), reg), ExampleOffsets()))
    ensures |StructureBlock(ExampleTree(Enc32(ac), Enc32(sc), reg), ExampleOffsets())| == 108
  {
    RootSizes([], 0, Enc32(ac), 15, Enc32(sc));
    TreeBytes(mem, at, ac, sc, BeginBytes([]), PropBytes(0, Enc32(ac)), PropBytes(15, Enc32(sc)), node);
    ExampleFlattens(Enc32(ac), Enc32(sc), reg);
  }

  // ---- The names ----

  lemma HasInside(mem: Bytes, lo: nat, hi: nat, at: nat, bytes: Bytes)
    requires lo <= hi <= |mem| && lo + at + |bytes| <= hi && Has(mem, lo + at, bytes)
    ensures Has(mem[lo..hi], at, bytes)
  {
    SliceOfSlice(mem, lo, hi, at, at + |bytes|);
  }

  lemma NamesThere(mem: Bytes, dtb: nat)
    requires StringsBytes(mem, dtb)
    ensures Has(mem, dtb + 200, ADDRESS_CELLS + [0]) && Has(mem, dtb + 215, SIZE_CELLS + [0])
    ensures Has(mem, dtb + 227, DEVICE_TYPE + [0]) && Has(mem, dtb + 239, REG + [0])
  {
    NamesInBytes();
  }

  lemma NamesKept(mem: Bytes, dtb: nat)
    requires StringsBytes(mem, dtb) && dtb + 243 <= |mem|
    ensures KeepsNames(mem[dtb + 200..dtb + 243], ExampleOffsets())
  {
    NamesDiffer();
    NamesThere(mem, dtb);
    HasInside(mem, dtb + 200, dtb + 243, 0, ADDRESS_CELLS + [0]);
    HasInside(mem, dtb + 200, dtb + 243, 15, SIZE_CELLS + [0]);
    HasInside(mem, dtb + 200, dtb + 243, 27, DEVICE_TYPE + [0]);
    HasInside(mem, dtb + 200, dtb + 243, 39, REG + [0]);
  }

  // ---- Parsing ----

  lemma NopInFront(struct: Bytes, offsets: Offsets, v: Result<Harvest>)
    requires WalksTo(struct, offsets, v)
    ensures WalksTo(Enc32(4) + struct, offsets, v)
  {
    forall names: Names, at: nat | Holds(names, offsets) && at % 4 == 0
      ensures Verdict(Enc32(4) + struct, at, names) == v
    {
      NopIsInvisible(struct, at, names, 0);
      assert Insert(struct, 0, NOP_BYTES) == Enc32(4) + struct;
    }
  }

  lemma ExampleStructure(mem: Bytes, dtb: nat, root: Tree, ac: U32, sc: U32, reg: Bytes, size: U32)
    requires StructureWords(mem, dtb) && ac == 2 && sc == 1 && size == 0x8000_0000
    requires reg == Enc32(1) + Enc32(0) + Enc32(size) && root == ExampleTree(Enc32(ac), Enc32(sc), reg)
    ensures Flattenable(root, ExampleOffsets()) && |StructureBlock(root, ExampleOffsets())| == 108
    ensures Has(mem, dtb + 80, Enc32(4) + StructureBlock(root, ExampleOffsets()))
  {
    var node := BeginBytes(MEMORY) + ((PropBytes(27, MEMORY + [0]) + PropBytes(39, reg)) + Enc32(2));
    NodeIs(mem, dtb + 124, reg, size);
    NodeSizes(MEMORY + [0], reg);
    TreeIs(mem, dtb + 84, ac, sc, reg, node);
    WordHas(mem, dtb + 80, 4);
    HasJoined(mem, dtb + 80, Enc32(4), StructureBlock(root, ExampleOffsets()));
  }

  lemma ExampleWalks(root: Tree, ac: U32, sc: U32, reg: Bytes, size: U32, v: Result<Harvest>)
    requires reg == Enc32(1) + Enc32(0) + Enc32(size) && ac == 2 && sc == 1 && size == 0x8000_0000
    requires root == ExampleTree(Enc32(ac), Enc32(sc), reg) && Flattenable(root, ExampleOffsets())
    requires v == Ok(Harvest(Some(2), Some(1), Some([Region(0x1_0000_0000, size)])))
    ensures WalksTo(Enc32(4) + StructureBlock(root, ExampleOffsets()), ExampleOffsets(), v)
  {
    ExampleRegion(reg, Region(0x1_0000_0000, size), 1, 0, size);
    ExampleYields(Enc32(ac), Enc32(sc), reg, [Region(0x1_0000_0000, size)]);
    TreeWalks(root, ExampleOffsets());
    NopInFront(StructureBlock(root, ExampleOffsets()), ExampleOffsets(), v);
  }

  lemma ExampleBlocks(mem: Bytes, dtb: nat, h: Header, reserved: seq<Entry>, root: Tree, ac: U32, sc: U32,
                      reg: Bytes, size: U32, v: Result<Harvest>)
    requires HasBlob(mem, dtb, h) && StructureWords(mem, dtb) && StringsBytes(mem, dtb) && dtb % 4 == 0
    requires h.offStruct == 80 && h.sizeStruct == 112 && h.offStrings == 200 && h.sizeStrings == 43
    requires h.totalSize == 256 && h.offReserved == 48 && |reserved| == 1 && ZERO_ENTRY !in reserved
    requires Has(mem, dtb + 48, ReservationBlock(reserved))
    requires reg == Enc32(1) + Enc32(0) + Enc32(size) && ac == 2 && sc == 1 && size == 0x8000_0000
    requires root == ExampleTree(Enc32(ac), Enc32(sc), reg)
    requires v == Ok(Harvest(Some(2), Some(1), Some([Region(0x1_0000_0000, size)])))
    ensures Readable(mem, dtb) && Parse(mem, dtb) == Combine(h, Ok(reserved), v)
  {
    ExampleStructure(mem, dtb, root, ac, sc, reg, size);
    ExampleWalks(root, ac, sc, reg, size, v);
    NamesKept(mem, dtb);
    BlocksYield(mem, dtb, h, reserved, Enc32(4) + StructureBlock(root, ExampleOffsets()),
                mem[dtb + 200..dtb + 243], ExampleOffsets(), v);
  }

  /** Wherever this blob lies, with 14 bytes behind it, the parser learns two cells for an address and one for a
      size, the region of 0x8000_0000 bytes at 0x1_0000_0000, and the reservation of 0x1_0000 bytes at
      0x4800_0000. */
  lemma ExampleParses(mem: Bytes, dtb: nat)
    requires 0 < dtb && dtb % 4 == 0 && dtb + 270 <= |mem| <= 0x1_0000_0000_0000_0000
    requires HeaderWords(mem, dtb) && ReservationWords(mem, dtb) && StructureWords(mem, dtb) && StringsBytes(mem, dtb)
    ensures Readable(mem, dtb)
    ensures Parse(mem, dtb) == Ok(Hardware(
      Header(0xd00dfeed, 256, 80, 200, 48, 17, 16, 3, 43, 112),
      [Entry(0x4800_0000, 0x1_0000)],
      Harvest(Some(2), Some(1), Some([Region(0x1_0000_0000, 0x8000_0000)]))))
  {
    var h := Header(0xd00dfeed, 256, 80, 200, 48, 17, 16, 3, 43, 112);
    var ac: U32, sc: U32, size: U32 := 2, 1, 0x8000_0000;
    var reg := Enc32(1) + Enc32(0) + Enc32(size);
    HeaderIs(mem, dtb);
    ReservationIs(mem, dtb, 0x4800_0000, 0x1_0000);
    ExampleBlocks(mem, dtb, h, [Entry(0x4800_0000, 0x1_0000)], ExampleTree(Enc32(ac), Enc32(sc), reg), ac, sc, reg,
                  size, Ok(Harvest(Some(2), Some(1), Some([Region(0x1_0000_0000, size)]))));
  }

  /** The parser's own fields after this blob. */
  method ParseExample(hw: HardwareInfo, mem: Bytes, dtb: nat) returns (r: Result<()>)
    requires 0 < dtb && dtb % 4 == 0 && dtb + 270 <= |mem| <= 0x1_0000_0000_0000_0000 && hw.Valid()
    requires HeaderWords(mem, dtb) && ReservationWords(mem, dtb) && StructureWords(mem, dtb) && StringsBytes(mem, dtb)
    modifies hw.Parts()
    ensures r == Ok(()) && hw.Valid()
    ensures hw.header == Header(0xd00dfeed, 256, 80, 200, 48, 17, 16, 3, 43, 112)
    ensures hw.addressCells == 2 && hw.sizeCells == 1
    ensures hw.physicalMemoryRegionCount == 1 && hw.physicalMemoryRegions[0] == Region(0x1_0000_0000, 0x8000_0000)
    ensures hw.reservedRegionsCount == 1
    ensures hw.reservedRegionBases[0] == 0x4800_0000 && hw.reservedRegionSizes[0] == 0x1_0000
  {
    ExampleParses(mem, dtb);
    r := ParseDeviceTreeBlob(hw, mem, dtb);
    assert hw.physicalMemoryRegions[..1][0] == hw.physicalMemoryRegions[0];
  }
}
