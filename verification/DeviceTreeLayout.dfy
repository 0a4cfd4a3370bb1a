/**
 Blobs of any layout: the blocks may lie anywhere inside the total size, in any order, with free space before,
 between and after them (Devicetree Specification v0.4, section 5.1). Offsets, sizes and limits are the
 numbers of the format.
 */
module DeviceTreeLayout {
  import opened Words
  import opened Endian
  import opened Strings
  import opened Panic
  import opened DeviceTreeTokens
  import opened DeviceTreeFold
  import opened DeviceTreeFlatten
  import opened DeviceTreeMeaning
  import opened DeviceTreeBlob
  import opened DeviceTreeRoundTrip

  /** The bytes lie at an address. */
  ghost predicate Has(mem: Bytes, at: nat, bytes: Bytes) {
    at + |bytes| <= |mem| && mem[at..at + |bytes|] == bytes
  }

  /** The ten words of a header. */
  ghost predicate HasHeader(mem: Bytes, dtb: nat, h: Header) {
    && dtb + 40 <= |mem|
    && Be32(mem, dtb) == h.magic && Be32(mem, dtb + 4) == h.totalSize
    && Be32(mem, dtb + 8) == h.offStruct && Be32(mem, dtb + 12) == h.offStrings
    && Be32(mem, dtb + 16) == h.offReserved && Be32(mem, dtb + 20) == h.version
    && Be32(mem, dtb + 24) == h.lastCompVersion && Be32(mem, dtb + 28) == h.bootCpuid
    && Be32(mem, dtb + 32) == h.sizeStrings && Be32(mem, dtb + 36) == h.sizeStruct
  }

  /** A blob with this header, all of it readable, and 14 bytes more. */
  ghost predicate HasBlob(mem: Bytes, dtb: nat, h: Header) {
    && 0 < dtb && |mem| <= 0x1_0000_0000_0000_0000
    && HasHeader(mem, dtb, h) && h.magic == 0xd00dfeed && 40 <= h.totalSize
    && dtb + h.totalSize + 14 <= |mem|
  }

  /** The blocks lie inside the blob. */
  ghost predicate InBounds(h: Header) {
    && h.offReserved < h.totalSize
    && h.offStruct as int + h.sizeStruct as int <= h.totalSize
    && h.offStrings as int + h.sizeStrings as int <= h.totalSize
  }

  lemma HeaderAccepted(mem: Bytes, dtb: nat, h: Header)
    requires HasBlob(mem, dtb, h)
    ensures Readable(mem, dtb)
    ensures InBounds(h) ==> HeaderVerdict(mem, dtb) == Ok(h)
  {
  }

  // ---- Which headers are rejected ----

  /** Without a blob, with a wrong magic number, or with a size below that of the header, no more than what has
      been looked at needs to be readable. */
  lemma NoHeader(mem: Bytes, dtb: nat)
    requires |mem| <= 0x1_0000_0000_0000_0000
    ensures dtb == 0 ==> Readable(mem, dtb) && Parse(mem, dtb) == Panicked(NullBlob)
    ensures 0 < dtb && dtb + 4 <= |mem| && Be32(mem, dtb) != 0xd00dfeed ==>
      Readable(mem, dtb) && Parse(mem, dtb) == Panicked(BadMagic)
    ensures 0 < dtb && dtb + 8 <= |mem| && Be32(mem, dtb) == 0xd00dfeed && Be32(mem, dtb + 4) < 40 ==>
      Readable(mem, dtb) && Parse(mem, dtb) == Panicked(TotalSizeTooSmall)
  {
  }

  /** A block that leaves the blob is reported, the reservation block before the structure block and that before
      the strings block; if none does, the header is what the blob says. */
  lemma OutOfBounds(mem: Bytes, dtb: nat, h: Header)
    requires HasBlob(mem, dtb, h)
    ensures Readable(mem, dtb)
    ensures var struct, strings := h.offStruct as int + h.sizeStruct as int, h.offStrings as int + h.sizeStrings as int;
      && (h.offReserved >= h.totalSize ==> Parse(mem, dtb) == Panicked(ReservationMapOutOfBounds))
      && (h.offReserved < h.totalSize < struct ==> Parse(mem, dtb) == Panicked(StructOutOfBounds))
      && (h.offReserved < h.totalSize < strings && struct <= h.totalSize ==>
           Parse(mem, dtb) == Panicked(StringsOutOfBounds))
      && (Parse(mem, dtb).Ok? ==> InBounds(h) && Parse(mem, dtb).value.header == h)
  {
    HeaderAccepted(mem, dtb, h);
  }

  /** Of a blob whose blocks are inside, the reservations are read first, then the structure block. */
  lemma FaultOrder(mem: Bytes, dtb: nat, h: Header) returns (reserved: Result<seq<Entry>>, walked: Result<Harvest>)
    requires HasBlob(mem, dtb, h) && InBounds(h)
    ensures reserved == Reserved(mem[dtb + h.offReserved..dtb + h.totalSize])
    ensures walked == Verdict(StructOf(mem, dtb, h), dtb + h.offStruct, StringsOf(mem, dtb, h))
    ensures Readable(mem, dtb)
    ensures Parse(mem, dtb) == if reserved.Panicked? then Panicked(reserved.reason)
                               else if walked.Panicked? then Panicked(walked.reason)
                               else Ok(Hardware(h, reserved.value, walked.value))
  {
    HeaderAccepted(mem, dtb, h);
    reserved := Reserved(ReservedTable(mem, dtb, h));
    walked := Verdict(StructOf(mem, dtb, h), dtb + h.offStruct, StringsOf(mem, dtb, h));
    ParsesAs(mem, dtb, h, reserved, walked);
    CombineOrder(h, reserved, walked);
  }

  lemma CombineOrder(h: Header, reserved: Result<seq<Entry>>, walked: Result<Harvest>)
    ensures Combine(h, reserved, walked)
         == if reserved.Panicked? then Panicked(reserved.reason)
            else if walked.Panicked? then Panicked(walked.reason)
            else Ok(Hardware(h, reserved.value, walked.value))
  {
  }

  // ---- The blocks of a blob ----

  /** The strings block holds every name where the offsets say, with its terminator. */
  ghost predicate KeepsNames(strings: Bytes, offsets: Offsets) {
    forall n :: n in offsets ==> NulFree(n) && Has(strings, offsets[n], n + [0])
  }

  lemma NameStarts(s: Bytes, name: Bytes)
    requires NulFree(name) && name + [0] <= s
    ensures CString(s) == name
  {
    var rest := s[|name| + 1..];
    CStringOfLiteral(name, rest);
    assert s == name + [0] + rest;
  }

  lemma NameKept(strings: Bytes, slack: Bytes, offset: nat, name: Bytes)
    requires NulFree(name) && Has(strings, offset, name + [0]) && |slack| == NAME_SLACK
    ensures offset < |strings| && Names(strings + slack, |strings|).At(offset) == name
  {
    var s := (strings + slack)[offset..];
    assert s[..|name| + 1] == strings[offset..offset + |name + [0]|];
    NameStarts(s, name);
  }

  lemma NamesStored(strings: Bytes, offsets: Offsets)
    requires KeepsNames(strings, offsets)
    ensures Stores(strings, offsets)
  {
    forall slack: Bytes | |slack| == NAME_SLACK
      ensures Holds(Names(strings + slack, |strings|), offsets)
    {
      forall n | n in offsets
        ensures offsets[n] < |strings| && Names(strings + slack, |strings|).At(offsets[n]) == n
      {
        NameKept(strings, slack, offsets[n], n);
      }
    }
  }

  /** The reservations, the structure block and the strings block lie where the header says. */
  ghost predicate HasBlocks(mem: Bytes, dtb: nat, h: Header, reserved: seq<Entry>, struct: Bytes, strings: Bytes) {
    && h.offReserved + 16 * (|reserved| + 1) <= h.totalSize
    && Has(mem, dtb + h.offReserved, ReservationBlock(reserved))
    && h.offStruct + h.sizeStruct <= h.totalSize && |struct| == h.sizeStruct
    && Has(mem, dtb + h.offStruct, struct)
    && h.offStrings + h.sizeStrings <= h.totalSize && |strings| == h.sizeStrings
    && Has(mem, dtb + h.offStrings, strings)
  }

  lemma BlocksAreSeen(mem: Bytes, dtb: nat, h: Header, reserved: seq<Entry>, struct: Bytes, strings: Bytes)
    requires HasBlob(mem, dtb, h) && HasBlocks(mem, dtb, h, reserved, struct, strings)
    ensures Seen(mem, dtb, h, ReservationBlock(reserved), struct, strings)
  {
    HeaderAccepted(mem, dtb, h);
    var rsv := ReservationBlock(reserved);
    SliceOfSlice(mem, dtb + h.offReserved, dtb + h.totalSize, 0, |rsv|);
    assert ReservedTable(mem, dtb, h)[0..|rsv|] == rsv;
  }

  /** Blocks that yield v wherever they lie, and reservations, parse to these. */
  lemma BlocksYield(mem: Bytes, dtb: nat, h: Header, reserved: seq<Entry>, struct: Bytes, strings: Bytes,
                    offsets: Offsets, v: Result<Harvest>)
    requires HasBlob(mem, dtb, h) && HasBlocks(mem, dtb, h, reserved, struct, strings)
    requires (dtb + h.offStruct) % 4 == 0 && KeepsNames(strings, offsets) && WalksTo(struct, offsets, v)
    requires |reserved| < MAX_RESERVED && ZERO_ENTRY !in reserved
    ensures Readable(mem, dtb) && Parse(mem, dtb) == Combine(h, Ok(reserved), v)
  {
    BlocksAreSeen(mem, dtb, h, reserved, struct, strings);
    NamesStored(strings, offsets);
    BlocksParse(mem, dtb, h, reserved, struct, strings, offsets, v);
  }

  /** Encode, then parse, in any layout: with the blocks of a tree and of at most 254 reservations anywhere
      inside the blob, the structure block at a 4-aligned address, what the tree yields and the reservations come
      back; a proper tree yields what it declares. */
  lemma AnyLayout(mem: Bytes, dtb: nat, h: Header, reserved: seq<Entry>, root: Tree, offsets: Offsets, strings: Bytes)
    requires HasBlob(mem, dtb, h) && Flattenable(root, offsets)
    requires HasBlocks(mem, dtb, h, reserved, StructureBlock(root, offsets), strings)
    requires (dtb + h.offStruct) % 4 == 0 && KeepsNames(strings, offsets)
    requires |reserved| <= 254 && Entry(0, 0) !in reserved
    ensures Readable(mem, dtb)
    ensures Parse(mem, dtb) == Combine(h, Ok(reserved), HarvestTree(root, NOTHING))
    ensures Proper(root) ==> Parse(mem, dtb) == Combine(h, Ok(reserved), TreeVerdict(root))
  {
    TreeWalks(root, offsets);
    BlocksYield(mem, dtb, h, reserved, StructureBlock(root, offsets), strings, offsets, HarvestTree(root, NOTHING));
  }

  // ---- The reservation block ----

  /** An entry of two zero words ends the reservations. */
  ghost predicate ZeroAt(table: Bytes, k: nat)
    requires 16 * k + 16 <= |table|
  {
    Be64(table, 16 * k) == 0 && Be64(table, 16 * k + 8) == 0
  }

  /** The reservations are rejected exactly when none of the first 255 entries ends them, or when the table stops
      before that and before an entry ends them. */
  lemma ReservationFaults(table: Bytes)
    ensures Reserved(table) == Panicked(TooManyReservations) <==>
      255 * 16 <= |table| && forall k: nat :: k < 255 ==> !ZeroAt(table, k)
    ensures Reserved(table) == Panicked(ReservationOverflow) <==>
      |table| < 255 * 16 && forall k: nat :: 16 * k + 16 <= |table| ==> !ZeroAt(table, k)
    ensures Reserved(table).Panicked? ==> Reserved(table).reason in {TooManyReservations, ReservationOverflow}
  {
    var es := Entries(table);
    assert forall k: nat :: k < |es| ==> (es[k] == ZERO_ENTRY <==> ZeroAt(table, k));
  }
}
