/**
 The whole blob as a value: header, reservation block, structure block, strings block
 (Devicetree Specification v0.4, sections 5.2 to 5.5), and the verdict the parser must reach.
 */
module DeviceTreeBlob {
  import opened Words
  import opened Endian
  import opened Panic
  import opened DeviceTreeTokens
  import opened DeviceTreeFold

  const FDT_MAGIC := 0xd00dfeed
  const HEADER_BYTES := 40
  const MAX_RESERVED := 255

  datatype Header = Header(
    magic: U32, totalSize: U32, offStruct: U32, offStrings: U32, offReserved: U32,
    version: U32, lastCompVersion: U32, bootCpuid: U32, sizeStrings: U32, sizeStruct: U32)

  function HeaderAt(mem: Bytes, dtb: nat): Header
    requires dtb + HEADER_BYTES <= |mem|
  {
    Header(Be32(mem, dtb), Be32(mem, dtb + 4), Be32(mem, dtb + 8), Be32(mem, dtb + 12), Be32(mem, dtb + 16),
           Be32(mem, dtb + 20), Be32(mem, dtb + 24), Be32(mem, dtb + 28), Be32(mem, dtb + 32), Be32(mem, dtb + 36))
  }

  /** What must be readable: the fields that the checks before them let the parser reach, then the
      whole blob and the slack a property-name comparison may look into. */
  ghost predicate Readable(mem: Bytes, dtb: nat) {
    && |mem| <= TWO_64
    && (dtb != 0 ==> dtb + 4 <= |mem|)
    && (dtb != 0 && Be32(mem, dtb) == FDT_MAGIC ==>
      && dtb + 8 <= |mem|
      && (Be32(mem, dtb + 4) >= HEADER_BYTES ==> dtb + Be32(mem, dtb + 4) + NAME_SLACK <= |mem|))
  }

  /** The block bounds the parser checks before it reads any block. */
  function BoundsFault(h: Header): Option<Reason> {
    if h.offReserved >= h.totalSize then Some(ReservationMapOutOfBounds)
    else if (h.offStruct as int) + h.sizeStruct > h.totalSize then Some(StructOutOfBounds)
    else if (h.offStrings as int) + h.sizeStrings > h.totalSize then Some(StringsOutOfBounds)
    else None
  }

  datatype Entry = Entry(base: U64, size: U64)

  const ZERO_ENTRY := Entry(0, 0)

  /** The k-th entry of a table. */
  function EntryAt(table: Bytes, k: nat): Entry
    requires 16 * k + 16 <= |table|
  {
    Entry(Be64(table, 16 * k), Be64(table, 16 * k + 8))
  }

  /** The whole entries of a table. */
  function Entries(table: Bytes): (es: seq<Entry>)
    ensures |es| == |table| / 16
    ensures forall k :: 0 <= k < |es| ==> es[k] == EntryAt(table, k)
  {
    seq(|table| / 16, k requires 0 <= k < |table| / 16 => EntryAt(table, k))
  }

  /** The index of the first (0, 0), or the length. */
  function FirstZero(es: seq<Entry>): (z: nat)
    ensures z <= |es|
    ensures forall k :: 0 <= k < z ==> es[k] != ZERO_ENTRY
    ensures z < |es| ==> es[z] == ZERO_ENTRY
  {
    if es == [] || es[0] == ZERO_ENTRY then 0 else 1 + FirstZero(es[1..])
  }

  /** The entries of a reservation block that may reach to the end of the blob; they, and the
      terminator, must fit the caller's arrays. */
  function Reserved(table: Bytes): Result<seq<Entry>> {
    var es := Entries(table);
    var z := FirstZero(es);
    if z >= MAX_RESERVED then Panicked(TooManyReservations)
    else if z == |es| then Panicked(ReservationOverflow)
    else Ok(es[..z])
  }

  function EncodeEntries(es: seq<Entry>): (s: Bytes)
    ensures |s| == 16 * |es|
  {
    if es == [] then [] else Enc64(es[0].base) + Enc64(es[0].size) + EncodeEntries(es[1..])
  }

  /** The entries followed by the terminator. */
  function ReservationBlock(es: seq<Entry>): Bytes {
    EncodeEntries(es + [ZERO_ENTRY])
  }

  datatype Hardware = Hardware(header: Header, reserved: seq<Entry>, harvest: Harvest)

  function StringsOf(mem: Bytes, dtb: nat, h: Header): (names: Names)
    requires dtb + h.offStrings + h.sizeStrings + NAME_SLACK <= |mem|
    ensures names.Valid()
  {
    var at := dtb + h.offStrings;
    Names(mem[at..at + h.sizeStrings + NAME_SLACK], h.sizeStrings)
  }

  function StructOf(mem: Bytes, dtb: nat, h: Header): Bytes
    requires dtb + h.offStruct + h.sizeStruct <= |mem|
  {
    mem[dtb + h.offStruct..dtb + h.offStruct + h.sizeStruct]
  }

  function ReservedTable(mem: Bytes, dtb: nat, h: Header): Bytes
    requires h.offReserved <= h.totalSize && dtb + h.totalSize <= |mem|
  {
    mem[dtb + h.offReserved..dtb + h.totalSize]
  }

  /** The verdict on the header alone. */
  ghost function HeaderVerdict(mem: Bytes, dtb: nat): Result<Header>
    requires Readable(mem, dtb)
  {
    if dtb == 0 then Panicked(NullBlob)
    else if Be32(mem, dtb) != FDT_MAGIC then Panicked(BadMagic)
    else if Be32(mem, dtb + 4) < HEADER_BYTES then Panicked(TotalSizeTooSmall)
    else
      match BoundsFault(HeaderAt(mem, dtb))
      case Some(why) => Panicked(why)
      case None => Ok(HeaderAt(mem, dtb))
  }

  /** The verdict on the blob at address `dtb`, and what is learnt from it. */
  ghost function Parse(mem: Bytes, dtb: nat): Result<Hardware>
    requires Readable(mem, dtb)
  {
    var h :- HeaderVerdict(mem, dtb);
    Combine(h, Reserved(ReservedTable(mem, dtb, h)),
            Verdict(StructOf(mem, dtb, h), dtb + h.offStruct, StringsOf(mem, dtb, h)))
  }

  /** The first fault, in the order of the blocks, or everything that was learnt. */
  function Combine(h: Header, reserved: Result<seq<Entry>>, harvest: Result<Harvest>): Result<Hardware> {
    var es :- reserved;
    var v :- harvest;
    Ok(Hardware(h, es, v))
  }

  lemma ParsesAs(mem: Bytes, dtb: nat, h: Header, reserved: Result<seq<Entry>>, harvest: Result<Harvest>)
    requires Readable(mem, dtb) && HeaderVerdict(mem, dtb) == Ok(h)
    requires Reserved(ReservedTable(mem, dtb, h)) == reserved
    requires Verdict(StructOf(mem, dtb, h), dtb + h.offStruct, StringsOf(mem, dtb, h)) == harvest
    ensures Parse(mem, dtb) == Combine(h, reserved, harvest)
  {
  }

  /** The same outcome for a blob with another header. */
  function WithHeader(r: Result<Hardware>, h: Header): Result<Hardware> {
    if r.Ok? then Ok(r.value.(header := h)) else r
  }

  /** What the parser sees of a blob with an acceptable header. */
  ghost predicate Shows(mem: Bytes, dtb: nat, h: Header, reserved: Result<seq<Entry>>, block: Bytes, names: Names) {
    && Readable(mem, dtb) && HeaderVerdict(mem, dtb) == Ok(h)
    && Reserved(ReservedTable(mem, dtb, h)) == reserved
    && StructOf(mem, dtb, h) == block && StringsOf(mem, dtb, h) == names
  }

  // ---- The reservation block ----

  lemma EntriesTail(table: Bytes)
    requires 16 <= |table|
    ensures Entries(table[16..]) == Entries(table)[1..]
  {
    var tail := table[16..];
    assert tail == table[16..|table|];
    forall k | 0 <= k < |tail| / 16
      ensures EntryAt(tail, k) == EntryAt(table, k + 1)
    {
      Be64Slice(table, 16, |table|, 16 * k);
      Be64Slice(table, 16, |table|, 16 * k + 8);
    }
  }

  /** An entry's bytes, and the entry they read as, determine each other. */
  lemma EntryBytes(table: Bytes, e: Entry)
    requires 16 <= |table|
    ensures Enc64(e.base) + Enc64(e.size) == table[..16] <==> EntryAt(table, 0) == e
  {
    EncOfBe(table[0..8]);
    EncOfBe(table[8..16]);
    var s := Enc64(e.base) + Enc64(e.size);
    assert s[0..8] == Enc64(e.base) && s[8..16] == Enc64(e.size);
    assert Enc64(e.base)[0..8] == Enc64(e.base) && Enc64(e.size)[0..8] == Enc64(e.size);
    assert table[..16] == table[0..8] + table[8..16];
    assert table[..16][0..8] == table[0..8] && table[..16][8..16] == table[8..16];
  }

  /** A table begins with the encoding of a list exactly when it begins with the entries of the list. */
  lemma {:induction false} EncodedPrefix(table: Bytes, es: seq<Entry>)
    ensures EncodeEntries(es) <= table <==> es <= Entries(table)
    decreases |es|
  {
    if es != [] && |table| >= 16 {
      EncodedPrefix(table[16..], es[1..]);
      EntriesTail(table);
      EntryBytes(table, es[0]);
      PrefixCons(Enc64(es[0].base) + Enc64(es[0].size), EncodeEntries(es[1..]), table);
      PrefixCons([es[0]], es[1..], Entries(table));
      assert [es[0]] + es[1..] == es;
      assert Entries(table)[..1] == [Entries(table)[0]];
    }
  }

  lemma PrefixCons<T>(head: seq<T>, tail: seq<T>, s: seq<T>)
    requires |head| <= |s|
    ensures head + tail <= s <==> head == s[..|head|] && tail <= s[|head|..]
  {
    assert s == s[..|head|] + s[|head|..];
    if head + tail <= s {
      assert s[..|head + tail|][..|head|] == head;
      assert s[..|head + tail|][|head|..] == s[|head|..][..|tail|];
    }
  }

  /** The entries before the first (0, 0) are a list without (0, 0) that the table starts with, followed by
      (0, 0). */
  lemma FirstZeroIs(all: seq<Entry>, es: seq<Entry>)
    ensures FirstZero(all) < |all| && all[..FirstZero(all)] == es <==> ZERO_ENTRY !in es && es + [ZERO_ENTRY] <= all
  {
    var z := FirstZero(all);
    if z < |all| && all[..z] == es {
      assert es + [ZERO_ENTRY] == all[..z + 1];
    }
    if ZERO_ENTRY !in es && es + [ZERO_ENTRY] <= all {
      assert all[|es|] == ZERO_ENTRY && forall k :: 0 <= k < |es| ==> all[k] == es[k];
    }
  }

  /** A list is read exactly when its block, terminator included, begins the table, no entry of it is
      (0, 0), and it has at most 254 entries. */
  lemma ReservedMeaning(table: Bytes, es: seq<Entry>)
    ensures Reserved(table) == Ok(es) <==>
      |es| <= 254 && Entry(0, 0) !in es && ReservationBlock(es) <= table
  {
    EncodedPrefix(table, es + [ZERO_ENTRY]);
    FirstZeroIs(Entries(table), es);
  }
}
