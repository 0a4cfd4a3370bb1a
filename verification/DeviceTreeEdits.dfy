/**
 Edits of a whole blob that parsing cannot see: its structure block is edited, and its header adjusted.
 */
module DeviceTreeEdits {
  import opened Words
  import opened Strings
  import opened Panic
  import opened TokenCut
  import opened DeviceTreeTokens
  import opened DeviceTreeFold
  import opened DeviceTreeInvariance
  import opened DeviceTreeBlob
  import opened DeviceTreeRoundTrip

  /** Blobs with the same reservations, whose structure blocks have the same verdict, parse the same, but for
      the header. */
  lemma AlikeShown(mem: Bytes, dtb: nat, h: Header, mem': Bytes, dtb': nat, h': Header, reserved: Result<seq<Entry>>,
                   block: Bytes, block': Bytes, names: Names, names': Names, v: Result<Harvest>)
    requires names.Valid() && names'.Valid()
    requires v == Verdict(block, dtb + h.offStruct, names) == Verdict(block', dtb' + h'.offStruct, names')
    ensures Shows(mem, dtb, h, reserved, block, names) && Shows(mem', dtb', h', reserved, block', names')
      ==> Parse(mem', dtb') == WithHeader(Parse(mem, dtb), h')
  {
    if Shows(mem, dtb, h, reserved, block, names) && Shows(mem', dtb', h', reserved, block', names') {
      ParsesAs(mem, dtb, h, reserved, v);
      ParsesAs(mem', dtb', h', reserved, v);
    }
  }

  /** With an FDT_NOP between any two tokens of the structure block, and the header adjusted, a blob parses
      as before: accepted with the same data, or rejected for the same reason. */
  lemma NopInBlob(mem: Bytes, dtb: nat, h: Header, mem': Bytes, dtb': nat, h': Header, reserved: Result<seq<Entry>>,
                  block: Bytes, block': Bytes, names: Names, at: nat)
    requires names.Valid() && (dtb + h.offStruct) % 4 == (dtb' + h'.offStruct) % 4
    requires Boundary(TokenScanner(names), block, dtb + h.offStruct, at)
    requires at <= |block| && block' == Insert(block, at, NOP_BYTES)
    ensures Shows(mem, dtb, h, reserved, block, names) && Shows(mem', dtb', h', reserved, block', names)
      ==> Parse(mem', dtb') == WithHeader(Parse(mem, dtb), h')
  {
    NopIsInvisible(block, dtb + h.offStruct, names, at);
    VerdictPhase(block', dtb + h.offStruct, dtb' + h'.offStruct, names);
    AlikeShown(mem, dtb, h, mem', dtb', h', reserved, block, block', names, names,
               Verdict(block, dtb + h.offStruct, names));
  }

  /** FDT_END is reached in the block, and up to it the other block has the same bytes. */
  ghost predicate SameUpToEnd(block: Bytes, block': Bytes, a: nat, names: Names)
    requires names.Valid()
  {
    && Closed(Tokens(block, a, names))
    && var n := Consumed(TokenScanner(names), block, a);
    n <= |block| && n <= |block'| && block'[..n] == block[..n]
  }

  /** With other bytes after FDT_END, more or fewer, and the header adjusted, a blob parses as before. */
  lemma TailOfBlob(mem: Bytes, dtb: nat, h: Header, mem': Bytes, dtb': nat, h': Header, reserved: Result<seq<Entry>>,
                   block: Bytes, block': Bytes, names: Names)
    requires names.Valid() && (dtb + h.offStruct) % 4 == (dtb' + h'.offStruct) % 4
    requires SameUpToEnd(block, block', dtb + h.offStruct, names)
    ensures Shows(mem, dtb, h, reserved, block, names) && Shows(mem', dtb', h', reserved, block', names)
      ==> Parse(mem', dtb') == WithHeader(Parse(mem, dtb), h')
  {
    TailIsInvisibleToTheWalk(block, block', dtb + h.offStruct, names);
    VerdictPhase(block', dtb + h.offStruct, dtb' + h'.offStruct, names);
    AlikeShown(mem, dtb, h, mem', dtb', h', reserved, block, block', names, names,
               Verdict(block, dtb + h.offStruct, names));
  }

  // ---- What follows the strings block ----

  /** The same names at the same offsets, whatever the bytes behind them. */
  ghost predicate SameNames(names: Names, names': Names) {
    && names.Valid() && names'.Valid() && names.size == names'.size
    && forall o: nat :: o < names.size ==> names.At(o) == names'.At(o)
  }

  lemma {:induction false} TokensOfSameNames(block: Bytes, a: nat, names: Names, names': Names)
    requires SameNames(names, names')
    ensures Tokens(block, a, names) == Tokens(block, a, names')
    decreases |block|
  {
    if |block| >= 4 {
      var p := NextPiece(block, a, names);
      assert NextPiece(block, a, names') == p;
      if !p.token.Stops() {
        TokensOfSameNames(block[p.size..], a + p.size, names, names');
      }
    }
  }

  /** The strings block ends with a terminator, or is empty. */
  predicate Ended(strings: Bytes) {
    strings == [] || strings[|strings| - 1] == 0
  }

  /** The names of a strings block, with the bytes that follow it. */
  function NamesWith(strings: Bytes, slack: Bytes): (names: Names)
    requires |slack| == NAME_SLACK
    ensures names.Valid()
  {
    Names(strings + slack, |strings|)
  }

  lemma NameEndsInside(strings: Bytes, slack: Bytes, o: nat)
    requires Ended(strings) && o < |strings|
    ensures CString((strings + slack)[o..]) == CString(strings[o..])
  {
    var short, long := strings[o..], (strings + slack)[o..];
    var n := NulAt(short, 0);
    assert short[|short| - 1] == 0;
    assert forall k :: 0 <= k < |short| ==> long[k] == short[k];
    assert NulAt(long, 0) == n;
    assert long[..n] == short[..n];
  }

  /** Behind an ended strings block, the bytes do not matter. */
  lemma SlackIsInvisible(strings: Bytes, slack: Bytes, slack': Bytes)
    requires Ended(strings) && |slack| == NAME_SLACK && |slack'| == NAME_SLACK
    ensures SameNames(NamesWith(strings, slack), NamesWith(strings, slack'))
  {
    forall o: nat | o < |strings|
      ensures NamesWith(strings, slack).At(o) == NamesWith(strings, slack').At(o)
    {
      NameEndsInside(strings, slack, o);
      NameEndsInside(strings, slack', o);
    }
  }

  // ---- Blobs assembled from their parts ----

  /** The parts of a blob. */
  datatype Parts = Parts(misc: Misc, reserved: seq<Entry>, struct: Bytes, strings: Bytes)
  {
    ghost predicate Fit() {
      && |reserved| < MAX_RESERVED && ZERO_ENTRY !in reserved
      && HEADER_BYTES + |ReservationBlock(reserved)| + |struct| + |strings| < 0x1_0000_0000
    }

    ghost function Header(): Header
      requires Fit()
    {
      HeaderFor(misc, |ReservationBlock(reserved)|, |struct|, |strings|)
    }

    ghost function Blob(): Bytes
      requires Fit()
    {
      Assemble(misc, ReservationBlock(reserved), struct, strings)
    }
  }

  lemma SlackFollows(mem: Bytes, at: nat, strings: Bytes, slack: Bytes)
    requires at + |strings| + NAME_SLACK <= |mem| && mem[at..at + |strings|] == strings
    requires slack == mem[at + |strings|..at + |strings| + NAME_SLACK]
    ensures mem[at..at + |strings| + NAME_SLACK] == strings + slack
  {
  }

  lemma SeenShows(mem: Bytes, dtb: nat, h: Header, reserved: seq<Entry>, rsv: Bytes, struct: Bytes, strings: Bytes,
                  slack: Bytes)
    requires |reserved| < MAX_RESERVED && ZERO_ENTRY !in reserved && rsv == ReservationBlock(reserved)
    requires Seen(mem, dtb, h, rsv, struct, strings) && |slack| == NAME_SLACK
    requires var end := dtb + h.offStrings + |strings|;
      h.sizeStrings == |strings| && end + NAME_SLACK <= |mem| && slack == mem[end..end + NAME_SLACK]
    ensures Shows(mem, dtb, h, Ok(reserved), struct, NamesWith(strings, slack))
  {
    ReservedMeaning(ReservedTable(mem, dtb, h), reserved);
    SlackFollows(mem, dtb + h.offStrings, strings, slack);
  }

  /** The bytes that follow a blob of these parts. */
  ghost function SlackAfter(p: Parts, mem: Bytes, dtb: nat): (slack: Bytes)
    requires p.Fit() && dtb + |p.Blob()| + NAME_SLACK <= |mem|
    ensures |slack| == NAME_SLACK
  {
    mem[dtb + |p.Blob()|..dtb + |p.Blob()| + NAME_SLACK]
  }

  /** An assembled blob shows its parts. */
  lemma AssembledShows(p: Parts, mem: Bytes, dtb: nat, slack: Bytes)
    requires p.Fit() && |slack| == NAME_SLACK
    ensures Placed(mem, dtb, p.Blob()) && slack == SlackAfter(p, mem, dtb)
      ==> Shows(mem, dtb, p.Header(), Ok(p.reserved), p.struct, NamesWith(p.strings, slack))
  {
    if Placed(mem, dtb, p.Blob()) && slack == SlackAfter(p, mem, dtb) {
      BlocksSeen(p.misc, ReservationBlock(p.reserved), p.struct, p.strings, mem, dtb);
      SeenShows(mem, dtb, p.Header(), p.reserved, ReservationBlock(p.reserved), p.struct, p.strings, slack);
    }
  }

  /** The verdicts before and after the insertion. */
  lemma NopVerdict(block: Bytes, block': Bytes, strings: Bytes, slack: Bytes, slack': Bytes, a: nat, a': nat, at: nat)
    requires |slack| == NAME_SLACK && |slack'| == NAME_SLACK && (Ended(strings) || slack == slack') && a % 4 == a' % 4
    requires Boundary(TokenScanner(NamesWith(strings, slack)), block, a, at)
    requires at <= |block| && block' == Insert(block, at, NOP_BYTES)
    ensures Verdict(block', a', NamesWith(strings, slack')) == Verdict(block, a, NamesWith(strings, slack))
  {
    NopIsInvisible(block, a, NamesWith(strings, slack), at);
    VerdictPhase(block', a, a', NamesWith(strings, slack));
    if Ended(strings) {
      SlackIsInvisible(strings, slack, slack');
      TokensOfSameNames(block', a', NamesWith(strings, slack), NamesWith(strings, slack'));
    }
  }

  /** The second parts are the first with an FDT_NOP between two tokens. */
  ghost predicate NopAdded(p: Parts, p': Parts, dtb: nat, slack: Bytes, at: nat)
    requires p.Fit() && |slack| == NAME_SLACK
  {
    && Boundary(TokenScanner(NamesWith(p.strings, slack)), p.struct, dtb + p.Header().offStruct, at)
    && at <= |p.struct| && p' == p.(struct := Insert(p.struct, at, NOP_BYTES))
  }

  /** An FDT_NOP inserted into an assembled blob, with every offset and size adjusted, changes nothing but
      those. What follows the two blobs in memory may differ if the strings block ends with a terminator. */
  lemma NopInAssembled(p: Parts, p': Parts, at: nat, mem: Bytes, dtb: nat, slack: Bytes,
                       mem': Bytes, dtb': nat, slack': Bytes)
    requires p.Fit() && p'.Fit() && Placed(mem, dtb, p.Blob()) && Placed(mem', dtb', p'.Blob())
    requires slack == SlackAfter(p, mem, dtb) && slack' == SlackAfter(p', mem', dtb')
    requires NopAdded(p, p', dtb, slack, at) && (Ended(p.strings) || slack == slack')
    ensures Readable(mem, dtb) && Readable(mem', dtb')
    ensures Parse(mem', dtb') == WithHeader(Parse(mem, dtb), p'.Header())
  {
    var h, h' := p.Header(), p'.Header();
    SameOffset(dtb, dtb', h, h');
    NopVerdict(p.struct, p'.struct, p.strings, slack, slack', dtb + h.offStruct, dtb' + h'.offStruct, at);
    AlikeShown(mem, dtb, h, mem', dtb', h', Ok(p.reserved), p.struct, p'.struct, NamesWith(p.strings, slack),
               NamesWith(p.strings, slack'), Verdict(p.struct, dtb + h.offStruct, NamesWith(p.strings, slack)));
    AssembledShows(p, mem, dtb, slack);
    AssembledShows(p', mem', dtb', slack');
  }

  lemma SameOffset(dtb: nat, dtb': nat, h: Header, h': Header)
    requires dtb % 4 == 0 && dtb' % 4 == 0 && h.offStruct == h'.offStruct
    ensures (dtb + h.offStruct) % 4 == (dtb' + h'.offStruct) % 4
  {
  }
}
