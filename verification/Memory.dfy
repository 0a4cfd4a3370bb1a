/**
 Decoding of the `reg` property of a memory node (kernel/Memory/Memory.c).
 */
module Memory {
  import opened Words
  import opened Endian
  import opened Panic

  const MAX_REGIONS := 16

  datatype Region = Region(base: U64, size: U64)
  {
    /** A region the decoder accepts: not empty, and inside the 64-bit address space. */
    predicate Valid() {
      0 < size && base + size < TWO_64
    }
  }

  predicate OneOrTwo(cells: nat) {
    cells == 1 || cells == 2
  }

  /** Bytes of one region: an address of ac cells and a size of sc cells. */
  function RegionBytes(ac: nat, sc: nat): nat {
    4 * (ac + sc)
  }

  /** A value of one or two cells. */
  function CellsAt(cells: nat, s: Bytes, at: nat): U64
    requires OneOrTwo(cells) && at + 4 * cells <= |s|
  {
    if cells == 2 then Be64(s, at) else Be32(s, at)
  }

  /** The region written in exactly one region's bytes. */
  function RegionOf(ac: nat, sc: nat, spec: Bytes): Region
    requires OneOrTwo(ac) && OneOrTwo(sc) && |spec| == RegionBytes(ac, sc)
  {
    Region(CellsAt(ac, spec, 0), CellsAt(sc, spec, 4 * ac))
  }

  /** The regions written in a list of equal pieces. */
  function RegionsOf(ac: nat, sc: nat, pieces: seq<Bytes>): (rs: seq<Region>)
    requires OneOrTwo(ac) && OneOrTwo(sc) && AllOfSize(pieces, RegionBytes(ac, sc))
    ensures |rs| == |pieces|
    ensures forall k :: 0 <= k < |pieces| ==> rs[k] == RegionOf(ac, sc, pieces[k])
  {
    seq(|pieces|, k requires 0 <= k < |pieces| => RegionOf(ac, sc, pieces[k]))
  }

  /** What is wrong with the first unacceptable region, if there is one. */
  function FirstFault(rs: seq<Region>): Option<Reason> {
    if rs == [] then None
    else if rs[0].size == 0 then Some(ZeroSizeRegion)
    else if TWO_64 - 1 - rs[0].size < rs[0].base then Some(RegionOverflow)
    else FirstFault(rs[1..])
  }

  /** The verdict on a whole `reg` value. */
  function DecodeReg(ac: U32, sc: U32, reg: Bytes): Result<seq<Region>> {
    if ac > |reg| || sc > |reg| then Panicked(CellsLargerThanReg)
    else if ac < 1 || sc < 1 || |reg| < 1 then Panicked(ZeroCellsOrReg)
    else if ac > 2 || sc > 2 then Panicked(TooManyCells)
    else if Leftover(|reg|, RegionBytes(ac, sc)) != 0 then Panicked(RegNotMultiple)
    else if |Chunks(reg, RegionBytes(ac, sc))| > MAX_REGIONS then Panicked(TooManyRegions)
    else
      var rs := RegionsOf(ac, sc, Chunks(reg, RegionBytes(ac, sc)));
      match FirstFault(rs)
      case Some(why) => Panicked(why)
      case None => Ok(rs)
  }

  // ---- Cutting bytes into equal pieces ----

  ghost predicate AllOfSize(pieces: seq<Bytes>, size: nat) {
    forall k :: 0 <= k < |pieces| ==> |pieces[k]| == size
  }

  function Chunks(s: Bytes, size: nat): (pieces: seq<Bytes>)
    requires size > 0
    ensures AllOfSize(pieces, size)
  {
    if |s| < size then [] else [s[..size]] + Chunks(s[size..], size)
  }

  function Concat(pieces: seq<Bytes>): Bytes {
    if pieces == [] then [] else pieces[0] + Concat(pieces[1..])
  }

  /** The number of pieces and what they leave over are the quotient and the remainder. */
  lemma {:induction false} ChunksDivide(s: Bytes, size: nat)
    requires size > 0
    ensures |s| == Times(|Chunks(s, size)|, size) + Leftover(|s|, size)
    ensures Leftover(|s|, size) == |s| % size && |Chunks(s, size)| == |s| / size
    decreases |s|
  {
    LeftoverIsRemainder(|s|, size);
    if |s| >= size {
      ChunksDivide(s[size..], size);
    }
    TimesIsProduct(|Chunks(s, size)|, size);
    ModUnique(|s|, size, |Chunks(s, size)|, Leftover(|s|, size));
  }

  lemma {:induction false} ConcatChunks(s: Bytes, size: nat, n: nat)
    requires size > 0 && |s| == Times(n, size)
    ensures Concat(Chunks(s, size)) == s && |Chunks(s, size)| == n
  {
    if n > 0 {
      ConcatChunks(s[size..], size, n - 1);
      assert Chunks(s, size)[1..] == Chunks(s[size..], size);
      assert s == s[..size] + s[size..];
    }
  }

  lemma {:induction false} ChunksConcat(pieces: seq<Bytes>, size: nat)
    requires size > 0 && AllOfSize(pieces, size)
    ensures Chunks(Concat(pieces), size) == pieces
    ensures |Concat(pieces)| == Times(|pieces|, size)
  {
    if pieces != [] {
      assert AllOfSize(pieces[1..], size);
      ChunksConcat(pieces[1..], size);
      var s := Concat(pieces);
      assert s[..size] == pieces[0] && s[size..] == Concat(pieces[1..]);
    }
  }

  predicate HasPiece(s: Bytes, size: nat, k: nat) {
    Times(k, size) + size <= |s|
  }

  /** The piece that starts k lengths into the bytes. */
  function PieceOf(s: Bytes, size: nat, k: nat): (piece: Bytes)
    requires HasPiece(s, size, k)
    ensures |piece| == size
  {
    s[Times(k, size)..Times(k, size) + size]
  }

  lemma {:induction false} ChunkAt(s: Bytes, size: nat, n: nat, k: nat)
    requires size > 0 && |s| == Times(n, size) && k < n
    ensures |Chunks(s, size)| == n
    ensures HasPiece(s, size, k) && Chunks(s, size)[k] == PieceOf(s, size, k)
  {
    ConcatChunks(s, size, n);
    if k > 0 {
      ChunkAt(s[size..], size, n - 1, k - 1);
      var at := Times(k - 1, size);
      assert s[size..][at..at + size] == s[size + at..size + at + size];
    }
  }

  // ---- The encoding the decoder inverts ----

  predicate FitsCells(cells: nat, v: U64) {
    cells == 2 || (cells == 1 && v < 0x1_0000_0000)
  }

  function EncCells(cells: nat, v: U64): (s: Bytes)
    requires FitsCells(cells, v)
    ensures |s| == 4 * cells
    ensures CellsAt(cells, s, 0) == v
  {
    if cells == 2 then Enc64(v) else Enc32(v)
  }

  predicate Encodable(ac: nat, sc: nat, r: Region) {
    FitsCells(ac, r.base) && FitsCells(sc, r.size)
  }

  function EncRegion(ac: nat, sc: nat, r: Region): (s: Bytes)
    requires OneOrTwo(ac) && OneOrTwo(sc) && Encodable(ac, sc, r)
    ensures |s| == RegionBytes(ac, sc)
  {
    EncCells(ac, r.base) + EncCells(sc, r.size)
  }

  function EncPieces(ac: nat, sc: nat, rs: seq<Region>): (pieces: seq<Bytes>)
    requires OneOrTwo(ac) && OneOrTwo(sc)
    requires forall k :: 0 <= k < |rs| ==> Encodable(ac, sc, rs[k])
    ensures |pieces| == |rs| && AllOfSize(pieces, RegionBytes(ac, sc))
    ensures forall k :: 0 <= k < |rs| ==> pieces[k] == EncRegion(ac, sc, rs[k])
  {
    seq(|rs|, k requires 0 <= k < |rs| => EncRegion(ac, sc, rs[k]))
  }

  /** The `reg` value that lists these regions. */
  function EncodeReg(ac: nat, sc: nat, rs: seq<Region>): Bytes
    requires OneOrTwo(ac) && OneOrTwo(sc)
    requires forall k :: 0 <= k < |rs| ==> Encodable(ac, sc, rs[k])
  {
    Concat(EncPieces(ac, sc, rs))
  }

  /** Bytes of cells re-encode to themselves. */
  lemma CellsUnique(cells: nat, s: Bytes, at: nat)
    requires OneOrTwo(cells) && at + 4 * cells <= |s|
    ensures FitsCells(cells, CellsAt(cells, s, at))
    ensures EncCells(cells, CellsAt(cells, s, at)) == s[at..at + 4 * cells]
  {
    EncOfBe(s[at..at + 4 * cells]);
  }

  lemma EncOfRegion(ac: nat, sc: nat, spec: Bytes)
    requires OneOrTwo(ac) && OneOrTwo(sc) && |spec| == RegionBytes(ac, sc)
    ensures Encodable(ac, sc, RegionOf(ac, sc, spec))
    ensures EncRegion(ac, sc, RegionOf(ac, sc, spec)) == spec
  {
    CellsUnique(ac, spec, 0);
    CellsUnique(sc, spec, 4 * ac);
    TwoParts(spec, 4 * ac, 4 * ac + 4 * sc);
  }

  lemma TwoParts(s: Bytes, k: nat, n: nat)
    requires k <= n == |s|
    ensures s == s[0..k] + s[k..n]
  {
  }

  lemma RegionOfEnc(ac: nat, sc: nat, r: Region)
    requires OneOrTwo(ac) && OneOrTwo(sc) && Encodable(ac, sc, r)
    ensures RegionOf(ac, sc, EncRegion(ac, sc, r)) == r
  {
    CellsJoined(ac, EncCells(ac, r.base), sc, EncCells(sc, r.size));
  }

  lemma CellsJoined(ac: nat, a: Bytes, sc: nat, b: Bytes)
    requires OneOrTwo(ac) && OneOrTwo(sc) && |a| == 4 * ac && |b| == 4 * sc
    ensures CellsAt(ac, a + b, 0) == CellsAt(ac, a, 0) && CellsAt(sc, a + b, 4 * ac) == CellsAt(sc, b, 0)
  {
    var s := a + b;
    assert s[0..|a|] == a && s[|a|..|s|] == b;
    CellsSlice(ac, s, 0, |a|, 0);
    CellsSlice(sc, s, |a|, |s|, |a|);
  }

  lemma CellsSlice(cells: nat, s: Bytes, lo: nat, hi: nat, at: nat)
    requires OneOrTwo(cells) && lo <= at && at + 4 * cells <= hi <= |s|
    ensures CellsAt(cells, s[lo..hi], at - lo) == CellsAt(cells, s, at)
  {
    if cells == 2 {
      Be64Slice(s, lo, hi, at - lo);
    } else {
      Be32Slice(s, lo, hi, at - lo);
    }
  }

  ghost predicate AllValid(rs: seq<Region>) {
    forall k :: 0 <= k < |rs| ==> rs[k].Valid()
  }

  lemma {:induction false} NoFaultIsAllValid(rs: seq<Region>)
    ensures FirstFault(rs) == None <==> AllValid(rs)
  {
    if rs != [] {
      NoFaultIsAllValid(rs[1..]);
      assert rs == [rs[0]] + rs[1..];
    }
  }

  /** A region list the decoder can return for these cell counts. */
  ghost predicate Representable(ac: nat, sc: nat, rs: seq<Region>) {
    && OneOrTwo(ac) && OneOrTwo(sc)
    && 1 <= |rs| <= MAX_REGIONS
    && AllValid(rs)
    && forall k :: 0 <= k < |rs| ==> Encodable(ac, sc, rs[k])
  }

  /** The decoder is the inverse of the encoder: it returns a list exactly for that list's encoding,
      so it accepts exactly the encodings of representable lists. */
  lemma DecodeInvertsEncode(ac: U32, sc: U32, reg: Bytes, rs: seq<Region>)
    ensures DecodeReg(ac, sc, reg) == Ok(rs) <==> Representable(ac, sc, rs) && reg == EncodeReg(ac, sc, rs)
  {
    if DecodeReg(ac, sc, reg) == Ok(rs) {
      DecodedIsEncoding(ac, sc, reg, rs);
    }
    if Representable(ac, sc, rs) && reg == EncodeReg(ac, sc, rs) {
      EncodingDecodes(ac, sc, rs);
    }
  }

  lemma DecodedIsEncoding(ac: U32, sc: U32, reg: Bytes, rs: seq<Region>)
    requires DecodeReg(ac, sc, reg) == Ok(rs)
    ensures Representable(ac, sc, rs) && reg == EncodeReg(ac, sc, rs)
  {
    var size := RegionBytes(ac, sc);
    var pieces := Chunks(reg, size);
    ChunksDivide(reg, size);
    ConcatChunks(reg, size, |pieces|);
    NoFaultIsAllValid(rs);
    forall k | 0 <= k < |rs|
      ensures Encodable(ac, sc, rs[k]) && EncRegion(ac, sc, rs[k]) == pieces[k]
    {
      EncOfRegion(ac, sc, pieces[k]);
    }
    assert EncPieces(ac, sc, rs) == pieces;
  }

  lemma EncodingDecodes(ac: U32, sc: U32, rs: seq<Region>)
    requires Representable(ac, sc, rs)
    ensures DecodeReg(ac, sc, EncodeReg(ac, sc, rs)) == Ok(rs)
  {
    var size := RegionBytes(ac, sc);
    var pieces := EncPieces(ac, sc, rs);
    ChunksConcat(pieces, size);
    ChunksDivide(EncodeReg(ac, sc, rs), size);
    assert Times(|rs|, size) >= size;
    forall k | 0 <= k < |rs|
      ensures RegionOf(ac, sc, pieces[k]) == rs[k]
    {
      RegionOfEnc(ac, sc, rs[k]);
    }
    assert RegionsOf(ac, sc, pieces) == rs;
    NoFaultIsAllValid(rs);
  }

  /** A region that is not empty and whose end is at most 2^64 - 1. */
  predicate Fine(r: Region) {
    0 < r.size && r.base as int + r.size as int <= 0xFFFF_FFFF_FFFF_FFFF
  }

  /** 1 to 16 whole regions of one or two cells each way. */
  predicate Whole(ac: nat, sc: nat, reg: Bytes) {
    && 1 <= ac <= 2 && 1 <= sc <= 2
    && |reg| % (4 * (ac + sc)) == 0 && 1 <= |reg| / (4 * (ac + sc)) <= 16
  }

  /** The decoder accepts exactly when both cell counts are one or two, the bytes are 1 to 16 whole
      regions, and every region is fine; it then reports each region from its own place. */
  lemma DecodeAcceptance(ac: U32, sc: U32, reg: Bytes)
    ensures DecodeReg(ac, sc, reg).Ok? <==>
      Whole(ac, sc, reg) && forall k :: 0 <= k < |RegionsIn(ac, sc, reg)| ==> Fine(RegionsIn(ac, sc, reg)[k])
    ensures DecodeReg(ac, sc, reg).Ok? ==> DecodeReg(ac, sc, reg).value == RegionsIn(ac, sc, reg)
  {
    if OneOrTwo(ac) && OneOrTwo(sc) {
      ChunksDivide(reg, RegionBytes(ac, sc));
    }
    if Whole(ac, sc, reg) {
      NoFaultIsAllValid(RegionsIn(ac, sc, reg));
    }
  }

  /** The regions written in whole bytes, each at its own place. */
  function RegionsIn(ac: nat, sc: nat, reg: Bytes): (rs: seq<Region>)
    requires Whole(ac, sc, reg)
    ensures |rs| == |reg| / (4 * (ac + sc)) && forall k: nat :: k < |rs| ==> InPlace(ac, sc, reg, k, rs[k])
  {
    ChunksDivide(reg, RegionBytes(ac, sc));
    AllInPlace(ac, sc, reg, |reg| / RegionBytes(ac, sc));
    RegionsOf(ac, sc, Chunks(reg, RegionBytes(ac, sc)))
  }

  /** Bytes that are no 1 to 16 whole regions are rejected, for reasons in this order. */
  lemma SizeFaults(ac: U32, sc: U32, reg: Bytes)
    ensures var r := DecodeReg(ac, sc, reg);
      && (r == Panicked(CellsLargerThanReg) <==> ac > |reg| || sc > |reg|)
      && (r == Panicked(ZeroCellsOrReg) <==> ac <= |reg| && sc <= |reg| && (ac == 0 || sc == 0))
      && (r == Panicked(TooManyCells) <==> 1 <= ac <= |reg| && 1 <= sc <= |reg| && (ac > 2 || sc > 2))
      && (r == Panicked(RegNotMultiple) <==>
           1 <= ac <= |reg| && 1 <= sc <= |reg| && ac <= 2 && sc <= 2 && |reg| % (4 * (ac + sc)) != 0)
      && (r == Panicked(TooManyRegions) <==>
           1 <= ac <= 2 && 1 <= sc <= 2 && |reg| % (4 * (ac + sc)) == 0 && |reg| / (4 * (ac + sc)) > 16)
  {
    if OneOrTwo(ac) && OneOrTwo(sc) {
      ChunksDivide(reg, RegionBytes(ac, sc));
      FaultsOfRegions(RegionsOf(ac, sc, Chunks(reg, RegionBytes(ac, sc))));
    }
  }

  lemma {:induction false} FaultsOfRegions(rs: seq<Region>)
    ensures FirstFault(rs) in {None, Some(ZeroSizeRegion), Some(RegionOverflow)}
  {
    if rs != [] {
      FaultsOfRegions(rs[1..]);
    }
  }

  /** The first region that is not fine, and whether it is empty or leaves the address space. */
  ghost predicate UnfineAt(rs: seq<Region>, k: nat, why: Reason) {
    && k < |rs| && !Fine(rs[k]) && (forall j :: 0 <= j < k ==> Fine(rs[j]))
    && why == if rs[k].size == 0 then ZeroSizeRegion else RegionOverflow
  }

  /** Of whole regions, the first that is not fine decides. */
  lemma RegionFaults(ac: U32, sc: U32, reg: Bytes, why: Reason)
    requires Whole(ac, sc, reg)
    ensures DecodeReg(ac, sc, reg) == Panicked(why) <==> exists k: nat :: UnfineAt(RegionsIn(ac, sc, reg), k, why)
  {
    WholeDecodes(ac, sc, reg, RegionsIn(ac, sc, reg));
    FirstFaultIs(RegionsIn(ac, sc, reg), why);
  }

  lemma WholeDecodes(ac: U32, sc: U32, reg: Bytes, rs: seq<Region>)
    requires Whole(ac, sc, reg) && rs == RegionsIn(ac, sc, reg)
    ensures DecodeReg(ac, sc, reg) == if FirstFault(rs) == None then Ok(rs) else Panicked(FirstFault(rs).value)
  {
    ChunksDivide(reg, RegionBytes(ac, sc));
  }

  lemma UnfineTail(rs: seq<Region>, k: nat, why: Reason)
    requires rs != [] && Fine(rs[0])
    ensures UnfineAt(rs, k + 1, why) <==> UnfineAt(rs[1..], k, why)
  {
    var tail := rs[1..];
    assert forall j :: 0 <= j < |tail| ==> tail[j] == rs[j + 1];
    assert forall j :: 1 <= j < |rs| ==> rs[j] == tail[j - 1];
  }

  lemma {:induction false} FirstFaultIs(rs: seq<Region>, why: Reason)
    ensures FirstFault(rs) == Some(why) <==> exists k: nat :: UnfineAt(rs, k, why)
  {
    if rs != [] && Fine(rs[0]) {
      FirstFaultIs(rs[1..], why);
      if k: nat :| UnfineAt(rs[1..], k, why) {
        UnfineTail(rs, k, why);
      }
      if k: nat :| UnfineAt(rs, k, why) {
        UnfineTail(rs, k - 1, why);
      }
    } else if rs != [] {
      assert FirstFault(rs) == Some(why) <==> UnfineAt(rs, 0, why);
    }
  }

  /** The reasons there are. */
  lemma DecodeReasons(ac: U32, sc: U32, reg: Bytes)
    ensures var r := DecodeReg(ac, sc, reg);
      r.Panicked? ==> r.reason in {CellsLargerThanReg, ZeroCellsOrReg, TooManyCells, RegNotMultiple, TooManyRegions,
                                   ZeroSizeRegion, RegionOverflow}
  {
    if OneOrTwo(ac) && OneOrTwo(sc) {
      FaultsOfRegions(RegionsOf(ac, sc, Chunks(reg, RegionBytes(ac, sc))));
    }
  }

  /** Region k is the one written k region lengths into the bytes. */
  ghost predicate InPlace(ac: nat, sc: nat, reg: Bytes, k: nat, r: Region)
    requires OneOrTwo(ac) && OneOrTwo(sc)
  {
    && HasPiece(reg, RegionBytes(ac, sc), k)
    && r == RegionOf(ac, sc, PieceOf(reg, RegionBytes(ac, sc), k))
  }

  lemma AllInPlace(ac: nat, sc: nat, reg: Bytes, n: nat)
    requires OneOrTwo(ac) && OneOrTwo(sc) && |reg| == Times(n, RegionBytes(ac, sc))
    ensures var rs := RegionsOf(ac, sc, Chunks(reg, RegionBytes(ac, sc)));
      |rs| == n && forall k: nat :: k < n ==> InPlace(ac, sc, reg, k, rs[k])
  {
    var pieces := Chunks(reg, RegionBytes(ac, sc));
    ConcatChunks(reg, RegionBytes(ac, sc), n);
    var rs := RegionsOf(ac, sc, pieces);
    forall k: nat | k < n
      ensures InPlace(ac, sc, reg, k, rs[k])
    {
      ChunkAt(reg, RegionBytes(ac, sc), n, k);
      assert rs[k] == RegionOf(ac, sc, pieces[k]);
    }
  }

  // ---- The source's loop ----

  method PhysicalMemoryRegions(outRegions: array<Region>, ac: U32, sc: U32,
                               mem: Bytes, regBytes: nat, regSize: nat)
    returns (r: Result<()>, count: nat)
    requires outRegions.Length == MAX_REGIONS
    requires regBytes + regSize <= |mem|
    modifies outRegions
    ensures match DecodeReg(ac, sc, mem[regBytes..regBytes + regSize])
      case Panicked(why) => r == Panicked(why)
      case Ok(rs) => r == Ok(()) && count == |rs| <= MAX_REGIONS && outRegions[..] == rs + old(outRegions[..])[count..]
  {
    count := 0;
    if ac > regSize || sc > regSize {
      return Panicked(CellsLargerThanReg), count;
    }
    if ac < 1 || sc < 1 || regSize < 1 {
      return Panicked(ZeroCellsOrReg), count;
    }
    if ac > 2 || sc > 2 {
      return Panicked(TooManyCells), count;
    }
    var sizeOfOneRegionSpec: nat := 4 * ((ac as int) + (sc as int));
    var numberOfRegions := regSize / sizeOfOneRegionSpec;
    ghost var reg := mem[regBytes..regBytes + regSize];
    ChunksDivide(reg, sizeOfOneRegionSpec);
    if regSize % sizeOfOneRegionSpec != 0 {
      return Panicked(RegNotMultiple), count;
    }
    if numberOfRegions > 16 {
      return Panicked(TooManyRegions), count;
    }
    count := numberOfRegions;

    AllInPlace(ac, sc, reg, numberOfRegions);
    ghost var rs := RegionsOf(ac, sc, Chunks(reg, sizeOfOneRegionSpec));
    var fault := DecodeRegions(outRegions, ac, sc, mem, regBytes, regSize, numberOfRegions, rs);
    r := if fault.Some? then Panicked(fault.value) else Ok(());
  }

  /** The decoding loop, once the sizes are known to be acceptable. */
  method DecodeRegions(outRegions: array<Region>, ac: U32, sc: U32,
                       mem: Bytes, regBytes: nat, regSize: nat, numberOfRegions: nat, ghost rs: seq<Region>)
    returns (fault: Option<Reason>)
    requires OneOrTwo(ac) && OneOrTwo(sc) && regBytes + regSize <= |mem|
    requires |rs| == numberOfRegions <= outRegions.Length
    requires forall k: nat :: k < |rs| ==> InPlace(ac, sc, mem[regBytes..regBytes + regSize], k, rs[k])
    modifies outRegions
    ensures fault == FirstFault(rs)
    ensures fault == None ==> outRegions[..] == rs + old(outRegions[..])[|rs|..]
  {
    var regCursor := regBytes;
    for i := 0 to numberOfRegions
      invariant regCursor == regBytes + Times(i, RegionBytes(ac, sc))
      invariant FirstFault(rs) == FirstFault(rs[i..])
      invariant forall k :: 0 <= k < i ==> outRegions[k] == rs[k]
      invariant forall k :: i <= k < outRegions.Length ==> outRegions[k] == old(outRegions[k])
    {
      var base, size;
      base, size, regCursor := ReadRegion(ac, sc, mem, regCursor, regBytes, regSize, i, rs[i]);
      assert rs[i..][0] == rs[i] && rs[i..][1..] == rs[i + 1..];
      if size == 0 {
        return Some(ZeroSizeRegion);
      }
      if TWO_64 - 1 - size < base {
        return Some(RegionOverflow);
      }
      // A 64-bit base and size always fit uintptr_t and size_t.
      outRegions[i] := Region(base, size);
    }
    fault := None;
  }

  /** The loop's reads: an address, then a size; two cells make a 64-bit value, one a 32-bit value. */
  method ReadRegion(ac: U32, sc: U32, mem: Bytes, cursor: nat,
                    ghost regBytes: nat, ghost regSize: nat, ghost k: nat, ghost r: Region)
    returns (base: U64, size: U64, next: nat)
    requires OneOrTwo(ac) && OneOrTwo(sc) && regBytes + regSize <= |mem|
    requires cursor == regBytes + Times(k, RegionBytes(ac, sc))
    requires InPlace(ac, sc, mem[regBytes..regBytes + regSize], k, r)
    ensures Region(base, size) == r
    ensures next == regBytes + Times(k + 1, RegionBytes(ac, sc))
  {
    ReadInPlace(ac, sc, mem, regBytes, regSize, k, r);
    TimesSplit(k, k + 1, RegionBytes(ac, sc));
    base := ReadCells(ac, mem, cursor);
    size := ReadCells(sc, mem, cursor + 4 * ac);
    next := cursor + 4 * ac + 4 * sc;
  }

  method ReadCells(cells: U32, mem: Bytes, cursor: nat) returns (v: U64)
    requires OneOrTwo(cells) && cursor + 4 * cells <= |mem|
    ensures v == CellsAt(cells, mem, cursor)
  {
    if cells == 2 {
      v := LoadBe64(mem, cursor);
    } else {
      v := LoadBe32(mem, cursor);
    }
  }

  /** A region read through the cursor is the region of its slice. */
  lemma ReadInPlace(ac: nat, sc: nat, mem: Bytes, regBytes: nat, regSize: nat, k: nat, r: Region)
    requires OneOrTwo(ac) && OneOrTwo(sc) && regBytes + regSize <= |mem|
    requires InPlace(ac, sc, mem[regBytes..regBytes + regSize], k, r)
    ensures var cursor := regBytes + Times(k, RegionBytes(ac, sc));
      && cursor + RegionBytes(ac, sc) <= regBytes + regSize
      && r == Region(CellsAt(ac, mem, cursor), CellsAt(sc, mem, cursor + 4 * ac))
  {
    var at, size := Times(k, RegionBytes(ac, sc)), RegionBytes(ac, sc);
    var cursor := regBytes + at;
    SliceOfSlice(mem, regBytes, regBytes + regSize, at, at + size);
    CellsSlice(ac, mem, cursor, cursor + size, cursor);
    CellsSlice(sc, mem, cursor, cursor + size, cursor + 4 * ac);
  }
}
