/**
 The structure block of a flattened device tree as a list of tokens
 (Devicetree Specification v0.4, section 5.4; kernel/Hardware/DeviceTree.c, token loop).
 */
module DeviceTreeTokens {
  import opened Words
  import opened Endian
  import opened Strings
  import opened Panic
  import opened TokenCut

  const FDT_BEGIN_NODE := 0x1
  const FDT_END_NODE := 0x2
  const FDT_PROP := 0x3
  const FDT_NOP := 0x4
  const FDT_END := 0x9

  /** The longest property name the walker looks for has 14 characters; comparing against it reads
      one more byte, so a comparison may look this far beyond the strings block. */
  const NAME_SLACK := 14

  /** The strings block and the slack after it. */
  datatype Names = Names(bytes: Bytes, size: nat)
  {
    ghost predicate Valid() {
      |bytes| == size + NAME_SLACK
    }

    /** The property name at an offset. */
    function At(offset: nat): (name: Bytes)
      requires offset <= |bytes|
    {
      CString(bytes[offset..])
    }
  }

  /** Bytes from an address to the next 4-aligned one. */
  function Pad(address: nat): (p: nat)
    ensures p < 4 && (address + p) % 4 == 0
  {
    (4 - address % 4) % 4
  }

  function Reject(reason: Reason): Piece {
    Piece(Bad(reason), 0)
  }

  /** FDT_BEGIN_NODE: the name runs to the first NUL; then padding. */
  function BeginPiece(s: Bytes, address: nat): Piece
    requires 4 <= |s|
  {
    var nul := NulAt(s, 4);
    var size := nul + 1 + Pad(address + nul + 1);
    if |s| == 4 then Reject(NodeNameMissing)
    else if nul == |s| then Reject(NodeNameOverflow)
    else if size > |s| then Reject(NodeAlignOverflow)
    else Piece(BeginNode(s[4..nul]), size)
  }

  /** FDT_PROP: a length, the offset of the name, the value; then padding. */
  function PropPiece(s: Bytes, address: nat, names: Names): Piece
    requires 4 <= |s| && names.Valid()
  {
    if |s| < 12 then Reject(PropertyMetadataOverflow)
    else
      var length, offset := Be32(s, 4), Be32(s, 8);
      var size := 12 + length + Pad(address + 12 + length);
      if length > |s| - 12 then Reject(PropertyLengthOverflow)
      else if size > |s| then Reject(PropertyValueOverflow)
      else if offset >= names.size then Reject(PropertyNameOverflow)
      else Piece(Prop(names.At(offset), s[12..12 + length]), size)
  }

  /** The token at the start of `s`, whose first byte lies at `address`. */
  function NextPiece(s: Bytes, address: nat, names: Names): (p: Piece)
    requires 4 <= |s| && names.Valid()
    ensures !p.token.Stops() ==> 4 <= p.size <= |s|
  {
    var word := Be32(s, 0);
    if word == FDT_BEGIN_NODE then BeginPiece(s, address)
    else if word == FDT_END_NODE then Piece(EndNode, 4)
    else if word == FDT_PROP then PropPiece(s, address, names)
    else if word == FDT_NOP then Piece(Nop, 4)
    else if word == FDT_END then Piece(End, 4)
    else Reject(UnknownToken)
  }

  // ---- Locality: a token is decided by its own bytes ----

  /** Two loads of the same bytes. */
  lemma SameWord(s: Bytes, t: Bytes, n: nat, at: nat)
    requires at + 4 <= n <= |s| && n <= |t| && s[..n] == t[..n]
    ensures Be32(s, at) == Be32(t, at)
  {
    Be32Slice(s, 0, n, at);
    Be32Slice(t, 0, n, at);
    assert s[0..n] == s[..n] && t[0..n] == t[..n];
  }

  lemma SameName(s: Bytes, t: Bytes, n: nat)
    requires 4 <= n <= |s| && n <= |t| && s[..n] == t[..n]
    requires NulAt(s, 4) < n
    ensures NulAt(t, 4) == NulAt(s, 4) && t[4..NulAt(s, 4)] == s[4..NulAt(s, 4)]
  {
    var nul := NulAt(s, 4);
    assert forall i :: 0 <= i < n ==> s[i] == s[..n][i] == t[i];
    assert NulAt(t, 4) == nul;
  }

  lemma BeginLocal(s: Bytes, t: Bytes, address: nat)
    requires 4 <= |s| && !BeginPiece(s, address).token.Bad?
    requires BeginPiece(s, address).size <= |t|
    requires s[..BeginPiece(s, address).size] == t[..BeginPiece(s, address).size]
    ensures 4 <= |t| && BeginPiece(t, address) == BeginPiece(s, address)
  {
    SameName(s, t, BeginPiece(s, address).size);
  }

  lemma PropLocal(s: Bytes, t: Bytes, address: nat, names: Names)
    requires 4 <= |s| && names.Valid() && !PropPiece(s, address, names).token.Bad?
    requires PropPiece(s, address, names).size <= |t|
    requires s[..PropPiece(s, address, names).size] == t[..PropPiece(s, address, names).size]
    ensures 4 <= |t| && PropPiece(t, address, names) == PropPiece(s, address, names)
  {
    var size, end := PropPiece(s, address, names).size, 12 + Be32(s, 4);
    SameWord(s, t, size, 4);
    SameWord(s, t, size, 8);
    SliceOfSlice(s, 0, size, 12, end);
    SliceOfSlice(t, 0, size, 12, end);
    assert s[0..size] == s[..size] && t[0..size] == t[..size];
  }

  lemma PieceLocal(s: Bytes, t: Bytes, address: nat, names: Names)
    requires 4 <= |s| && names.Valid()
    requires !NextPiece(s, address, names).token.Bad?
    requires NextPiece(s, address, names).size <= |t|
    requires s[..NextPiece(s, address, names).size] == t[..NextPiece(s, address, names).size]
    ensures 4 <= |t| && NextPiece(t, address, names) == NextPiece(s, address, names)
  {
    var p := NextPiece(s, address, names);
    SameWord(s, t, p.size, 0);
    if p.token.BeginNode? {
      BeginLocal(s, t, address);
    } else if p.token.Prop? {
      PropLocal(s, t, address, names);
    }
  }

  lemma PadPhase(a: nat, b: nat, n: nat)
    requires a % 4 == b % 4
    ensures (a + n) % 4 == (b + n) % 4
    ensures Pad(a + n) == Pad(b + n)
  {
  }

  /** Of the address, only the residue modulo 4 matters. */
  lemma PiecePhase(s: Bytes, a: nat, b: nat, names: Names)
    requires 4 <= |s| && names.Valid() && a % 4 == b % 4
    ensures NextPiece(s, a, names) == NextPiece(s, b, names)
  {
    PadPhase(a, b, NulAt(s, 4) + 1);
    if |s| >= 12 {
      PadPhase(a, b, 12 + Be32(s, 4));
    }
  }

  /** A scanner that recognises tokens as NextPiece does, with the three facts that cutting needs. */
  ghost predicate Scans(scan: Scanner, names: Names)
    requires names.Valid()
  {
    && Progresses(scan) && Local(scan) && Phased(scan)
    && forall s: Bytes, a: nat {:trigger NextPiece(s, a, names)} :: 4 <= |s| ==> scan(s, a) == NextPiece(s, a, names)
  }

  lemma ScannerExists(names: Names) returns (scan: Scanner)
    requires names.Valid()
    ensures Scans(scan, names)
  {
    scan := (s: Bytes, a: nat) => if 4 <= |s| then NextPiece(s, a, names) else Reject(UnknownToken);
    forall s: Bytes, t: Bytes, a: nat | LocalCase(scan, s, t, a)
      ensures 4 <= |t| && scan(t, a) == scan(s, a)
    {
      PieceLocal(s, t, a, names);
    }
    forall s: Bytes, a: nat, b: nat | PhaseCase(s, a, b)
      ensures scan(s, a) == scan(s, b)
    {
      PiecePhase(s, a, b, names);
    }
  }

  /** Recognising tokens, for a given strings block. */
  ghost function TokenScanner(names: Names): (scan: Scanner)
    requires names.Valid()
    ensures Scans(scan, names)
  {
    assert exists scan: Scanner :: Scans(scan, names) by {
      var scan := ScannerExists(names);
    }
    var scan: Scanner :| Scans(scan, names);
    scan
  }

  /** The tokens of a structure block whose first byte lies at `address`. */
  ghost function Tokens(block: Bytes, address: nat, names: Names): seq<Token>
    requires names.Valid()
  {
    Cut(TokenScanner(names), block, address)
  }
}
