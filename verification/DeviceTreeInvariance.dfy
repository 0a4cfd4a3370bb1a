/**
 Edits of a structure block that the walk cannot see: FDT_NOP tokens between tokens, and the
 bytes after the first FDT_END (Devicetree Specification v0.4, section 5.4.1).
 */
module DeviceTreeInvariance {
  import opened Words
  import opened Endian
  import opened TokenCut
  import opened DeviceTreeTokens
  import opened DeviceTreeFold

  /** The four bytes of an FDT_NOP token. */
  const NOP_BYTES: Bytes := Enc32(FDT_NOP)

  lemma {:induction false} NopInRun(w: Walk, before: seq<Token>, after: seq<Token>)
    requires forall k :: 0 <= k < |before| ==> !before[k].Stops()
    ensures Run(w, before + [Nop] + after) == Run(w, before + after)
    decreases |before|
  {
    if before == [] {
      assert before + [Nop] + after == [Nop] + after && before + after == after;
      RunCons(w, Nop, after);
    } else {
      var rest := before[1..];
      assert before + [Nop] + after == [before[0]] + (rest + [Nop] + after);
      assert before + after == [before[0]] + (rest + after);
      RunCons(w, before[0], rest + [Nop] + after);
      RunCons(w, before[0], rest + after);
      if Step(w, before[0]).Ok? {
        NopInRun(Step(w, before[0]).value, rest, after);
      }
    }
  }

  /** An FDT_NOP between any two tokens changes neither the verdict nor any harvested value. */
  lemma NopIsInvisible(s: Bytes, address: nat, names: Names, p: nat)
    requires names.Valid() && Boundary(TokenScanner(names), s, address, p)
    ensures p <= |s|
    ensures Verdict(Insert(s, p, NOP_BYTES), address, names) == Verdict(s, address, names)
  {
    var scan := TokenScanner(names);
    BoundaryInside(scan, s, address, p);
    assert NextPiece(NOP_BYTES, address + p, names) == Piece(Nop, 4);
    var before, after := InsertInCut(scan, s, address, p, NOP_BYTES, Nop);
    NopInRun(START, before, after);
  }

  /** On a block in which FDT_END is reached, neither the bytes after it nor their number matter, whether
      the block is accepted or rejected. */
  lemma TailIsInvisibleToTheWalk(s: Bytes, t: Bytes, address: nat, names: Names)
    requires names.Valid() && Closed(Tokens(s, address, names))
    ensures Consumed(TokenScanner(names), s, address) <= |s|
    ensures Consumed(TokenScanner(names), s, address) <= |t|
      && t[..Consumed(TokenScanner(names), s, address)] == s[..Consumed(TokenScanner(names), s, address)]
      ==> Verdict(t, address, names) == Verdict(s, address, names)
  {
    ConsumedInside(names, s, address);
    var n := Consumed(TokenScanner(names), s, address);
    if n <= |t| && t[..n] == s[..n] {
      TailIsInvisible(TokenScanner(names), s, t, address);
    }
  }

  lemma {:induction false} ConsumedInside(names: Names, s: Bytes, address: nat)
    requires names.Valid()
    ensures Consumed(TokenScanner(names), s, address) <= |s|
    decreases |s|
  {
    if |s| >= 4 {
      var p := NextPiece(s, address, names);
      if !p.token.Stops() {
        ConsumedInside(names, s[p.size..], address + p.size);
      }
    }
  }
}
