/**
 Cutting a byte string into tokens, for any way of recognising one token. The results need only
 that recognition is local: a token is decided by its own bytes and by its address modulo 4.
 */
module TokenCut {
  import opened Words
  import opened Panic

  datatype Token =
    | BeginNode(name: Bytes)
    | EndNode
    | Prop(name: Bytes, value: Bytes)
    | Nop
    | End
    /** A place where no token can be cut, and why. */
    | Bad(reason: Reason)
  {
    predicate Stops() {
      End? || Bad?
    }
  }

  /** A token and the number of bytes it takes, padding included. */
  datatype Piece = Piece(token: Token, size: nat)

  /** Recognises the token at the start of a byte string with a given address. */
  type Scanner = (Bytes, nat) -> Piece

  ghost predicate Progresses(scan: Scanner) {
    forall s: Bytes, a: nat :: 4 <= |s| && !scan(s, a).token.Stops() ==> 4 <= scan(s, a).size <= |s|
  }

  /** `t` begins with all the bytes of the token that `s` begins with. */
  ghost predicate LocalCase(scan: Scanner, s: Bytes, t: Bytes, a: nat) {
    && 4 <= |s| && !scan(s, a).token.Bad?
    && scan(s, a).size <= |s| && scan(s, a).size <= |t|
    && s[..scan(s, a).size] == t[..scan(s, a).size]
  }

  ghost predicate Local(scan: Scanner) {
    forall s: Bytes, t: Bytes, a: nat {:trigger LocalCase(scan, s, t, a)} ::
      LocalCase(scan, s, t, a) ==> 4 <= |t| && scan(t, a) == scan(s, a)
  }

  ghost predicate PhaseCase(s: Bytes, a: nat, b: nat) {
    4 <= |s| && a % 4 == b % 4
  }

  ghost predicate Phased(scan: Scanner) {
    forall s: Bytes, a: nat, b: nat {:trigger PhaseCase(s, a, b)} ::
      PhaseCase(s, a, b) ==> scan(s, a) == scan(s, b)
  }

  /** The tokens up to the first FDT_END, the first place where no token can be cut, or the last three
      bytes. */
  ghost function Cut(scan: Scanner, s: Bytes, address: nat): seq<Token>
    requires Progresses(scan)
    decreases |s|
  {
    if |s| < 4 then []
    else
      var p := scan(s, address);
      if p.token.Stops() then [p.token] else [p.token] + Cut(scan, s[p.size..], address + p.size)
  }

  /** Only the last token of a list can stop the walk. */
  ghost predicate OnlyLastStops(ts: seq<Token>) {
    forall k :: 0 <= k < |ts| - 1 ==> !ts[k].Stops()
  }

  lemma {:induction false} CutStopsOnce(scan: Scanner, s: Bytes, address: nat)
    requires Progresses(scan)
    ensures OnlyLastStops(Cut(scan, s, address))
    decreases |s|
  {
    if |s| >= 4 {
      var p := scan(s, address);
      if !p.token.Stops() {
        CutStopsOnce(scan, s[p.size..], address + p.size);
        var rest := Cut(scan, s[p.size..], address + p.size);
        assert forall k :: 1 <= k < |rest| + 1 ==> ([p.token] + rest)[k] == rest[k - 1];
      }
    }
  }

  /** Of the address, only the residue modulo 4 matters. */
  lemma {:induction false} CutPhase(scan: Scanner, s: Bytes, a: nat, b: nat)
    requires Progresses(scan) && Phased(scan) && a % 4 == b % 4
    ensures Cut(scan, s, a) == Cut(scan, s, b)
    decreases |s|
  {
    if |s| >= 4 {
      var p := scan(s, a);
      assert PhaseCase(s, a, b);
      if !p.token.Stops() {
        CutPhase(scan, s[p.size..], a + p.size, b + p.size);
      }
    }
  }

  /** A token's bytes in front of a block put the token in front of its cut. */
  lemma CutCons(scan: Scanner, piece: Bytes, rest: Bytes, address: nat, token: Token)
    requires Progresses(scan) && Local(scan) && 4 <= |piece|
    requires scan(piece, address) == Piece(token, |piece|) && !token.Stops()
    ensures Cut(scan, piece + rest, address) == [token] + Cut(scan, rest, address + |piece|)
  {
    var s := piece + rest;
    assert s[..|piece|] == piece == piece[..|piece|];
    assert LocalCase(scan, piece, s, address);
    assert s[|piece|..] == rest;
  }

  /** Bytes that are one FDT_END, and anything after them. */
  lemma CutEnd(scan: Scanner, piece: Bytes, rest: Bytes, address: nat)
    requires Progresses(scan) && Local(scan) && 4 <= |piece|
    requires scan(piece, address) == Piece(End, |piece|)
    ensures Cut(scan, piece + rest, address) == [End]
  {
    var s := piece + rest;
    assert s[..|piece|] == piece == piece[..|piece|];
    assert LocalCase(scan, piece, s, address);
  }

  // ---- Inserting a token between two tokens ----

  /** `p` is where the block begins or where one of its tokens, other than the last, is complete. */
  ghost predicate Boundary(scan: Scanner, s: Bytes, address: nat, p: nat)
    requires Progresses(scan)
    decreases |s|
  {
    p == 0 || (
      && 4 <= |s|
      && var piece := scan(s, address);
      && !piece.token.Stops() && piece.size <= p
      && Boundary(scan, s[piece.size..], address + piece.size, p - piece.size))
  }

  lemma {:induction false} BoundaryInside(scan: Scanner, s: Bytes, address: nat, p: nat)
    requires Progresses(scan) && Boundary(scan, s, address, p)
    ensures p <= |s|
    decreases |s|
  {
    if p != 0 {
      var piece := scan(s, address);
      BoundaryInside(scan, s[piece.size..], address + piece.size, p - piece.size);
    }
  }

  function Insert(s: Bytes, p: nat, extra: Bytes): Bytes
    requires p <= |s|
  {
    s[..p] + extra + s[p..]
  }

  /** The blocks s and t have the same cut, but for one more token in t. */
  ghost predicate OneMore(scan: Scanner, s: Bytes, t: Bytes, address: nat, before: seq<Token>, token: Token,
                          after: seq<Token>)
    requires Progresses(scan)
  {
    && (forall k :: 0 <= k < |before| ==> !before[k].Stops())
    && Cut(scan, s, address) == before + after && Cut(scan, t, address) == before + [token] + after
  }

  lemma OneMoreInFront(scan: Scanner, s: Bytes, t: Bytes, address: nat, before: seq<Token>, token: Token,
                       after: seq<Token>)
    requires Progresses(scan) && 4 <= |s| && 4 <= |t| && scan(t, address) == scan(s, address)
    requires !scan(s, address).token.Stops()
    requires var n := scan(s, address).size;
      n <= |t| && OneMore(scan, s[n..], t[n..], address + n, before, token, after)
    ensures OneMore(scan, s, t, address, [scan(s, address).token] + before, token, after)
  {
    var first := scan(s, address).token;
    assert [first] + before + after == [first] + (before + after);
    assert [first] + before + [token] + after == [first] + (before + [token] + after);
  }

  lemma InsertFirst(scan: Scanner, s: Bytes, address: nat, extra: Bytes, token: Token)
    requires Progresses(scan) && Local(scan) && Phased(scan)
    requires 4 <= |extra| && |extra| % 4 == 0 && !token.Stops() && scan(extra, address) == Piece(token, |extra|)
    ensures OneMore(scan, s, Insert(s, 0, extra), address, [], token, Cut(scan, s, address))
  {
    assert Insert(s, 0, extra) == extra + s;
    CutCons(scan, extra, s, address, token);
    WholeWords(address, |extra|);
    CutPhase(scan, s, address, address + |extra|);
    Joined([token], Cut(scan, s, address));
  }

  lemma WholeWords(address: nat, n: nat)
    requires n % 4 == 0
    ensures (address + n) % 4 == address % 4
  {
  }

  lemma Joined(a: seq<Token>, b: seq<Token>)
    ensures [] + a + b == a + b && [] + b == b
  {
  }

  /** The bytes of a whole token, inserted at a boundary, show as that one token, if their number is a
      multiple of four. */
  lemma {:induction false} InsertInCut(scan: Scanner, s: Bytes, address: nat, p: nat, extra: Bytes, token: Token)
    returns (before: seq<Token>, after: seq<Token>)
    requires Progresses(scan) && Local(scan) && Phased(scan)
    requires p <= |s| && Boundary(scan, s, address, p)
    requires 4 <= |extra| && |extra| % 4 == 0 && !token.Stops() && scan(extra, address + p) == Piece(token, |extra|)
    ensures OneMore(scan, s, Insert(s, p, extra), address, before, token, after)
    decreases |s|
  {
    var t := Insert(s, p, extra);
    if p == 0 {
      InsertFirst(scan, s, address, extra, token);
      before, after := [], Cut(scan, s, address);
    } else {
      var piece := scan(s, address);
      var n := piece.size;
      BoundaryInside(scan, s, address, p);
      InsertSplits(s, p, extra, n);
      assert LocalCase(scan, s, t, address);
      before, after := InsertInCut(scan, s[n..], address + n, p - n, extra, token);
      OneMoreInFront(scan, s, t, address, before, token, after);
      before := [piece.token] + before;
    }
  }

  lemma InsertSplits(s: Bytes, p: nat, extra: Bytes, n: nat)
    requires n <= p <= |s|
    ensures s[..n] == Insert(s, p, extra)[..n]
    ensures Insert(s, p, extra)[n..] == Insert(s[n..], p - n, extra)
  {
    assert s[n..][..p - n] == s[n..p] && s[n..][p - n..] == s[p..];
  }

  // ---- Changing what follows FDT_END ----

  /** The bytes taken by the tokens of a block, up to and including the first FDT_END. */
  ghost function Consumed(scan: Scanner, s: Bytes, address: nat): (n: nat)
    requires Progresses(scan)
    decreases |s|
  {
    if |s| < 4 then 0
    else
      var p := scan(s, address);
      if p.token.Stops() then p.size
      else p.size + Consumed(scan, s[p.size..], address + p.size)
  }

  /** The list ends with FDT_END. */
  predicate Closed(ts: seq<Token>) {
    ts != [] && ts[|ts| - 1] == End
  }

  lemma {:induction false} TailIsInvisible(scan: Scanner, s: Bytes, t: Bytes, address: nat)
    requires Progresses(scan) && Local(scan)
    requires Closed(Cut(scan, s, address))
    requires Consumed(scan, s, address) <= |s| && Consumed(scan, s, address) <= |t|
    requires t[..Consumed(scan, s, address)] == s[..Consumed(scan, s, address)]
    ensures Cut(scan, t, address) == Cut(scan, s, address)
    decreases |s|
  {
    var p := scan(s, address);
    if p.token.Stops() {
      assert LocalCase(scan, s, t, address);
    } else {
      var rest, n := s[p.size..], Consumed(scan, s, address);
      assert Cut(scan, s, address) == [p.token] + Cut(scan, rest, address + p.size);
      SplitPrefix(s, t, n, p.size);
      assert LocalCase(scan, s, t, address);
      TailIsInvisible(scan, rest, t[p.size..], address + p.size);
    }
  }

  lemma SplitPrefix(s: Bytes, t: Bytes, n: nat, k: nat)
    requires k <= n <= |s| && n <= |t| && s[..n] == t[..n]
    ensures s[..k] == t[..k] && s[k..][..n - k] == t[k..][..n - k]
  {
    assert s[..k] == s[..n][..k] && t[..k] == t[..n][..k];
    assert s[k..][..n - k] == s[..n][k..] && t[k..][..n - k] == t[..n][k..];
  }
}
