/**
 Hexadecimal output and input (kernel/Console/IO.c).
 */
module Hex {
  import opened Words
  import opened Endian
  import opened Strings
  import opened Console

  // ---- Digits ----

  predicate IsHex(c: Byte) {
    0x30 <= c <= 0x39 || 0x41 <= c <= 0x46 || 0x61 <= c <= 0x66
  }

  function Digit(c: Byte): nat
    requires IsHex(c)
    ensures Digit(c) < 16
  {
    if c <= 0x39 then c as int - 0x30 else if c <= 0x46 then c as int - 0x37 else c as int - 0x57
  }

  /** The upper-case digit of a value below 16. */
  function DigitChar(d: nat): (c: Byte)
    requires d < 16
    ensures IsHex(c) && Digit(c) == d
  {
    if d > 9 then d + 0x37 else d + 0x30
  }

  /** The character is the digit d, in either case. */
  predicate StandsFor(c: Byte, d: nat) {
    d < 16 && (c == "0123456789abcdef"[d] as int || c == "0123456789ABCDEF"[d] as int)
  }

  /** The characters that stand for something are the digits, and they stand for their value alone. */
  lemma DigitsStandFor(c: Byte, d: nat)
    ensures StandsFor(c, d) <==> IsHex(c) && Digit(c) == d
  {
    if d < 16 {
      Alphabets(d);
    }
  }

  lemma Alphabets(d: nat)
    requires d < 16
    ensures "0123456789abcdef"[d] as int == (if d < 10 then 0x30 + d else 0x57 + d)
    ensures "0123456789ABCDEF"[d] as int == (if d < 10 then 0x30 + d else 0x37 + d)
  {
    var lower, upper := "0123456789abcdef", "0123456789ABCDEF";
    if d < 10 {
      assert d in {0, 1, 2, 3, 4, 5, 6, 7, 8, 9};
    } else {
      assert d in {10, 11, 12, 13, 14, 15};
    }
  }

  /** What a list of digits is worth. */
  function Base16(ds: seq<nat>): nat {
    if ds == [] then 0 else Base16(ds[..|ds| - 1]) * 16 + ds[|ds| - 1]
  }

  predicate AllStandFor(s: Bytes, ds: seq<nat>) {
    |s| == |ds| && forall k :: 0 <= k < |s| ==> StandsFor(s[k], ds[k])
  }

  predicate AllHex(s: Bytes) {
    forall k :: 0 <= k < |s| ==> IsHex(s[k])
  }

  /** Positional value of a string of digits. */
  function HexValue(s: Bytes): nat
    requires AllHex(s)
  {
    if s == [] then 0 else HexValue(s[..|s| - 1]) * 16 + Digit(s[|s| - 1])
  }

  /** A string is worth its digits. */
  lemma {:induction false} DigitsAreWorth(s: Bytes, ds: seq<nat>)
    requires AllStandFor(s, ds)
    ensures AllHex(s) && HexValue(s) == Base16(ds)
    decreases |s|
  {
    if s != [] {
      var n := |s| - 1;
      DigitsAreWorth(s[..n], ds[..n]);
      DigitsStandFor(s[n], ds[n]);
      assert s == s[..n] + [s[n]];
    }
  }

  lemma {:induction false} DigitsOf(s: Bytes) returns (ds: seq<nat>)
    requires AllHex(s)
    ensures AllStandFor(s, ds) && HexValue(s) == Base16(ds)
    decreases |s|
  {
    ds := [];
    if s != [] {
      var n := |s| - 1;
      var front := DigitsOf(s[..n]);
      ds := front + [Digit(s[n])];
      DigitsStandFor(s[n], ds[n]);
      assert ds[..n] == front && s == s[..n] + [s[n]];
    }
  }

  function Pow16(n: nat): (p: nat)
    ensures p > 0
  {
    if n == 0 then 1 else 16 * Pow16(n - 1)
  }

  lemma {:induction false} HexValueFits(s: Bytes)
    requires AllHex(s)
    ensures HexValue(s) < Pow16(|s|)
    decreases |s|
  {
    if s != [] {
      HexValueFits(s[..|s| - 1]);
    }
  }

  lemma {:induction false} Pow16Grows(m: nat, n: nat)
    requires m <= n
    ensures Pow16(m) <= Pow16(n)
    decreases n
  {
    if m < n {
      Pow16Grows(m, n - 1);
    }
  }

  lemma Pow16Of15()
    ensures Pow16(15) == 0x1000_0000_0000_0000
  {
    assert Pow16(5) == 0x10_0000;
    assert Pow16(10) == 0x100_0000_0000;
  }

  // ---- Printing ----

  /** Two digits for each byte. */
  function HexOf(data: Bytes): (s: Bytes)
    ensures |s| == 2 * |data| && AllHex(s)
  {
    if data == [] then []
    else
      var b: nat := data[|data| - 1];
      HexOf(data[..|data| - 1]) + [DigitChar(b / 16), DigitChar(b % 16)]
  }

  /** Each byte is printed as its upper and its lower half, as upper-case digits. */
  lemma {:induction false} PrintedDigits(data: Bytes, k: nat)
    requires k < |data|
    ensures HexOf(data)[2 * k] == "0123456789ABCDEF"[data[k] as int / 16] as int
    ensures HexOf(data)[2 * k + 1] == "0123456789ABCDEF"[data[k] as int % 16] as int
    decreases |data|
  {
    var n := |data| - 1;
    if k < n {
      PrintedDigits(data[..n], k);
    } else {
      Alphabets(data[n] as int / 16);
      Alphabets(data[n] as int % 16);
    }
  }

  /** Printing a byte string and reading the digits gives its big-endian value. */
  lemma {:induction false} HexOfValue(data: Bytes)
    ensures HexValue(HexOf(data)) == Be(data)
    decreases |data|
  {
    if data != [] {
      var s, b: nat := HexOf(data[..|data| - 1]), data[|data| - 1];
      HexOfValue(data[..|data| - 1]);
      var hi, lo := DigitChar(b / 16), DigitChar(b % 16);
      assert (s + [hi, lo])[..|s| + 1] == s + [hi];
      assert (s + [hi])[..|s|] == s;
      assert HexValue(s + [hi]) == Be(data[..|data| - 1]) * 16 + b / 16;
    }
  }

  function Reversed(s: Bytes): (r: Bytes)
    ensures |r| == |s|
    ensures forall k :: 0 <= k < |s| ==> r[k] == s[|s| - 1 - k]
  {
    if s == [] then [] else Reversed(s[1..]) + [s[0]]
  }

  /** A 64-bit variable in memory, least significant byte first. */
  function LittleEndian(v: U64): Bytes {
    Reversed(EncBe(v, 8))
  }

  /** A 64-bit variable in the memory of a machine with this byte order. */
  function InMemory(v: U64, bigEndian: bool): Bytes {
    if bigEndian then EncBe(v, 8) else LittleEndian(v)
  }

  /** The bytes of memory, most significant first, if they hold one value. */
  function MostSignificantFirst(data: Bytes, bigEndian: bool): Bytes {
    if bigEndian then data else Reversed(data)
  }

  lemma ReversedTwice(s: Bytes)
    ensures Reversed(Reversed(s)) == s
  {
  }

  /** The sixteen digits of a 64-bit value. */
  function Hex64(v: U64): (s: Bytes)
    ensures |s| == 16 && AllHex(s)
  {
    HexOf(EncBe(v, 8))
  }

  lemma Hex64Value(v: U64)
    ensures HexValue(Hex64(v)) == v
  {
    HexOfValue(EncBe(v, 8));
    Pow256Values();
    BeOfEnc(v, 8);
  }

  /** The low or high digit of a byte, with the masks and the additions of the source. */
  method NibbleChar(nibble: Byte) returns (c: Byte)
    requires nibble < 16
    ensures c == DigitChar(nibble)
  {
    c := nibble;
    if c > 9 {
      c := c + (0x41 - 10);
    } else {
      c := c + 0x30;
    }
  }

  method PrintByte(t: Terminal, byte: Byte)
    modifies t`output
    ensures t.output == old(t.output) + HexOf([byte])
  {
    var b: nat := byte;
    ByteNibbles(b);
    var lo := NibbleChar(And(b, 15));
    var hi := NibbleChar(And(ShiftRight(b, 4), 15));
    t.PutC(hi);
    t.PutC(lo);
    assert [byte][..0] == [];
  }

  lemma ByteNibbles(b: nat)
    requires b < 0x100
    ensures And(b, 15) == b % 16 && And(ShiftRight(b, 4), 15) == b / 16
  {
    Pow2Values();
    ShiftRightDivides(b, 4);
    AndMask(b, 4);
    AndMask(b / 16, 4);
    ModUnique(b / 16, 16, 0, b / 16);
  }

  lemma {:induction false} HexOfAppend(data: Bytes, b: Byte)
    ensures HexOf(data + [b]) == HexOf(data) + HexOf([b])
  {
    assert (data + [b])[..|data|] == data;
    assert [b][..0] == [];
    assert HexOf([b]) == [DigitChar((b as int) / 16), DigitChar((b as int) % 16)];
  }

  /** console_print_hex_bytes: in the order of memory. */
  method PrintHexBytes(t: Terminal, data: Bytes, size: nat)
    requires size <= |data|
    modifies t`output
    ensures t.output == old(t.output) + HexOf(data[..size])
  {
    assert data[..0] == [];
    for i := 0 to size
      invariant t.output == old(t.output) + HexOf(data[..i])
    {
      PrintByte(t, data[i]);
      HexOfAppend(data[..i], data[i]);
      assert data[..i + 1] == data[..i] + [data[i]];
    }
  }

  /** console_print_hex_value: in the order of significance. */
  method PrintHexValue(t: Terminal, data: Bytes, size: nat)
    requires size <= |data|
    modifies t`output
    ensures t.output == old(t.output) + HexOf(MostSignificantFirst(data[..size], t.bigEndian))
  {
    if t.bigEndian {
      PrintHexBytes(t, data, size);
      return;
    }
    var i: nat := size;
    ghost var backwards, done: Bytes := Reversed(data[..size]), [];
    while i > 0
      invariant i <= size && done == backwards[..size - i]
      invariant t.output == old(t.output) + HexOf(done)
    {
      PrintByte(t, data[i - 1]);
      HexOfAppend(done, data[i - 1]);
      SliceGrows(backwards, 0, size - i);
      done, i := done + [data[i - 1]], i - 1;
    }
    assert done == backwards;
  }

  // ---- Parsing ----

  /** Where the digits start: after an optional 0x or 0X. */
  function PrefixLength(s: Bytes): (n: nat)
    ensures n <= |s|
  {
    if |s| >= 2 && s[0] == 0x30 && (s[1] == 0x78 || s[1] == 0x58) then 2 else 0
  }

  /** The end of the run of digits from `from` on, of at most `room` digits. */
  function RunEnd(s: Bytes, from: nat, room: nat): (e: nat)
    requires from <= |s|
    ensures from <= e <= |s| && e <= from + room
    ensures AllHex(s[from..e])
    ensures e < |s| && e < from + room ==> !IsHex(s[e])
    decreases room
  {
    if from == |s| || room == 0 || !IsHex(s[from]) then from
    else
      var e := RunEnd(s, from + 1, room - 1);
      assert s[from..e] == [s[from]] + s[from + 1..e];
      e
  }

  /** The value of a string: its longest run of at most 16 digits after the optional prefix. */
  function ParsedHex(s: Bytes): nat {
    var from := PrefixLength(s);
    HexValue(s[from..RunEnd(s, from, 16)])
  }

  lemma ParsedHexFits(s: Bytes)
    ensures ParsedHex(s) < TWO_64
  {
    var from := PrefixLength(s);
    var run := s[from..RunEnd(s, from, 16)];
    HexValueFits(run);
    Pow16Grows(|run|, 16);
    Pow16Of15();
  }

  /** A way to write a 64-bit value: an optional prefix and 1 to 16 digits of either case. */
  ghost predicate Spells(s: Bytes, v: U64) {
    exists prefix: Bytes, digits: Bytes, ds: seq<nat> :: SpellsWith(s, prefix, digits, ds, v)
  }

  ghost predicate SpellsWith(s: Bytes, prefix: Bytes, digits: Bytes, ds: seq<nat>, v: U64) {
    && (prefix == [] || prefix == [0x30, 0x78] || prefix == [0x30, 0x58])
    && 1 <= |digits| <= 16 && AllStandFor(digits, ds) && Base16(ds) == v
    && s == prefix + digits
  }

  lemma PrefixInFront(prefix: Bytes, rest: Bytes)
    requires prefix == [] || prefix == [0x30, 0x78] || prefix == [0x30, 0x58]
    requires prefix == [] ==> !([0x30, 0x78] <= rest) && !([0x30, 0x58] <= rest)
    ensures PrefixLength(prefix + rest) == |prefix|
  {
    var s := prefix + rest;
    if prefix == [] {
      assert s == rest;
      if |rest| >= 2 {
        assert rest[..2] == [rest[0], rest[1]];
      }
    } else {
      assert s[0] == prefix[0] && s[1] == prefix[1];
    }
  }

  lemma {:induction false} RunStops(s: Bytes, from: nat, room: nat, e: nat)
    requires from <= e <= |s| && e <= from + room && AllHex(s[from..e])
    requires e == |s| || e == from + room || !IsHex(s[e])
    ensures RunEnd(s, from, room) == e
    decreases room
  {
    if from < e {
      assert s[from] == s[from..e][0] && s[from + 1..e] == s[from..e][1..];
      RunStops(s, from + 1, room - 1, e);
    }
  }

  /** Sixteen digits, or fewer before a character that is no digit, are all that counts. */
  lemma LongestRun(prefix: Bytes, digits: Bytes, ds: seq<nat>, rest: Bytes)
    requires prefix == [] || prefix == [0x30, 0x78] || prefix == [0x30, 0x58]
    requires AllStandFor(digits, ds) && |digits| <= 16
    requires |digits| == 16 || rest == [] || forall d: nat :: !StandsFor(rest[0], d)
    requires prefix == [] ==> !([0x30, 0x78] <= digits + rest) && !([0x30, 0x58] <= digits + rest)
    ensures ParsedHex(prefix + digits + rest) == Base16(ds)
  {
    var s, n := prefix + digits + rest, |prefix|;
    DigitsAreWorth(digits, ds);
    PrefixInFront(prefix, digits + rest);
    Assoc(prefix, digits, rest);
    assert s[n..n + |digits|] == digits;
    if |digits| < 16 && rest != [] {
      if IsHex(rest[0]) {
        DigitsStandFor(rest[0], Digit(rest[0]));
      }
      assert s[n + |digits|] == rest[0];
    }
    RunStops(s, n, 16, n + |digits|);
  }

  /** Every spelling parses to the value it spells. */
  lemma SpellingParses(s: Bytes, v: U64)
    requires Spells(s, v)
    ensures ParsedHex(s) == v
  {
    var prefix, digits, ds :| SpellsWith(s, prefix, digits, ds, v);
    NoPrefixInDigits(digits, ds);
    assert digits + [] == digits && prefix + digits + [] == s;
    LongestRun(prefix, digits, ds, []);
  }

  lemma NoPrefixInDigits(digits: Bytes, ds: seq<nat>)
    requires AllStandFor(digits, ds)
    ensures !([0x30, 0x78] <= digits) && !([0x30, 0x58] <= digits)
  {
    DigitsAreWorth(digits, ds);
    var lower: Bytes, upper: Bytes := [0x30, 0x78], [0x30, 0x58];
    if |digits| >= 2 {
      assert IsHex(digits[1]) && digits[1] != lower[1] && digits[1] != upper[1];
    }
  }

  /** Parsing the printed form of a value returns the value. */
  lemma PrintThenParse(v: U64)
    ensures ParsedHex(Hex64(v)) == v
  {
    Hex64Value(v);
    assert [] + Hex64(v) == Hex64(v);
    var ds := DigitsOf(Hex64(v));
    assert SpellsWith(Hex64(v), [], Hex64(v), ds, v);
    SpellingParses(Hex64(v), v);
  }

  /** Printing the memory of a 64-bit variable prints its value's digits, on a machine of either byte order. */
  lemma VariablePrintsAsValue(v: U64, bigEndian: bool)
    ensures |InMemory(v, bigEndian)| == 8 && InMemory(v, bigEndian)[if bigEndian then 7 else 0] == v % 0x100
    ensures HexOf(MostSignificantFirst(InMemory(v, bigEndian)[..8], bigEndian)) == Hex64(v)
  {
    ReversedTwice(EncBe(v, 8));
    assert InMemory(v, bigEndian)[..8] == InMemory(v, bigEndian);
  }

  lemma ShiftInDigit(result: nat, d: nat)
    requires result < 0x1000_0000_0000_0000 && d < 16
    ensures Or(ShiftLeft(result, 4, 64), d) == result * 16 + d < TWO_64
  {
    Pow2Values();
    ShiftFits(result, 4, 64);
    OrDisjoint(result, 4, d);
  }

  /** console_uint64_from_hex. */
  method Uint64FromHex(digits: Bytes) returns (result: U64)
    requires Terminated(digits)
    ensures result == ParsedHex(CString(digits))
  {
    ghost var s := CString(digits);
    ghost var n := NulAt(digits, 0);
    var i, maxChars := 0, 16;
    result := 0;
    if digits[0] == 0x30 {
      if digits[1] == 0x78 || digits[1] == 0x58 {
        maxChars := maxChars + 2;
        i := 2;
      }
    }
    ghost var from := i;
    assert s[from..i] == [];
    while digits[i] != 0 && i < maxChars
      invariant i <= n && maxChars == from + 16
      invariant Parsed(s, from, i, result)
      decreases maxChars - i
    {
      var c := digits[i];
      RoomForDigit(s[from..i]);
      var isDigit, next := ShiftIn(s[from..i], result, c);
      ParsedStep(s, from, i, result, next);
      if !isDigit {
        // The run of digits ends here.
        return;
      }
      result, i := next, i + 1;
    }
  }

  /** The digits up to i have been read. */
  ghost predicate Parsed(s: Bytes, from: nat, i: nat, result: nat) {
    && from <= i <= |s| && i <= from + 16
    && AllHex(s[from..i]) && result == HexValue(s[from..i])
    && RunEnd(s, from, 16) == RunEnd(s, i, from + 16 - i)
  }

  lemma ParsedStep(s: Bytes, from: nat, i: nat, result: nat, next: nat)
    requires Parsed(s, from, i, result) && i < |s| && i < from + 16
    requires IsHex(s[i]) ==> AllHex(s[from..i] + [s[i]]) && next == HexValue(s[from..i] + [s[i]])
    ensures if IsHex(s[i]) then Parsed(s, from, i + 1, next) else RunEnd(s, from, 16) == i
  {
    SliceGrows(s, from, i);
  }

  lemma SliceGrows(s: Bytes, lo: nat, hi: nat)
    requires lo <= hi < |s|
    ensures s[lo..hi + 1] == s[lo..hi] + [s[hi]]
  {
  }

  /** Lines 161 to 170: one character of the loop. */
  method ShiftIn(ghost before: Bytes, result: U64, c: Byte) returns (isDigit: bool, next: U64)
    requires AllHex(before) && result == HexValue(before) < 0x1000_0000_0000_0000
    ensures isDigit == IsHex(c)
    ensures isDigit ==> AllHex(before + [c]) && next == HexValue(before + [c])
  {
    isDigit, next := true, result;
    if IsHex(c) {
      ShiftInDigit(result, Digit(c));
      assert (before + [c])[..|before|] == before;
    }
    if 0x30 <= c <= 0x39 {
      next := Or(ShiftLeft(result, 4, 64), c - 0x30);
    } else if 0x41 <= c <= 0x46 {
      next := Or(ShiftLeft(result, 4, 64), c - 0x41 + 10);
    } else if 0x61 <= c <= 0x66 {
      next := Or(ShiftLeft(result, 4, 64), c - 0x61 + 10);
    } else {
      isDigit := false;
    }
  }

  lemma RoomForDigit(s: Bytes)
    requires AllHex(s) && |s| < 16
    ensures HexValue(s) < 0x1000_0000_0000_0000
  {
    HexValueFits(s);
    Pow16Grows(|s|, 15);
    Pow16Of15();
  }
}
