/**
 The example of the usage message, typed into the shell: byte for byte.
 */
module ShellExample {
  import opened Words
  import opened Endian
  import opened Console
  import opened Hex
  import opened Shell
  import opened ShellSession

  /** No byte that edits or ends a line. */
  predicate Plain(s: Bytes) {
    8 !in s && 127 !in s && 10 !in s && 13 !in s
  }

  /** Keys that are typed one after another, without erasing, go on. */
  lemma PlainGoesOn(size: nat, keys: Bytes)
    requires Plain(keys) && |keys| < size
    ensures GoesOn(size, [], keys) && Edit([], keys) == keys && Echo([], keys) == keys
  {
    PlainKeys([], keys);
    assert [] + keys == keys;
    forall k | 0 <= k < |keys|
      ensures keys[k] != 10 && keys[k] != 13 && |Edit([], keys[..k])| + 1 < size
    {
      PlainKeys([], keys[..k]);
    }
  }

  lemma FourDigits(a: nat, b: nat, c: nat, d: nat)
    ensures Base16([a, b, c, d]) == ((a * 16 + b) * 16 + c) * 16 + d
  {
    assert [a, b, c, d][..3] == [a, b, c] && [a, b, c][..2] == [a, b] && [a, b][..1] == [a] && [a][..0] == [];
    assert Base16([a]) == a;
    assert Base16([a, b]) == a * 16 + b;
    assert Base16([a, b, c]) == (a * 16 + b) * 16 + c;
  }

  lemma FirstSpelled(x: Bytes) returns (v: U64)
    requires x == [0x30, 0x78, 0x31, 0x32, 0x33, 0x34]
    ensures Spells(x, v) && v == 0x1234 && Plain(x)
  {
    var digits: Bytes, ds: seq<nat> := [0x31, 0x32, 0x33, 0x34], [1, 2, 3, 4];
    FourDigits(1, 2, 3, 4);
    v := 0x1234;
    assert SpellsWith(x, [0x30, 0x78], digits, ds, v);
  }

  lemma SecondSpelled(y: Bytes) returns (v: U64)
    requires y == [0x30, 0x78, 0x64, 0x62, 0x63, 0x61]
    ensures Spells(y, v) && v == 0xDBCA && Plain(y)
  {
    var digits: Bytes, ds: seq<nat> := [0x64, 0x62, 0x63, 0x61], [13, 11, 12, 10];
    FourDigits(13, 11, 12, 10);
    v := 0xDBCA;
    assert SpellsWith(y, [0x30, 0x78], digits, ds, v);
  }

  lemma {:induction false} BytesOfNone(n: nat)
    ensures EncBe(0, n) == Zeros(n)
  {
    if n > 0 {
      BytesOfNone(n - 1);
    }
  }

  lemma LastByte(v: nat, n: nat)
    requires n > 0
    ensures EncBe(v, n) == EncBe(v / 0x100, n - 1) + [v % 0x100]
  {
  }

  lemma BytesOfSum()
    ensures EncBe(0xEDFE, 8) == [0, 0, 0, 0, 0, 0, 0xED, 0xFE]
  {
    BytesOfNone(6);
    LastByte(0xEDFE, 8);
    LastByte(0xED, 7);
  }

  lemma DigitsOfSum(v: U64, sum: Bytes)
    requires sum == [0x30, 0x30, 0x30, 0x30, 0x30, 0x30, 0x30, 0x30, 0x30, 0x30, 0x30, 0x30, 0x45, 0x44, 0x46, 0x45]
    requires v == 0xEDFE
    ensures sum == Hex64(v)
  {
    var s: Bytes := [0, 0, 0, 0, 0, 0, 0xED, 0xFE];
    BytesOfSum();
    PrintedDigits(s, 0); PrintedDigits(s, 1); PrintedDigits(s, 2); PrintedDigits(s, 3);
    PrintedDigits(s, 4); PrintedDigits(s, 5); PrintedDigits(s, 6); PrintedDigits(s, 7);
  }

  lemma SumOf(sx: Bytes, sy: Bytes, x: U64, y: U64)
    requires Spells(sx, x) && Spells(sy, y)
    ensures AsksForSum(ADD + [0x20] + sx + [0x20] + sy + [], x, y)
  {
    assert AddLine(ADD + [0x20] + sx + [0x20] + sy + [], [0x20], sx, [0x20], sy, [], x, y);
  }

  lemma AddInBytes()
    ensures ADD == [0x61, 0x64, 0x64]
  {
  }

  lemma PlainParts(a: Bytes, b: Bytes, c: Bytes)
    requires Plain(a) && Plain(b) && Plain(c)
    ensures Plain(a + [0x20] + b + [0x20] + c)
  {
  }

  lemma SumTyped(line: Bytes, x: U64, y: U64, digits: Bytes, enter: Byte, rest: Bytes, others: Handlers, moment: nat)
    requires Plain(line) && |line| < 254 && (enter == 10 || enter == 13)
    requires AsksForSum(line, x, y) && digits == Hex64((x + y) % TWO_64)
    ensures Session(line + ([enter] + rest), others, moment)
         == line + [13, 10] + ((digits + [13, 10]) + ([0x3E, 0x20] + Session(rest, others, moment + 1)))
  {
    PlainGoesOn(255, line);
    TypedSum(line, x, y, enter, rest, others, moment);
  }

  lemma WordsTyped(x: Bytes, y: Bytes, vx: U64, vy: U64, sum: Bytes, enter: Byte, rest: Bytes, others: Handlers,
                   moment: nat)
    requires Spells(x, vx) && Spells(y, vy) && sum == Hex64((vx + vy) % TWO_64) && (enter == 10 || enter == 13)
    requires Plain(x) && Plain(y) && |x| < 100 && |y| < 100
    ensures var line := ADD + [0x20] + x + [0x20] + y;
      Session(line + ([enter] + rest), others, moment)
      == line + [13, 10] + ((sum + [13, 10]) + ([0x3E, 0x20] + Session(rest, others, moment + 1)))
  {
    AddInBytes();
    SumOf(x, y, vx, vy);
    PlainParts(ADD, x, y);
    var line := ADD + [0x20] + x + [0x20] + y;
    assert line + [] == line;
    SumTyped(line, vx, vy, sum, enter, rest, others, moment);
  }

  lemma ExampleValues(x: Bytes, y: Bytes, sum: Bytes) returns (vx: U64, vy: U64)
    requires x == [0x30, 0x78, 0x31, 0x32, 0x33, 0x34] && y == [0x30, 0x78, 0x64, 0x62, 0x63, 0x61]
    requires sum == [0x30, 0x30, 0x30, 0x30, 0x30, 0x30, 0x30, 0x30, 0x30, 0x30, 0x30, 0x30, 0x45, 0x44, 0x46, 0x45]
    ensures Spells(x, vx) && Spells(y, vy) && sum == Hex64((vx + vy) % TWO_64) && Plain(x) && Plain(y)
  {
    vx := FirstSpelled(x);
    vy := SecondSpelled(y);
    DigitsOfSum((vx + vy) % TWO_64, sum);
  }

  /** Typing `add 0x1234 0xdbca` and Enter prints 000000000000EDFE, and a new prompt. */
  lemma ExampleSum(add: Bytes, x: Bytes, y: Bytes, sum: Bytes, enter: Byte, rest: Bytes, others: Handlers, moment: nat)
    requires add == [0x61, 0x64, 0x64]
    requires x == [0x30, 0x78, 0x31, 0x32, 0x33, 0x34] && y == [0x30, 0x78, 0x64, 0x62, 0x63, 0x61]
    requires sum == [0x30, 0x30, 0x30, 0x30, 0x30, 0x30, 0x30, 0x30, 0x30, 0x30, 0x30, 0x30, 0x45, 0x44, 0x46, 0x45]
    requires enter == 10 || enter == 13
    ensures var line := add + [0x20] + x + [0x20] + y;
      Session(line + ([enter] + rest), others, moment)
      == line + [13, 10] + ((sum + [13, 10]) + ([0x3E, 0x20] + Session(rest, others, moment + 1)))
  {
    var vx, vy := ExampleValues(x, y, sum);
    WordsTyped(x, y, vx, vy, sum, enter, rest, others, moment);
    AddInBytes();
  }
}
