/**
 Big-endian loads (kernel/Hardware/Endian.h): the shift-and-or expressions of the
 source, their positional value, and the encoders they invert.
 */
module Endian {
  import opened Words

  /** The byte at an address, promoted to an integer. */
  function At(s: Bytes, a: nat): nat
    requires a < |s|
  {
    s[a]
  }

  function Pow256(n: nat): (p: nat)
    ensures p > 0
  {
    if n == 0 then 1 else 0x100 * Pow256(n - 1)
  }

  lemma Pow256Values()
    ensures Pow256(4) == 0x1_0000_0000 && Pow256(8) == TWO_64
  {
    assert Pow256(4) == 0x1_0000_0000;
    assert Pow256(8) == 0x100 * (0x100 * (0x100 * (0x100 * Pow256(4))));
  }

  /** Positional value of a byte string, most significant byte first. */
  function Be(s: Bytes): nat {
    if s == [] then 0 else Be(s[..|s| - 1]) * 0x100 + At(s, |s| - 1)
  }

  /** The n low bytes of a value, most significant byte first. */
  function EncBe(v: nat, n: nat): (s: Bytes)
    ensures |s| == n
  {
    if n == 0 then [] else EncBe(v / 0x100, n - 1) + [v % 0x100]
  }

  /** Reading the n-byte encoding of a value gives the value modulo 256^n. */
  lemma {:induction false} BeOfEnc(v: nat, n: nat)
    ensures Be(EncBe(v, n)) == v % Pow256(n)
    ensures v < Pow256(n) ==> Be(EncBe(v, n)) == v
  {
    if n > 0 {
      BeOfEnc(v / 0x100, n - 1);
      assert EncBe(v, n)[..n - 1] == EncBe(v / 0x100, n - 1);
      ModSplit(v, 0x100, Pow256(n - 1));
    }
    if v < Pow256(n) {
      ModUnique(v, Pow256(n), 0, v);
    }
  }

  lemma {:induction false} EncOfBe(s: Bytes)
    ensures Be(s) < Pow256(|s|)
    ensures EncBe(Be(s), |s|) == s
    decreases |s|
  {
    if s != [] {
      var init, last := s[..|s| - 1], At(s, |s| - 1);
      EncOfBe(init);
      assert Be(s) / 0x100 == Be(init) && Be(s) % 0x100 == last;
      assert s == init + [last];
    }
  }

  /** The 32-bit value of four bytes. */
  function Be32(s: Bytes, a: nat): U32
    requires a + 4 <= |s|
  {
    EncOfBe(s[a..a + 4]);
    Pow256Values();
    Be(s[a..a + 4])
  }

  /** The 64-bit value of eight bytes. */
  function Be64(s: Bytes, a: nat): U64
    requires a + 8 <= |s|
  {
    EncOfBe(s[a..a + 8]);
    Pow256Values();
    Be(s[a..a + 8])
  }

  lemma BeLast(s: Bytes, lo: nat, hi: nat)
    requires lo < hi <= |s|
    ensures Be(s[lo..hi]) == Be(s[lo..hi - 1]) * 0x100 + At(s, hi - 1)
  {
    assert s[lo..hi][..hi - 1 - lo] == s[lo..hi - 1];
  }

  lemma Be32Bytes(s: Bytes, a: nat)
    requires a + 4 <= |s|
    ensures Be32(s, a) == At(s, a) * 0x100_0000 + At(s, a + 1) * 0x1_0000 + At(s, a + 2) * 0x100 + At(s, a + 3)
  {
    BeLast(s, a, a + 4);
    BeLast(s, a, a + 3);
    BeLast(s, a, a + 2);
    BeLast(s, a, a + 1);
    assert s[a..a] == [];
  }

  lemma Be64Words(s: Bytes, a: nat)
    requires a + 8 <= |s|
    ensures Be64(s, a) == Be32(s, a) * 0x1_0000_0000 + Be32(s, a + 4)
  {
    BeLast(s, a, a + 8);
    BeLast(s, a, a + 7);
    BeLast(s, a, a + 6);
    BeLast(s, a, a + 5);
    Be32Bytes(s, a + 4);
  }

  /** read_be32_from_address: the expression in the source, in 32-bit registers. */
  function ReadBe32(mem: Bytes, address: nat): (r: U32)
    requires address + 4 <= |mem|
    ensures r == Be32(mem, address)
  {
    ReadBe32IsPositional(mem, address);
    Or(Or(Or(ShiftLeft(At(mem, address), 24, 32), ShiftLeft(At(mem, address + 1), 16, 32)),
          ShiftLeft(At(mem, address + 2), 8, 32)), At(mem, address + 3))
  }

  lemma ReadBe32IsPositional(mem: Bytes, a: nat)
    requires a + 4 <= |mem|
    ensures Or(Or(Or(ShiftLeft(At(mem, a), 24, 32), ShiftLeft(At(mem, a + 1), 16, 32)),
                  ShiftLeft(At(mem, a + 2), 8, 32)), At(mem, a + 3)) == Be32(mem, a)
  {
    Pow2Values();
    var h2 := OrByte(At(mem, a), At(mem, a + 1), 16, 32);
    var h3 := OrByte(h2, At(mem, a + 2), 8, 32);
    var h4 := OrByte(h3, At(mem, a + 3), 0, 32);
    ShiftFits(At(mem, a), 24, 32);
    ShiftFits(At(mem, a + 3), 0, 32);
    assert At(mem, a + 3) * Pow2(0) == At(mem, a + 3) && h4 * Pow2(0) == h4;
    Be32Bytes(mem, a);
  }

  /** read_be64_from_address: the expression in the source, in 64-bit registers. */
  function ReadBe64(mem: Bytes, address: nat): (r: U64)
    requires address + 8 <= |mem|
    ensures r == Be64(mem, address)
  {
    ReadBe64IsPositional(mem, address);
    Or64(mem, address)
  }

  function Or64(mem: Bytes, a: nat): nat
    requires a + 8 <= |mem|
  {
    OrLow(OrHigh(mem, a), mem, a + 4)
  }

  /** The upper four bytes of a 64-bit value. */
  function OrHigh(mem: Bytes, a: nat): nat
    requires a + 4 <= |mem|
  {
    Or(Or(Or(ShiftLeft(At(mem, a), 56, 64), ShiftLeft(At(mem, a + 1), 48, 64)), ShiftLeft(At(mem, a + 2), 40, 64)),
       ShiftLeft(At(mem, a + 3), 32, 64))
  }

  /** The lower four bytes, joined to the upper ones. */
  function OrLow(high: nat, mem: Bytes, a: nat): nat
    requires a + 4 <= |mem|
  {
    Or(Or(Or(Or(high, ShiftLeft(At(mem, a), 24, 64)), ShiftLeft(At(mem, a + 1), 16, 64)),
          ShiftLeft(At(mem, a + 2), 8, 64)), At(mem, a + 3))
  }

  lemma OrHighIsPositional(mem: Bytes, a: nat)
    requires a + 4 <= |mem|
    ensures OrHigh(mem, a) == Be32(mem, a) * Pow2(32)
  {
    Pow2Values();
    var h2 := OrByte(At(mem, a), At(mem, a + 1), 48, 64);
    var h3 := OrByte(h2, At(mem, a + 2), 40, 64);
    var h4 := OrByte(h3, At(mem, a + 3), 32, 64);
    ShiftFits(At(mem, a), 56, 64);
    Be32Bytes(mem, a);
  }

  lemma OrLowIsPositional(h: nat, high: nat, mem: Bytes, a: nat)
    requires a + 4 <= |mem| && high == h * Pow2(32)
    ensures OrLow(high, mem, a) == h * 0x1_0000_0000 + Be32(mem, a)
  {
    Pow2Values();
    var h1 := OrByte(h, At(mem, a), 24, 64);
    var h2 := OrByte(h1, At(mem, a + 1), 16, 64);
    var h3 := OrByte(h2, At(mem, a + 2), 8, 64);
    var h4 := OrByte(h3, At(mem, a + 3), 0, 64);
    ShiftFits(At(mem, a + 3), 0, 64);
    ShiftByNone(At(mem, a + 3));
    ShiftByNone(h4);
    Be32Bytes(mem, a);
    FourMore(h, At(mem, a), At(mem, a + 1), At(mem, a + 2), At(mem, a + 3));
  }

  lemma ShiftByNone(v: nat)
    ensures v * Pow2(0) == v
  {
  }

  /** Four more bytes after the value h. */
  lemma FourMore(h: nat, b0: nat, b1: nat, b2: nat, b3: nat)
    ensures (((h * 0x100 + b0) * 0x100 + b1) * 0x100 + b2) * 0x100 + b3
         == h * 0x1_0000_0000 + (b0 * 0x100_0000 + b1 * 0x1_0000 + b2 * 0x100 + b3)
  {
  }

  lemma ReadBe64IsPositional(mem: Bytes, a: nat)
    requires a + 8 <= |mem|
    ensures Or64(mem, a) == Be64(mem, a)
  {
    OrHighIsPositional(mem, a);
    OrLowIsPositional(Be32(mem, a), OrHigh(mem, a), mem, a + 4);
    Be64Words(mem, a);
  }

  /** Or-ing the next byte below the bytes already in place. */
  lemma OrByte(h: nat, b: nat, k: nat, width: nat) returns (r: nat)
    requires b < 0x100 && k + 8 <= width
    ensures r == h * 0x100 + b
    ensures Or(h * Pow2(k + 8), ShiftLeft(b, k, width)) == r * Pow2(k)
  {
    r := h * 0x100 + b;
    ByteBelow(b, k);
    Pow2Monotone(k + 8, width);
    ShiftFits(b, k, width);
    OrDisjoint(h, k + 8, b * Pow2(k));
    Regroup(h, b, Pow2(k));
  }

  lemma Regroup(h: nat, b: nat, p: nat)
    ensures h * (0x100 * p) + b * p == (h * 0x100 + b) * p
  {
  }

  lemma ByteBelow(b: nat, k: nat)
    requires b < 0x100
    ensures Pow2(k + 8) == 0x100 * Pow2(k)
    ensures b * Pow2(k) < Pow2(k + 8)
  {
    assert Pow2(k + 8) == 2 * Pow2(k + 7) == 4 * Pow2(k + 6) == 8 * Pow2(k + 5) == 16 * Pow2(k + 4);
    assert Pow2(k + 4) == 2 * Pow2(k + 3) == 4 * Pow2(k + 2) == 8 * Pow2(k + 1) == 16 * Pow2(k);
    MulLe(Pow2(k), b, 0xFF);
  }

  lemma {:induction false} Pow2Monotone(j: nat, k: nat)
    requires j <= k
    ensures Pow2(j) <= Pow2(k)
    decreases k - j
  {
    if j < k {
      Pow2Monotone(j, k - 1);
    }
  }

  /** The big-endian bytes of a 32-bit value. */
  function Enc32(v: U32): (s: Bytes)
    ensures |s| == 4
    ensures Be32(s, 0) == v
  {
    Pow256Values();
    BeOfEnc(v, 4);
    assert EncBe(v, 4)[0..4] == EncBe(v, 4);
    EncBe(v, 4)
  }

  /** The big-endian bytes of a 64-bit value. */
  function Enc64(v: U64): (s: Bytes)
    ensures |s| == 8
    ensures Be64(s, 0) == v
  {
    Pow256Values();
    BeOfEnc(v, 8);
    assert EncBe(v, 8)[0..8] == EncBe(v, 8);
    EncBe(v, 8)
  }

  /** A load sees only the four bytes at its address. */
  lemma Be32Slice(s: Bytes, lo: nat, hi: nat, a: nat)
    requires lo <= hi <= |s| && lo + a + 4 <= hi
    ensures Be32(s[lo..hi], a) == Be32(s, lo + a)
  {
    SliceOfSlice(s, lo, hi, a, a + 4);
  }

  lemma Be64Slice(s: Bytes, lo: nat, hi: nat, a: nat)
    requires lo <= hi <= |s| && lo + a + 8 <= hi
    ensures Be64(s[lo..hi], a) == Be64(s, lo + a)
  {
    SliceOfSlice(s, lo, hi, a, a + 8);
  }

  // The two loads as calls of the walkers' statements.

  method LoadBe32(mem: Bytes, address: nat) returns (v: U32)
    requires address + 4 <= |mem|
    ensures v == Be32(mem, address)
  {
    v := ReadBe32(mem, address);
  }

  method LoadBe64(mem: Bytes, address: nat) returns (v: U64)
    requires address + 8 <= |mem|
    ensures v == Be64(mem, address)
  {
    v := ReadBe64(mem, address);
  }
}
