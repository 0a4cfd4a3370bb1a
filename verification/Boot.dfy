/**
 Clearing .bss at boot (platform/virt/boot.s). Memory is an array of bytes, the address is the index.
 */
module Boot {
  import opened Words

  datatype Store = Store(address: nat, size: nat)

  /** The plain byte fill. */
  function Fill(memory: Bytes, from: nat, to: nat): (m: Bytes)
    requires from <= to <= |memory|
    ensures |m| == |memory|
    ensures forall k :: 0 <= k < |m| ==> m[k] == if from <= k < to then 0 else memory[k]
  {
    memory[..from] + Zeros(to - from) + memory[to..]
  }

  lemma FillAgain(memory: Bytes, a: nat, b: nat, c: nat)
    requires a <= b <= c <= |memory|
    ensures Fill(Fill(memory, a, b), b, c) == Fill(memory, a, c)
  {
  }

  /** The stores cover a range in order, each byte once. */
  ghost predicate Tiles(stores: seq<Store>, from: nat, to: nat) {
    if stores == [] then from == to
    else
      var last := stores[|stores| - 1];
      last.address + last.size == to && Tiles(stores[..|stores| - 1], from, last.address)
  }

  /** A wide store writes an aligned doubleword; the others write one byte. */
  ghost predicate Aligned(stores: seq<Store>) {
    forall k :: 0 <= k < |stores| ==> stores[k].size == 1 || (stores[k].size == 8 && stores[k].address % 8 == 0)
  }

  lemma {:induction false} TilesAreInside(stores: seq<Store>, from: nat, to: nat)
    requires Tiles(stores, from, to)
    ensures from <= to
    ensures forall k :: 0 <= k < |stores| ==> from <= stores[k].address && stores[k].address + stores[k].size <= to
    decreases |stores|
  {
    if stores != [] {
      var last := stores[|stores| - 1];
      TilesAreInside(stores[..|stores| - 1], from, last.address);
      forall k | 0 <= k < |stores|
        ensures from <= stores[k].address && stores[k].address + stores[k].size <= to
      {
        if k < |stores| - 1 {
          assert stores[k] == stores[..|stores| - 1][k];
        }
      }
    }
  }

  /** The memory after stores of zeros. */
  ghost function Replay(memory: Bytes, stores: seq<Store>): (m: Bytes)
    ensures |m| == |memory|
  {
    if stores == [] then memory
    else
      var last, before := stores[|stores| - 1], Replay(memory, stores[..|stores| - 1]);
      if last.address + last.size <= |memory| then Fill(before, last.address, last.address + last.size) else before
  }

  /** Stores that tile a range do what the byte fill does. */
  lemma {:induction false} TilesFill(memory: Bytes, stores: seq<Store>, from: nat, to: nat)
    requires Tiles(stores, from, to) && to <= |memory|
    ensures from <= to && Replay(memory, stores) == Fill(memory, from, to)
    decreases |stores|
  {
    if stores == [] {
      assert Fill(memory, from, to) == memory;
    } else {
      var last := stores[|stores| - 1];
      TilesFill(memory, stores[..|stores| - 1], from, last.address);
      FillAgain(memory, from, last.address, to);
    }
  }

  /** The number of one-byte stores. */
  ghost function Narrow(stores: seq<Store>): nat {
    if stores == [] then 0
    else Narrow(stores[..|stores| - 1]) + if stores[|stores| - 1].size == 1 then 1 else 0
  }

  lemma OneMore(stores: seq<Store>, s: Store)
    ensures (stores + [s])[..|stores|] == stores
  {
  }

  /** Memory, with the stores made so far. */
  class Ram {
    const cells: array<Byte>
    ghost var stores: seq<Store>

    constructor (cells: array<Byte>)
      ensures this.cells == cells && stores == []
    {
      this.cells := cells;
      stores := [];
    }

    /** strb wzr, [a] */
    method StoreByte(a: nat)
      requires a < cells.Length
      modifies cells, this`stores
      ensures cells[..] == Fill(old(cells[..]), a, a + 1) && stores == old(stores) + [Store(a, 1)]
    {
      cells[a] := 0;
      stores := stores + [Store(a, 1)];
    }

    /** str xzr, [a] */
    method StoreDouble(a: nat)
      requires a % 8 == 0 && a + 8 <= cells.Length
      modifies cells, this`stores
      ensures cells[..] == Fill(old(cells[..]), a, a + 8) && stores == old(stores) + [Store(a, 8)]
    {
      forall k | a <= k < a + 8 {
        cells[k] := 0;
      }
      stores := stores + [Store(a, 8)];
    }

    /** The state between two stores: everything from `from` to `to` has been cleared. */
    ghost predicate ClearedTo(memory: Bytes, from: nat, to: nat, narrow: nat)
      reads this, cells
    {
      && from <= to <= cells.Length == |memory|
      && Tiles(stores, from, to) && Aligned(stores) && Narrow(stores) <= narrow
      && cells[..] == Fill(memory, from, to)
    }

    method ClearByte(a: nat, ghost memory: Bytes, ghost from: nat, ghost narrow: nat)
      requires a < cells.Length && ClearedTo(memory, from, a, narrow)
      modifies cells, this`stores
      ensures ClearedTo(memory, from, a + 1, narrow + 1)
    {
      StoreByte(a);
      OneMore(old(stores), Store(a, 1));
      FillAgain(memory, from, a, a + 1);
    }

    method ClearDouble(a: nat, ghost memory: Bytes, ghost from: nat, ghost narrow: nat)
      requires a % 8 == 0 && a + 8 <= cells.Length && ClearedTo(memory, from, a, narrow)
      modifies cells, this`stores
      ensures ClearedTo(memory, from, a + 8, narrow)
    {
      StoreDouble(a);
      OneMore(old(stores), Store(a, 8));
      FillAgain(memory, from, a, a + 8);
    }

    /** Label 2: single bytes up to an aligned address or the end. */
    method ClearHead(bssStart: nat, x6: nat, ghost memory: Bytes) returns (x5: nat)
      requires bssStart < x6 <= cells.Length && ClearedTo(memory, bssStart, bssStart, 0)
      modifies cells, this`stores
      ensures bssStart <= x5 <= x6 && (x5 == x6 || x5 % 8 == 0)
      ensures ClearedTo(memory, bssStart, x5, 7)
    {
      x5 := bssStart;
      ghost var n: nat := 0;
      var aligned := LowBitsClear(x5);
      while x5 < x6 && !aligned
        invariant x5 == bssStart + n <= x6 && n <= if bssStart % 8 == 0 then 0 else 8 - bssStart % 8
        invariant aligned <==> x5 % 8 == 0
        invariant ClearedTo(memory, bssStart, x5, n)
      {
        ClearByte(x5, memory, bssStart, n);
        x5, n := x5 + 1, n + 1;
        aligned := LowBitsClear(x5);
      }
      NarrowAtMost(memory, bssStart, x5, n, 7);
    }

    lemma NarrowAtMost(memory: Bytes, from: nat, to: nat, n: nat, m: nat)
      requires n <= m && ClearedTo(memory, from, to, n)
      ensures ClearedTo(memory, from, to, m)
    {
    }

    /** Labels 3 and 4: doublewords while eight bytes remain. */
    method ClearBulk(head: nat, x6: nat, ghost memory: Bytes, ghost from: nat) returns (x5: nat)
      requires head <= x6 <= cells.Length && (head == x6 || head % 8 == 0) && ClearedTo(memory, from, head, 7)
      modifies cells, this`stores
      ensures head <= x5 <= x6 < x5 + 8 && ClearedTo(memory, from, x5, 7)
    {
      x5 := head;
      var x7: nat := x6 - x5;
      while x7 >= 8
        invariant head <= x5 <= x6 && x7 == x6 - x5 && (x7 == 0 || x5 % 8 == 0)
        invariant ClearedTo(memory, from, x5, 7)
      {
        ClearDouble(x5, memory, from, 7);
        x5, x7 := x5 + 8, x7 - 8;
      }
    }

    /** Label 5: the bytes that are left. */
    method ClearTail(bulk: nat, x6: nat, ghost memory: Bytes, ghost from: nat)
      requires bulk <= x6 < bulk + 8 && x6 <= cells.Length && ClearedTo(memory, from, bulk, 7)
      modifies cells, this`stores
      ensures ClearedTo(memory, from, x6, 14)
    {
      var x5 := bulk;
      while x5 < x6
        invariant bulk <= x5 <= x6
        invariant ClearedTo(memory, from, x5, 7 + (x5 - bulk))
      {
        ClearByte(x5, memory, from, 7 + (x5 - bulk));
        x5 := x5 + 1;
      }
    }

    /** Labels 2 to 6. Every store is inside the range and aligned, each byte is written once, and at
        most 14 of the stores are single bytes. */
    method ClearBss(bssStart: U64, bssEnd: U64)
      requires stores == [] && bssEnd <= cells.Length
      modifies cells, this`stores
      ensures bssStart >= bssEnd ==> stores == [] && cells[..] == old(cells[..])
      ensures bssStart < bssEnd ==>
        && cells[..] == Fill(old(cells[..]), bssStart, bssEnd)
        && Tiles(stores, bssStart, bssEnd) && Aligned(stores) && Narrow(stores) <= 14
    {
      if bssStart >= bssEnd {
        return;
      }
      ghost var memory := cells[..];
      assert Fill(memory, bssStart, bssStart) == memory;
      var x5 := ClearHead(bssStart, bssEnd, memory);
      x5 := ClearBulk(x5, bssEnd, memory, bssStart);
      ClearTail(x5, bssEnd, memory, bssStart);
    }
  }

  /** tst a, #7 */
  method LowBitsClear(a: nat) returns (clear: bool)
    ensures clear <==> a % 8 == 0
  {
    assert Pow2(3) == 8;
    AndMask(a, 3);
    clear := And(a, 7) == 0;
  }
}
