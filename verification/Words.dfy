/**
 Machine words of the kernel's target, as bounded integers, with the C operators
 `<<`, `|` and `&` defined on their binary digits.
 */
module Words {

  type Byte = x: int | 0 <= x < 0x100
  type U32 = x: int | 0 <= x < 0x1_0000_0000
  type U64 = x: int | 0 <= x < TWO_64

  type Bytes = seq<Byte>

  const TWO_64 := 0x1_0000_0000_0000_0000

  datatype Option<+T> = None | Some(value: T)

  function Zeros(n: nat): (z: Bytes)
    ensures |z| == n && forall k :: 0 <= k < n ==> z[k] == 0
  {
    seq(n, _ => 0)
  }

  lemma Assoc<T>(a: seq<T>, b: seq<T>, c: seq<T>)
    ensures (a + b) + c == a + (b + c)
  {
  }

  function Pow2(k: nat): (p: nat)
    ensures p > 0
  {
    if k == 0 then 1 else 2 * Pow2(k - 1)
  }

  /** Bitwise or. */
  function Or(a: nat, b: nat): nat
  {
    if a == 0 then b else if b == 0 then a
    else 2 * Or(a / 2, b / 2) + (if a % 2 == 1 || b % 2 == 1 then 1 else 0)
  }

  /** Bitwise and. */
  function And(a: nat, b: nat): nat
  {
    if a == 0 || b == 0 then 0
    else 2 * And(a / 2, b / 2) + (if a % 2 == 1 && b % 2 == 1 then 1 else 0)
  }

  /** `a << k` in a register of `width` bits: the bits pushed out at the top are lost. */
  function ShiftLeft(a: nat, k: nat, width: nat): nat
  {
    (a * Pow2(k)) % Pow2(width)
  }

  /** `a >> k`. */
  function ShiftRight(a: nat, k: nat): nat
  {
    if k == 0 then a else ShiftRight(a / 2, k - 1)
  }

  /** Or-ing a value below 2^k into a word whose low k bits are clear is addition. */
  lemma {:induction false} OrDisjoint(hi: nat, k: nat, lo: nat)
    requires lo < Pow2(k)
    ensures Or(hi * Pow2(k), lo) == hi * Pow2(k) + lo
    decreases k
  {
    var a := hi * Pow2(k);
    if k == 0 || a == 0 || lo == 0 {
      assert k == 0 ==> lo == 0;
    } else {
      var h := hi * Pow2(k - 1);
      assert a == 2 * h by { assert Pow2(k) == 2 * Pow2(k - 1); }
      OrDisjoint(hi, k - 1, lo / 2);
    }
  }

  /** And-ing with a mask of k ones keeps the k low bits. */
  lemma {:induction false} AndMask(a: nat, k: nat)
    ensures And(a, Pow2(k) - 1) == a % Pow2(k)
    decreases k
  {
    if k > 0 && a > 0 {
      var p := Pow2(k - 1);
      var mask := 2 * p - 1;
      assert mask / 2 == p - 1 && mask % 2 == 1;
      AndMask(a / 2, k - 1);
      ModHalves(a, p);
    } else if a == 0 {
      ModUnique(0, Pow2(k), 0, 0);
    }
  }

  lemma ModHalves(a: nat, p: nat)
    requires p > 0
    ensures a % (2 * p) == 2 * ((a / 2) % p) + a % 2
  {
    ModSplit(a, 2, p);
  }

  /** A remainder modulo a product, digit by digit. */
  lemma ModSplit(a: nat, b: nat, p: nat)
    requires p > 0 && b > 0
    ensures b * p > 0 && a % (b * p) == b * ((a / b) % p) + a % b
  {
    Division(a, b);
    Division(a / b, p);
    MulLe(b, 1, p);
    ModOfDigits(a, b, p, a / b, a % b, a / b / p, a / b % p);
  }

  lemma Division(a: nat, m: nat)
    requires m > 0
    ensures a == m * (a / m) + a % m && a % m < m
  {
  }

  lemma ModOfDigits(a: nat, b: nat, p: nat, u: nat, d: nat, q: nat, r: nat)
    requires a == b * u + d && d < b && u == p * q + r && r < p && b * p > 0
    ensures a % (b * p) == b * r + d && a / (b * p) == q
  {
    MulLe(b, r + 1, p);
    MulLe(b, r, r);
    Spread(b, p, q, r);
    ModUnique(a, b * p, q, b * r + d);
  }

  lemma Spread(b: nat, p: nat, q: nat, r: nat)
    ensures b * (p * q + r) == (b * p) * q + b * r
  {
    assert b * (p * q + r) == b * (p * q) + b * r;
    assert b * (p * q) == (b * p) * q;
  }

  /** Quotient and remainder are unique. */
  lemma ModUnique(a: nat, m: nat, q: nat, r: nat)
    requires m > 0 && r < m && a == m * q + r
    ensures a % m == r && a / m == q
  {
    var q', r' := a / m, a % m;
    assert a == m * q' + r' && r' < m;
    if q' < q {
      MulLe(m, q' + 1, q);
    } else if q < q' {
      MulLe(m, q + 1, q');
    }
  }

  lemma MulLe(m: nat, x: nat, y: nat)
    requires x <= y
    ensures m * x <= m * y
    ensures m * (x + 1) == m * x + m
  {
  }

  /** Nothing is lost when the shifted value still fits the register. */
  lemma ShiftFits(a: nat, k: nat, width: nat)
    requires a * Pow2(k) < Pow2(width)
    ensures ShiftLeft(a, k, width) == a * Pow2(k)
  {
    ModUnique(a * Pow2(k), Pow2(width), 0, a * Pow2(k));
  }

  /** `n` copies of `size` laid end to end: the product as repeated addition, which inductions over pieces
      follow without non-linear arithmetic. TimesIsProduct ties it to `*`. */
  function Times(n: nat, size: nat): nat {
    if n == 0 then 0 else size + Times(n - 1, size)
  }

  lemma {:induction false} TimesIsProduct(n: nat, size: nat)
    ensures Times(n, size) == n * size
  {
    if n > 0 {
      TimesIsProduct(n - 1, size);
    }
  }

  /** What is left of n after taking away whole sizes. LeftoverIsRemainder ties it to `%`. */
  function Leftover(n: nat, size: nat): nat
    requires size > 0
  {
    if n < size then n else Leftover(n - size, size)
  }

  lemma {:induction false} LeftoverIsRemainder(n: nat, size: nat)
    requires size > 0
    ensures Leftover(n, size) == n % size
  {
    if n < size {
      ModUnique(n, size, 0, n);
    } else {
      LeftoverIsRemainder(n - size, size);
      var q := (n - size) / size;
      assert n - size == size * q + (n - size) % size;
      MulLe(size, q, q);
      ModUnique(n, size, q + 1, (n - size) % size);
    }
  }

  lemma {:induction false} TimesSplit(k: nat, n: nat, size: nat)
    requires k <= n
    ensures Times(n, size) == Times(k, size) + Times(n - k, size)
  {
    if k > 0 {
      TimesSplit(k - 1, n - 1, size);
    }
  }

  lemma SliceOfSlice<T>(s: seq<T>, lo: nat, hi: nat, a: nat, b: nat)
    requires a <= b && lo + b <= hi <= |s|
    ensures s[lo..hi][a..b] == s[lo + a..lo + b]
  {
    var inner, direct := s[lo..hi][a..b], s[lo + a..lo + b];
    assert forall i :: 0 <= i < b - a ==> inner[i] == direct[i];
  }

  lemma {:induction false} ShiftRightDivides(a: nat, k: nat)
    ensures ShiftRight(a, k) == a / Pow2(k)
    decreases k
  {
    if k > 0 {
      ShiftRightDivides(a / 2, k - 1);
      DivideTwice(a, Pow2(k - 1));
    }
  }

  lemma DivideTwice(a: nat, p: nat)
    requires p > 0
    ensures a / (2 * p) == a / 2 / p
  {
    Division(a, 2);
    Division(a / 2, p);
    ModOfDigits(a, 2, p, a / 2, a % 2, a / 2 / p, a / 2 % p);
  }

  lemma Pow2Values()
    ensures Pow2(4) == 16 && Pow2(8) == 0x100 && Pow2(16) == 0x1_0000 && Pow2(24) == 0x100_0000
    ensures Pow2(32) == 0x1_0000_0000 && Pow2(40) == 0x100_0000_0000 && Pow2(48) == 0x1_0000_0000_0000
    ensures Pow2(56) == 0x100_0000_0000_0000 && Pow2(64) == TWO_64
  {
    assert Pow2(4) == 16;
    assert Pow2(8) == 0x100;
    assert Pow2(16) == 0x1_0000;
    assert Pow2(24) == 0x100_0000;
    assert Pow2(32) == 0x1_0000_0000;
  }
}
