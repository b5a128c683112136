/**
 Fixed-width machine integers, as the release build computes them.

 Values are mathematical integers restricted to a width; every operation that can
 leave the width says explicitly what happens: `Wrap32`/`Wrap64` for the wrapping
 operators, `Checked*`, `Saturating*` and `Unbounded*` for the methods of that name.
 */
module Machine {
  import opened Wrappers

  type u8 = x: int | 0 <= x < 0x100
  type u16 = x: int | 0 <= x < 0x1_0000
  type u32 = x: int | 0 <= x < 0x1_0000_0000
  type u64 = x: int | 0 <= x < 0x1_0000_0000_0000_0000
  type i32 = x: int | -0x8000_0000 <= x < 0x8000_0000
  type i64 = x: int | -0x8000_0000_0000_0000 <= x < 0x8000_0000_0000_0000

  // ----- Wrapping and casts

  function Wrap32(x: int): u32 {
    x % 0x1_0000_0000
  }

  function Wrap64(x: int): u64 {
    x % 0x1_0000_0000_0000_0000
  }

  /** `x as i32` for an unsigned 32-bit `x`: two's complement reinterpretation. */
  function AsI32(x: u32): i32 {
    if x < 0x8000_0000 then x else x - 0x1_0000_0000
  }

  /** `x as i64` for an unsigned 64-bit `x`. */
  function AsI64(x: u64): i64 {
    if x < 0x8000_0000_0000_0000 then x else x - 0x1_0000_0000_0000_0000
  }

  // ----- Powers of two, shifts and masks

  function Pow2(n: nat): (r: nat)
    ensures r > 0
  {
    if n == 0 then 1 else 2 * Pow2(n - 1)
  }

  /** `x >> k` on unsigned values: `k` times the lowest bit is dropped. */
  function ShiftRight(x: nat, k: nat): (r: nat)
    ensures r <= x
    decreases k + x
  {
    if k == 0 then x else ShiftRight(x / 2, k - 1)
  }

  /** Bitwise conjunction, defined bit by bit from the least significant end. */
  function BitAnd(x: nat, y: nat): nat
    decreases x
  {
    if x == 0 || y == 0 then 0 else (if x % 2 == 1 && y % 2 == 1 then 1 else 0) + 2 * BitAnd(x / 2, y / 2)
  }

  function SaturatingSub(a: u32, b: u32): u32 {
    if a < b then 0 else a - b
  }

  function CheckedSub(a: u32, b: u32): Option<u32> {
    if a < b then None else Some(a - b)
  }

  function CheckedMul(a: u32, b: u32): Option<u32> {
    if a * b < 0x1_0000_0000 then
      ProductNonNegative(a, b);
      Some(a * b)
    else
      None
  }

  /** `checked_shr`: refuses a shift by the full width or more. */
  function CheckedShr(x: u32, k: u32): Option<u32> {
    if k < 32 then Some(ShiftRight(x, k)) else None
  }

  /** `unbounded_shr`: a shift by the full width or more gives 0. */
  function UnboundedShr(x: u32, k: u32): u32 {
    if k < 32 then ShiftRight(x, k) else 0
  }

  /** `unbounded_shl`: bits shifted past the top are lost. */
  function UnboundedShl(x: u32, k: u32): u32 {
    if k < 32 then Wrap32(x * Pow2(k)) else 0
  }

  // ----- Arithmetic lemmas

  lemma MulMonotone(a: int, b: int, d: nat)
    requires a <= b
    ensures a * d <= b * d
  {}

  lemma ProductNonNegative(a: nat, b: nat)
    ensures a * b >= 0
  {}

  lemma DivShrinks(x: nat, d: nat)
    requires d > 0
    ensures 0 <= x / d <= x
  {
    var q := x / d;
    if q < 0 {
      MulMonotone(q, -1, d);
    } else {
      MulMonotone(1, d, q);
    }
  }

  /** Quotient and remainder are determined by the division equation. */
  lemma DivModUnique(x: int, d: int, q: int, r: int)
    requires x == q * d + r && 0 <= r < d
    ensures x / d == q && x % d == r
  {
    var q', r' := x / d, x % d;
    assert x == q' * d + r';
    if q < q' {
      MulMonotone(q + 1, q', d);
    } else if q' < q {
      MulMonotone(q' + 1, q, d);
    }
  }

  lemma DivBound(x: nat, hi: nat, lo: nat)
    requires lo > 0 && x < hi * lo
    ensures 0 <= x / lo < hi
    ensures x == (x / lo) * lo + x % lo
  {}

  /** Dividing in two stages: the digit in base `m` above `d`. */
  lemma DivSplit(x: nat, d: nat, m: nat)
    requires d > 0 && m > 0
    ensures d * m > 0 && x / d == (x / (d * m)) * m + (x / d) % m
  {
    MulMonotone(1, d, m);
    var q, r := x / (d * m), x % (d * m);
    DivBound(r, m, d) by { assert m * d == d * m; }
    assert q * (d * m) == (q * m) * d;
    var a := r / d;
    assert (q * m + a) * d == (q * m) * d + a * d;
    DivModUnique(x, d, q * m + a, r % d);
    DivModUnique(q * m + a, m, q, a);
  }

  /** A remainder may be taken in two stages. */
  lemma ModMod(x: nat, d: nat, m: nat)
    requires d > 0 && m > 0
    ensures d * m > 0 && x % (d * m) % d == x % d
  {
    DivSplit(x, d, m);
    var q, r := x / (d * m), x % (d * m);
    assert x == q * (d * m) + r;
    assert r == (r / d) * d + r % d;
    assert (q * m + r / d) * d == q * (d * m) + (r / d) * d;
    DivModUnique(x, d, q * m + r / d, r % d);
  }

  lemma DivStep(x: int, d: nat)
    requires d > 0
    ensures x / d - (x - 1) / d == if x % d == 0 then 1 else 0
  {
    var q, r := x / d, x % d;
    if r == 0 {
      assert x - 1 == (q - 1) * d + (d - 1) by { assert (q - 1) * d == q * d - d; }
      DivModUnique(x - 1, d, q - 1, d - 1);
    } else {
      DivModUnique(x - 1, d, q, r - 1);
    }
  }

  /** Two-digit numbers in base `m` are ordered by their high digit, then their low one. */
  lemma LexOrder(q: int, r: nat, q': int, r': nat, m: nat)
    requires r < m && r' < m
    ensures q * m + r < q' * m + r' <==> q < q' || (q == q' && r < r')
    ensures q * m + r == q' * m + r' <==> q == q' && r == r'
  {
    if q < q' {
      MulMonotone(q + 1, q', m);
    } else if q' < q {
      MulMonotone(q' + 1, q, m);
    }
  }

  lemma MulAssociative(a: int, b: int, c: int)
    ensures a * (b * c) == (a * b) * c
  {}

  lemma {:induction false} Pow2Add(a: nat, b: nat)
    ensures Pow2(a + b) == Pow2(a) * Pow2(b)
  {
    if a > 0 {
      Pow2Add(a - 1, b);
      MulAssociative(2, Pow2(a - 1), Pow2(b));
    }
  }

  lemma {:induction false} Pow2Monotone(a: nat, b: nat)
    requires a <= b
    ensures Pow2(a) <= Pow2(b)
  {
    if a < b {
      Pow2Monotone(a, b - 1);
    }
  }

  /** The powers of two that appear as literals in field layouts. */
  lemma Pow2Values()
    ensures Pow2(0) == 1
    ensures Pow2(5) == 0x20
    ensures Pow2(6) == 0x40
    ensures Pow2(7) == 0x80
    ensures Pow2(9) == 0x200
    ensures Pow2(10) == 0x400
    ensures Pow2(12) == 0x1000
    ensures Pow2(16) == 0x1_0000
    ensures Pow2(20) == 0x10_0000
    ensures Pow2(25) == 0x200_0000
    ensures Pow2(30) == 0x4000_0000
    ensures Pow2(31) == 0x8000_0000
    ensures Pow2(32) == 0x1_0000_0000
    ensures Pow2(36) == 0x10_0000_0000
    ensures Pow2(42) == 0x400_0000_0000
    ensures Pow2(47) == 0x8000_0000_0000
    ensures Pow2(56) == 0x100_0000_0000_0000
  {
    assert Pow2(4) == 16;
    assert Pow2(5) == 32 && Pow2(6) == 64 && Pow2(7) == 128 && Pow2(9) == 512;
    assert Pow2(10) == 1024 && Pow2(11) == 2048 && Pow2(12) == 4096;
    Pow2Add(10, 6);
    Pow2Add(10, 10);
    Pow2Add(20, 5);
    Pow2Add(20, 10);
    Pow2Add(20, 11);
    Pow2Add(16, 16);
    Pow2Add(30, 6);
    Pow2Add(36, 6);
    Pow2Add(42, 5);
    Pow2Add(47, 9);
  }

  lemma ModDouble(x: nat, m: nat)
    requires m > 0
    ensures x % (2 * m) == x % 2 + 2 * ((x / 2) % m)
  {
    var q, r := (x / 2) / m, (x / 2) % m;
    assert x / 2 == q * m + r;
    assert x == q * (2 * m) + (2 * r + x % 2);
    DivModUnique(x, 2 * m, q, 2 * r + x % 2);
  }

  /** Dropping `k` bits is dividing by `2^k`. */
  lemma {:induction false} ShiftIsDivision(x: nat, k: nat)
    ensures ShiftRight(x, k) == x / Pow2(k)
  {
    if k > 0 {
      var m := Pow2(k - 1);
      ShiftIsDivision(x / 2, k - 1);
      DivSplit(x, 2, m);
      DivModUnique(x / 2, m, x / (2 * m), x / 2 % m);
    }
  }

  lemma BitAndEven(x: nat, y: nat)
    ensures BitAnd(x, 2 * y) == 2 * BitAnd(x / 2, y)
  {
    DivModUnique(2 * y, 2, y, 0);
    assert x == 0 ==> x / 2 == 0;
  }

  /** Masking with `n` low ones keeps the remainder modulo `2^n`. */
  lemma {:induction false} BitAndLowOnes(x: nat, n: nat)
    ensures BitAnd(x, Pow2(n) - 1) == x % Pow2(n)
  {
    if n == 0 {
      assert Pow2(0) == 1;
    } else if x == 0 {
    } else {
      var y, h := Pow2(n) - 1, Pow2(n - 1);
      assert y == 2 * (h - 1) + 1;
      DivModUnique(y, 2, h - 1, 1);
      BitAndLowOnes(x / 2, n - 1);
      ModDouble(x, h);
    }
  }
}
