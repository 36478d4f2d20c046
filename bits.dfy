/**
 * Machine arithmetic used by the accounting-rule parser: powers of two, the
 * width of C's `unsigned long`, and the bitwise `|`, `&` and `>>` operators on
 * natural numbers.
 */
module Bits {

  /** Values of C's `unsigned long` are taken modulo 2^64 (LP64 Linux). */
  const ULONG_MODULUS: nat := 0x1_0000_0000_0000_0000
  /** Values of C's `unsigned int` are taken modulo 2^32. */
  const UINT_MODULUS: nat := 0x1_0000_0000

  /** A value that fits an `unsigned long` is its own remainder. */
  lemma ULongFits(x: int)
    requires 0 <= x < ULONG_MODULUS
    ensures x % ULONG_MODULUS == x
  {
  }

  /** 2 to the power `k`, i.e. `1 << k`. */
  function Pow2(k: nat): (p: nat)
    ensures p >= 1
  {
    if k == 0 then 1 else 2 * Pow2(k - 1)
  }

  lemma {:induction false} Pow2Add(a: nat, b: nat)
    ensures Pow2(a + b) == Pow2(a) * Pow2(b)
  {
    if a > 0 {
      Pow2Add(a - 1, b);
      assert Pow2(a + b) == 2 * Pow2(a - 1 + b);
    }
  }

  /** Multiplying by a non-negative factor keeps order. */
  lemma MulLe(a: int, b: int, c: int)
    requires a <= b && 0 <= c
    ensures a * c <= b * c
  {
  }

  lemma {:induction false} Pow2Monotone(a: nat, b: nat)
    requires a <= b
    ensures Pow2(a) <= Pow2(b)
    decreases b
  {
    if a < b {
      Pow2Monotone(a, b - 1);
    }
  }

  /** The concrete powers the parser shifts and masks by. */
  lemma Pow2Values()
    ensures Pow2(1) == 2 && Pow2(2) == 4 && Pow2(3) == 8 && Pow2(4) == 16
    ensures Pow2(6) == 64 && Pow2(8) == 256 && Pow2(12) == 0x1000 && Pow2(13) == 0x2000
    ensures Pow2(16) == 0x1_0000 && Pow2(24) == 0x100_0000 && Pow2(32) == 0x1_0000_0000
    ensures Pow2(64) == ULONG_MODULUS
  {
    assert Pow2(1) == 2;
    assert Pow2(2) == 4;
    assert Pow2(3) == 8;
    Pow2Add(2, 2);
    Pow2Add(4, 2);
    Pow2Add(4, 4);
    Pow2Add(8, 4);
    assert Pow2(13) == 2 * Pow2(12);
    Pow2Add(8, 8);
    Pow2Add(16, 8);
    Pow2Add(16, 16);
    Pow2Add(32, 32);
  }

  /** C's `x >> k` on an unsigned value. */
  function ShiftRight(x: nat, k: nat): nat
  {
    if k == 0 then x else ShiftRight(x / 2, k - 1)
  }

  /** Bit `k` of `x` is set: `(x >> k) & 1` is 1. */
  predicate Bit(x: nat, k: nat)
  {
    ShiftRight(x, k) % 2 == 1
  }

  /** C's bitwise `x | y` on unsigned values, one binary digit at a time. */
  function BitOr(x: nat, y: nat): nat
    decreases x + y
  {
    if x == 0 then y
    else if y == 0 then x
    else 2 * BitOr(x / 2, y / 2) + (if x % 2 == 1 || y % 2 == 1 then 1 else 0)
  }

  /** C's bitwise `x & y` on unsigned values, one binary digit at a time. */
  function BitAnd(x: nat, y: nat): nat
    decreases x + y
  {
    if x == 0 || y == 0 then 0
    else 2 * BitAnd(x / 2, y / 2) + (if x % 2 == 1 && y % 2 == 1 then 1 else 0)
  }

  /** Or-ing a value into bits that are still clear is addition. */
  lemma {:induction false} BitOrDisjoint(a: nat, b: nat, k: nat)
    requires a < Pow2(k)
    ensures BitOr(a, b * Pow2(k)) == a + b * Pow2(k)
  {
    var y := b * Pow2(k);
    if k == 0 {
      assert a == 0;
    } else if a == 0 || b == 0 {
    } else {
      var h := b * Pow2(k - 1);
      assert y == 2 * h;
      assert y / 2 == h && y % 2 == 0;
      assert a / 2 < Pow2(k - 1);
      BitOrDisjoint(a / 2, b, k - 1);
      assert BitOr(a, y) == 2 * BitOr(a / 2, h) + a % 2;
    }
  }

  /** `|` of two n-bit values is an n-bit value. */
  lemma {:induction false} BitOrBound(x: nat, y: nat, n: nat)
    requires x < Pow2(n) && y < Pow2(n)
    ensures BitOr(x, y) < Pow2(n)
  {
    if x != 0 && y != 0 {
      assert n > 0;
      BitOrBound(x / 2, y / 2, n - 1);
    }
  }

  /** C's `x << k` on an unbounded value. */
  function ShiftLeft(x: nat, k: nat): nat
  {
    if k == 0 then x else 2 * ShiftLeft(x, k - 1)
  }

  /** Masking with `m << k` is masking the shifted value with `m`, shifted back. */
  lemma {:induction false} BitAndShifted(x: nat, m: nat, k: nat)
    ensures BitAnd(x, ShiftLeft(m, k)) == ShiftLeft(BitAnd(ShiftRight(x, k), m), k)
    decreases k
  {
    if k > 0 {
      var h := ShiftLeft(m, k - 1);
      BitAndShifted(x / 2, m, k - 1);
      if x != 0 && h != 0 {
        assert BitAnd(x, 2 * h) == 2 * BitAnd(x / 2, h);
      }
    }
  }

  lemma {:induction false} ShiftLeftOne(k: nat)
    ensures ShiftLeft(1, k) == Pow2(k)
  {
    if k > 0 {
      ShiftLeftOne(k - 1);
    }
  }

  lemma {:induction false} ShiftLeftZero(k: nat)
    ensures ShiftLeft(0, k) == 0
  {
    if k > 0 {
      ShiftLeftZero(k - 1);
    }
  }

  lemma {:induction false} ShiftLeftLinear(x: nat, k: nat)
    ensures ShiftLeft(x, k) == x * Pow2(k)
  {
    if k > 0 {
      ShiftLeftLinear(x, k - 1);
      assert x * Pow2(k) == 2 * (x * Pow2(k - 1));
    }
  }

  /** Masking with 1 keeps the lowest bit, masking with 3 the two lowest bits. */
  lemma LowMasks(x: nat)
    ensures BitAnd(x, 1) == x % 2
    ensures BitAnd(x, 3) == x % 4
  {
    if x != 0 {
      assert BitAnd(x, 1) == 2 * BitAnd(x / 2, 0) + x % 2;
      assert BitAnd(x / 2, 1) == (x / 2) % 2 by {
        if x / 2 != 0 {
          assert BitAnd(x / 2, 1) == 2 * BitAnd(x / 4, 0) + (x / 2) % 2;
        }
      }
      assert BitAnd(x, 3) == 2 * BitAnd(x / 2, 1) + x % 2;
    }
  }

  lemma {:induction false} ShiftRightStep(x: nat, k: nat)
    ensures ShiftRight(x, k + 1) == ShiftRight(x, k) / 2
    decreases k
  {
    if k > 0 {
      ShiftRightStep(x / 2, k - 1);
    }
  }

  /** `x & (1 << k)` is either 0 or `1 << k`, according to bit k. */
  lemma SingleBitMask(x: nat, k: nat)
    ensures BitAnd(x, Pow2(k)) == (if Bit(x, k) then Pow2(k) else 0)
  {
    BitAndShifted(x, 1, k);
    ShiftLeftOne(k);
    LowMasks(ShiftRight(x, k));
    ShiftLeftZero(k);
  }

  /** `x & (3 << k)` holds exactly bits k and k + 1 of `x`. */
  lemma DoubleBitMask(x: nat, k: nat)
    ensures BitAnd(x, 3 * Pow2(k)) ==
            ((if Bit(x, k) then 1 else 0) + (if Bit(x, k + 1) then 2 else 0)) * Pow2(k)
  {
    BitAndShifted(x, 3, k);
    ShiftLeftLinear(3, k);
    LowMasks(ShiftRight(x, k));
    ShiftRightStep(x, k);
    ShiftLeftLinear(BitAnd(ShiftRight(x, k), 3), k);
  }

  /** Euclidean quotient and remainder are unique. */
  lemma ModUnique(y: int, k: int, r: int, n: int)
    requires n > 0 && 0 <= r < n && y == k * n + r
    ensures y % n == r && y / n == k
  {
    var k', r' := y / n, y % n;
    assert y == k' * n + r';
    assert 0 <= r' < n;
    if k' < k {
      assert (k' + 1) * n == k' * n + n;
      MulLe(k' + 1, k, n);
    } else if k' > k {
      assert (k + 1) * n == k * n + n;
      MulLe(k + 1, k', n);
    }
  }

  /** Adding a multiple of the modulus does not change the remainder. */
  lemma ModAddMultiple(x: int, q: int, n: int)
    requires n > 0
    ensures (x + q * n) % n == x % n
  {
    var k := x / n;
    assert x == k * n + x % n;
    assert x + q * n == (k + q) * n + x % n;
    ModUnique(x + q * n, k + q, x % n, n);
  }

  /**
   * Reducing an `unsigned long` accumulator before the next multiply-and-add
   * step gives the same result as reducing once at the end.
   */
  lemma ULongMulAdd(a: int, m: int, d: int)
    ensures ((a % ULONG_MODULUS) * m + d) % ULONG_MODULUS == (a * m + d) % ULONG_MODULUS
  {
    var n := ULONG_MODULUS;
    var q := a / n;
    assert a == q * n + a % n;
    assert a * m + d == ((a % n) * m + d) + (q * m) * n;
    ModAddMultiple((a % n) * m + d, q * m, n);
  }
}
