/** Unsigned 64-bit arithmetic as C performs it on uint64_t: every result is
    reduced modulo 2^64, and a signed operand is converted by the same
    reduction. Dafny's `%` is Euclidean, so `Wrap` of a negative integer is
    exactly C's conversion of that value to uint64_t. */
module Uint64 {

  const MODULUS: int := 0x1_0000_0000_0000_0000

  /** uint64_t and size_t on x86-64. */
  type U64 = x: int | 0 <= x < MODULUS

  /** int64_t, time_t and long on x86-64. */
  type I64 = x: int | -0x8000_0000_0000_0000 <= x < 0x8000_0000_0000_0000

  /** Conversion of any integer value to uint64_t. */
  function Wrap(x: int): (r: U64)
    ensures 0 <= x < MODULUS ==> r == x
  {
    x % MODULUS
  }

  /** `a + b` on uint64_t. */
  function Add(a: U64, b: U64): U64 { Wrap(a + b) }

  /** `a - b` on uint64_t. */
  function Sub(a: U64, b: U64): U64 { Wrap(a - b) }

  /** `a * b` on uint64_t. */
  function Mul(a: U64, b: U64): U64 { Wrap(a * b) }

  /** Division with remainder has a unique remainder. */
  lemma ModUnique(x: int, q: int, r: int)
    requires 0 <= r < MODULUS && x == q * MODULUS + r
    ensures Wrap(x) == r
  {
    var d := q - x / MODULUS;
    assert d * MODULUS == x % MODULUS - r;
  }

  /** Adding a multiple of 2^64 does not change the uint64_t value. */
  lemma WrapShift(x: int, q: int)
    ensures Wrap(x + q * MODULUS) == Wrap(x)
  {
    var d := x / MODULUS;
    assert x + q * MODULUS == (d + q) * MODULUS + x % MODULUS;
    ModUnique(x + q * MODULUS, d + q, x % MODULUS);
  }

  /** Reducing an addend first gives the same uint64_t sum. */
  lemma WrapAddLeft(x: int, y: int)
    ensures Wrap(Wrap(x) + y) == Wrap(x + y)
  {
    assert Wrap(x) + y == (x + y) + (-(x / MODULUS)) * MODULUS;
    WrapShift(x + y, -(x / MODULUS));
  }

  /** Adding to an already reduced sum keeps it the reduced exact sum. */
  lemma AddToReduced(a: U64, x: int, y: U64)
    requires a == Wrap(x)
    ensures Add(a, y) == Wrap(x + y)
  {
    WrapAddLeft(x, y);
  }

  /** Reducing a factor first gives the same uint64_t product. */
  lemma WrapMulLeft(x: int, y: int)
    ensures Wrap(Wrap(x) * y) == Wrap(x * y)
  {
    var q := x / MODULUS;
    assert Wrap(x) == x - q * MODULUS;
    calc {
      Wrap(x) * y;
      (x - q * MODULUS) * y;
      x * y + (-(q * y)) * MODULUS;
    }
    WrapShift(x * y, -(q * y));
  }

  /** Reducing before a multiply-add gives the same uint64_t result. */
  lemma WrapMulAddLeft(x: int, k: int, d: int)
    ensures Wrap(Wrap(x) * k + d) == Wrap(x * k + d)
  {
    var q := x / MODULUS;
    assert Wrap(x) == x - q * MODULUS;
    calc {
      Wrap(x) * k + d;
      (x - q * MODULUS) * k + d;
      (x * k + d) + (-(q * k)) * MODULUS;
    }
    WrapShift(x * k + d, -(q * k));
  }

  /** A uint64_t sum, difference or product of converted operands is the
      mathematical result reduced once at the end. */
  lemma WrapAdd(x: int, y: int)
    ensures Add(Wrap(x), Wrap(y)) == Wrap(x + y)
  {
    WrapAddLeft(x, Wrap(y));
    WrapAddLeft(y, x);
  }

  lemma WrapSub(x: int, y: int)
    ensures Sub(Wrap(x), Wrap(y)) == Wrap(x - y)
  {
    var minusY: int := 0 - (Wrap(y) as int);
    WrapAddLeft(x, minusY);
    assert x - Wrap(y) == (x - y) + (y / MODULUS) * MODULUS;
    WrapShift(x - y, y / MODULUS);
  }

  lemma WrapMul(x: int, y: int)
    ensures Mul(Wrap(x), Wrap(y)) == Wrap(x * y)
  {
    WrapMulLeft(x, Wrap(y));
    WrapMulLeft(y, x);
  }
}
