/**
 * The fixed-width integers of <stdint.h> that the table, the vector and the
 * chunk list are built from, the casts between them, and the integer
 * replacements for the `pow(2., ceil(log2(x)))` and `floor(log2(x))`
 * sizing expressions.
 *
 * Words are bounded integers: an unsigned shift left by `n` is a product with
 * `2^n` reduced modulo the word size, a shift right is a division by `2^n`,
 * and each cast is written out as the arithmetic the C standard gives it.
 */
module MachineWords {

  const TWO_31: int := 0x8000_0000
  const TWO_32: int := 0x1_0000_0000
  const TWO_63: int := 0x8000_0000_0000_0000
  const TWO_64: int := 0x1_0000_0000_0000_0000

  type int32 = x: int | -0x8000_0000 <= x < 0x8000_0000
  type uint32 = x: int | 0 <= x < 0x1_0000_0000
  type int64 = x: int | -0x8000_0000_0000_0000 <= x < 0x8000_0000_0000_0000
  type uint64 = x: int | 0 <= x < 0x1_0000_0000_0000_0000

  /**
   * The `Generic` union of generic.h and vector.h, seen through its `.unsig`
   * view; the `.sig` view of the same cell is `AsSigned64`, and a cell written
   * through `.sig` holds `AsUnsigned64` of the value. The pointer view is not
   * used by the table or the chunk list.
   */
  type Generic = uint64

  /** `(uint32_t)x`: the one 32-bit value congruent to `x` modulo 2^32. */
  function AsUnsigned32(x: int32): (u: uint32)
    ensures (x - u) % TWO_32 == 0
    ensures 0 <= x ==> u == x
  {
    x % TWO_32
  }

  /**
   * `(int32_t)u`: the two's-complement reading of a 32-bit pattern, which
   * GCC and Clang define for patterns above `INT32_MAX` (C11 leaves that
   * case to the implementation).
   */
  function AsSigned32(u: uint32): (x: int32)
    ensures (u - x) % TWO_32 == 0
    ensures x < 0 <==> u >= TWO_31
  {
    if u < TWO_31 then u else u - TWO_32
  }

  /** `(uint64_t)x` for a signed 64-bit (or narrower, sign-extended) value. */
  function AsUnsigned64(x: int64): (u: uint64)
    ensures (x - u) % TWO_64 == 0
    ensures 0 <= x ==> u == x
  {
    x % TWO_64
  }

  /** `(int64_t)u`: the two's-complement reading of a 64-bit pattern, as GCC and Clang define it. */
  function AsSigned64(u: uint64): (x: int64)
    ensures (u - x) % TWO_64 == 0
    ensures x < 0 <==> u >= TWO_63
  {
    if u < TWO_63 then u else u - TWO_64
  }

  lemma Signed32RoundTrip(x: int32, u: uint32)
    ensures AsSigned32(AsUnsigned32(x)) == x
    ensures AsUnsigned32(AsSigned32(u)) == u
  {
  }

  function Pow2(e: nat): (r: nat)
    ensures r >= 1
  {
    if e == 0 then 1 else 2 * Pow2(e - 1)
  }

  lemma {:induction false} Pow2Add(a: nat, b: nat)
    ensures Pow2(a + b) == Pow2(a) * Pow2(b)
  {
    if a > 0 {
      Pow2Add(a - 1, b);
      assert Pow2(a + b) == 2 * Pow2(a - 1 + b);
      Doubling(Pow2(a - 1), Pow2(b));
    }
  }

  lemma Doubling(x: nat, y: nat)
    ensures 2 * (x * y) == (2 * x) * y
  {
  }

  lemma {:induction false} Pow2Monotone(a: nat, b: nat)
    requires a <= b
    ensures Pow2(a) <= Pow2(b)
  {
    if a < b {
      Pow2Monotone(a, b - 1);
    }
  }

  /** 2^32, 2^63 and 2^64, computed by squaring from 2^8 so that no long unfolding of `Pow2` is needed. */
  lemma Pow2WordSizes()
    ensures Pow2(32) == TWO_32 && Pow2(63) == TWO_63 && Pow2(64) == TWO_64
  {
    Pow2Of32();
    Pow2Add(32, 32);
    assert Pow2(64) == 2 * Pow2(63);
  }

  lemma Pow2Of32()
    ensures Pow2(32) == TWO_32
  {
    Pow2Of16();
    Pow2Add(16, 16);
  }

  lemma Pow2Of16()
    ensures Pow2(16) == 0x1_0000
  {
    assert Pow2(8) == 256;
    Pow2Add(8, 8);
  }

  /** n is 1, 2, 4, 8, ... */
  predicate IsPowerOfTwo(n: nat) {
    n == 1 || (n >= 2 && n % 2 == 0 && IsPowerOfTwo(n / 2))
  }

  lemma {:induction false} Pow2IsPowerOfTwo(e: nat)
    ensures IsPowerOfTwo(Pow2(e))
  {
    if e > 0 {
      Pow2IsPowerOfTwo(e - 1);
      assert Pow2(e) / 2 == Pow2(e - 1);
    }
  }

  lemma DoublePowerOfTwo(n: nat)
    ensures IsPowerOfTwo(n) ==> IsPowerOfTwo(2 * n)
  {
  }

  /** ceil(log2(n)) for n >= 1, and 0 for n == 0. */
  function Log2Ceil(n: nat): nat {
    if n <= 1 then 0 else 1 + Log2Ceil((n + 1) / 2)
  }

  /** floor(log2(n)) for n >= 1, and 0 for n == 0. */
  function Log2Floor(n: nat): nat {
    if n <= 1 then 0 else 1 + Log2Floor(n / 2)
  }

  /** 2^ceil(log2(n)): the power of two that `pow(2., ceil(log2(n)))` yields for n >= 1. */
  function NextPow2(n: nat): nat {
    Pow2(Log2Ceil(n))
  }

  lemma {:induction false} Log2CeilCovers(n: nat)
    ensures n <= Pow2(Log2Ceil(n))
  {
    if n > 1 {
      Log2CeilCovers((n + 1) / 2);
    }
  }

  lemma {:induction false} Log2CeilLeast(n: nat, e: nat)
    requires n <= Pow2(e)
    ensures Log2Ceil(n) <= e
  {
    if n > 1 {
      assert e > 0;
      Log2CeilLeast((n + 1) / 2, e - 1);
    }
  }

  /** NextPow2(n) is the least power of two that is at least n. */
  lemma NextPow2IsLeast(n: nat)
    ensures n <= NextPow2(n) && IsPowerOfTwo(NextPow2(n))
    ensures forall e: nat :: n <= Pow2(e) ==> NextPow2(n) <= Pow2(e)
  {
    Log2CeilCovers(n);
    Pow2IsPowerOfTwo(Log2Ceil(n));
    forall e: nat | n <= Pow2(e)
      ensures NextPow2(n) <= Pow2(e)
    {
      Log2CeilLeast(n, e);
      Pow2Monotone(Log2Ceil(n), e);
    }
  }

  lemma {:induction false} Log2FloorOfPow2(e: nat)
    ensures Log2Floor(Pow2(e)) == e
  {
    if e > 0 {
      Log2FloorOfPow2(e - 1);
      assert Pow2(e) / 2 == Pow2(e - 1);
    }
  }

  /** `a * b` on `uint64_t`: the one 64-bit value congruent to the product modulo 2^64. */
  function WrappingMul(a: uint64, b: uint64): uint64
  {
    (a * b) % TWO_64
  }

  /** `x >> n` on `uint64_t`: `n` halvings, each dropping the lowest bit. */
  function ShiftRight(x: uint64, n: nat): uint64 {
    if n == 0 then x else ShiftRight(x / 2, n - 1)
  }

  /** Shifting a `w`-bit value right by `n <= w` leaves a `(w - n)`-bit value. */
  lemma {:induction false} ShiftRightBound(x: uint64, n: nat, w: nat)
    requires n <= w && x < Pow2(w)
    ensures ShiftRight(x, n) < Pow2(w - n)
  {
    if n > 0 {
      ShiftRightBound(x / 2, n - 1, w - 1);
    }
  }

  /** Shifting right by `n` is dividing by 2^n. */
  lemma {:induction false} ShiftRightIsDiv(x: uint64, n: nat)
    ensures ShiftRight(x, n) == x / Pow2(n)
  {
    if n > 0 {
      ShiftRightIsDiv(x / 2, n - 1);
      DivHalf(x, Pow2(n - 1));
    }
  }

  /** The quotient and remainder of a division are the only ones with the remainder in range. */
  lemma DivUnique(x: int, d: int, q: int, r: int)
    requires d > 0 && 0 <= r < d && x == d * q + r
    ensures x / d == q
  {
    var q', r' := x / d, x % d;
    assert d * q' + r' == d * q + r;
    if q' < q {
      assert d * (q - q') == r' - r;
      MulMonotone(d, 1, q - q');
    } else if q' > q {
      assert d * (q' - q) == r - r';
      MulMonotone(d, 1, q' - q);
    }
  }

  /** Halving and then dividing by `d` is dividing by `2 * d`. */
  lemma DivHalf(x: nat, d: nat)
    requires d > 0
    ensures (x / 2) / d == x / (2 * d)
  {
    var q, r2, r := (x / 2) / d, (x / 2) % d, x % 2;
    assert x / 2 == d * q + r2;
    assert x == (2 * d) * q + (2 * r2 + r);
    DivUnique(x, 2 * d, q, 2 * r2 + r);
  }

  lemma MulMonotone(a: nat, b: nat, c: nat)
    requires b <= c
    ensures a * b <= a * c
  {
  }
}
