/**
 * Integer helpers shared by the models: powers of two, the shifts and the
 * division of C on a two's-complement target, stores into `uint8_t`,
 * bitwise OR on non-negative integers, and the optional value that the
 * other modules share.
 */
module Arith {

  datatype Option<T> = None | Some(value: T)

  /** 2 to the power n. */
  function Pow2(n: nat): (r: nat)
    ensures r >= 1
  {
    if n == 0 then 1 else 2 * Pow2(n - 1)
  }

  lemma {:induction false} Pow2Add(a: nat, b: nat)
    ensures Pow2(a + b) == Pow2(a) * Pow2(b)
    decreases b
  {
    if b > 0 {
      Pow2Add(a, b - 1);
    }
  }

  /** The powers of two the integer widths of the targets need. */
  lemma Pow2Widths()
    ensures Pow2(8) == 0x100 && Pow2(16) == 0x1_0000 && Pow2(17) == 0x2_0000 && Pow2(32) == 0x1_0000_0000
  {
    assert Pow2(4) == 16 by {
      assert Pow2(2) == 4;
    }
    Pow2Add(4, 4);
    Pow2Add(8, 8);
    Pow2Add(16, 1);
    Pow2Add(16, 16);
  }

  /**
   * `v >> bits` on a signed int of a two's-complement target: the shift is
   * arithmetic, so the result is v / 2^bits rounded towards minus infinity.
   */
  function ShiftRight(v: int, bits: nat): (r: int)
    requires bits < 32
    ensures r * Pow2(bits) <= v < (r + 1) * Pow2(bits)
    ensures v >= 0 ==> 0 <= r <= v
  {
    FloorDiv(v, Pow2(bits));
    DivNonNegative(v, Pow2(bits));
    v / Pow2(bits)
  }

  lemma DivNonNegative(v: int, k: int)
    requires k > 0
    ensures v >= 0 ==> 0 <= v / k <= v
  {
    if v >= 0 {
      var q := v / k;
      FloorDiv(v, k);
      MulLess(0, q + 1, k);
      MulAtLeast(v + 1, k);
      MulLess(q, v + 1, k);
    }
  }

  /** `v << bits`: multiplication by 2^bits (absent overflow). */
  function ShiftLeft(v: int, bits: nat): int
    requires bits < 32
  {
    v * Pow2(bits)
  }

  /** Dafny's `/` by a positive divisor rounds towards minus infinity. */
  lemma FloorDiv(v: int, k: int)
    requires k > 0
    ensures (v / k) * k <= v < (v / k + 1) * k
  {
    var q, m := v / k, v % k;
    assert v == q * k + m;
    assert (q + 1) * k == q * k + k;
  }

  /** Multiplying by a positive divisor and dividing again is the identity. */
  lemma MulDiv(v: int, k: int)
    requires k > 0
    ensures (v * k) / k == v && (v * k) % k == 0
  {
    FloorDiv(v * k, k);
    var q := (v * k) / k;
    MulLess(q, v + 1, k);
    MulLess(v, q + 1, k);
    assert v * k == q * k + (v * k) % k;
  }

  lemma MulMono(a: int, b: int, k: int)
    requires 0 <= a <= b && k >= 0
    ensures a * k <= b * k
  {
  }

  lemma MulSucc(a: int, k: int)
    ensures (a + 1) * k == a * k + k
  {
  }

  lemma MulAtLeast(a: nat, k: int)
    requires k >= 1
    ensures a <= a * k
  {
  }

  lemma MulLess(a: int, b: int, k: int)
    requires k > 0 && a * k < b * k
    ensures a < b
  {
  }

  function Abs(v: int): nat {
    if v < 0 then -v else v
  }

  /**
   * C's `a / d` (section 6.5.5 of ISO/IEC 9899:1999): the magnitude of the
   * quotient is |a| / |d| rounded down and its sign is the product of the
   * operands' signs. Dafny's own `/` keeps the remainder non-negative
   * instead, so the two differ for a negative dividend.
   */
  function CDiv(a: int, d: int): int
    requires d != 0
  {
    if (a >= 0) == (d > 0) then Abs(a) / Abs(d) else -(Abs(a) / Abs(d))
  }

  /**
   * The rule C states for its division: with m = a - q*d, so that
   * q*d + m == a, the remainder m is smaller than the divisor in magnitude
   * and never has the opposite sign of a.
   */
  predicate TruncatedQuotient(a: int, d: int, q: int) {
    var m := a - q * d;
    Abs(m) < Abs(d) && (a >= 0 ==> m >= 0) && (a <= 0 ==> m <= 0)
  }

  lemma CDivSpec(a: int, d: int)
    requires d != 0
    ensures TruncatedQuotient(a, d, CDiv(a, d))
  {
    var b: int, e: int := Abs(a), Abs(d);
    var q0: int := b / e;
    FloorDiv(b, e);
    var m := q0 * e;
    var rem := b - m;
    assert 0 <= rem < e;
    var q := CDiv(a, d);
    NegMul(q0, e);
    if a >= 0 && d > 0 {
      assert q == q0 && d == e && q * d == m;
    } else if a >= 0 {
      assert q == -q0 && d == -e && q * d == m;
    } else if d > 0 {
      assert q == -q0 && d == e && q * d == -m;
    } else {
      assert q == q0 && d == -e && q * d == -m;
    }
  }

  lemma NegMul(x: int, y: int)
    ensures (-x) * (-y) == x * y && x * (-y) == -(x * y) && (-x) * y == -(x * y)
  {
  }

  /** A value stored into a `uint8_t`: the low eight bits. */
  function ToByte(v: int): (b: nat)
    ensures b < 256
    ensures 0 <= v < 256 ==> b == v
  {
    v % 256
  }

  function Max(a: int, b: int): int {
    if a > b then a else b
  }

  function Min(a: int, b: int): int {
    if a < b then a else b
  }

  /** Shifting right undoes shifting left, and shifting left leaves the low bits clear. */
  lemma {:induction false} ShiftRightLeft(v: int, bits: nat)
    requires bits < 32
    ensures ShiftRight(ShiftLeft(v, bits), bits) == v
    ensures ShiftLeft(v, bits) % Pow2(bits) == 0
  {
    MulDiv(v, Pow2(bits));
  }

  /** A value whose low `bits` bits are clear is its right shift shifted back. */
  lemma ShiftLeftAligned(v: int, bits: nat)
    requires bits < 32 && v % Pow2(bits) == 0
    ensures ShiftLeft(ShiftRight(v, bits), bits) == v
  {
    var k := Pow2(bits);
    var q := v / k;
    assert v == q * k + v % k;
    assert ShiftRight(v, bits) == q;
  }

  /** Bitwise OR of two non-negative integers. */
  function OrBits(a: nat, b: nat): nat
  {
    if a == 0 then b
    else if b == 0 then a
    else 2 * OrBits(a / 2, b / 2) + (if a % 2 == 1 || b % 2 == 1 then 1 else 0)
  }

  /** OR with a number below 2^k adds it to a multiple of 2^k. */
  lemma {:induction false} OrShifted(a: nat, b: nat, k: nat)
    requires b < Pow2(k)
    ensures OrBits(a * Pow2(k), b) == a * Pow2(k) + b
  {
    if k > 0 && a * Pow2(k) != 0 && b != 0 {
      var m := a * Pow2(k - 1);
      assert a * Pow2(k) == 2 * m;
      assert (2 * m) / 2 == m && (2 * m) % 2 == 0;
      OrShifted(a, b / 2, k - 1);
    }
  }

  /** OR with 2^k - 1 of a number below 2^k is 2^k - 1. */
  lemma {:induction false} OrAllOnes(a: nat, k: nat)
    requires a < Pow2(k)
    ensures OrBits(a, Pow2(k) - 1) == Pow2(k) - 1
  {
    if k > 0 && a != 0 {
      assert (Pow2(k) - 1) / 2 == Pow2(k - 1) - 1 && (Pow2(k) - 1) % 2 == 1;
      OrAllOnes(a / 2, k - 1);
    }
  }

  lemma {:induction false} OrBitsCommutes(a: nat, b: nat)
    ensures OrBits(a, b) == OrBits(b, a)
  {
    if a != 0 && b != 0 {
      OrBitsCommutes(a / 2, b / 2);
    }
  }
}
