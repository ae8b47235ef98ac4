/**
 * NanoPoint of the nano engine: a pair of `lcdint_t` (C `int`) coordinates.
 * The operators that build a new point are functions on the value type
 * `Point`; the compound assignments and setPoint, which change the fields
 * of a point in place, are methods of the class `NanoPoint`.
 *
 * Coordinates are unbounded integers: the model assumes, as the engine
 * does, that no coordinate arithmetic overflows `int`.
 */
module Points {
  import opened Arith

  datatype Point = Point(x: int, y: int)

  /** The free operator+ (and the member operator+): component-wise sum. */
  function Plus(p: Point, q: Point): (r: Point)
    ensures r.x - q.x == p.x && r.y - q.y == p.y
  {
    Point(p.x + q.x, p.y + q.y)
  }

  /** The free operator- (and the member operator-): component-wise difference. */
  function Minus(p: Point, q: Point): (r: Point)
    ensures Plus(r, q) == p
  {
    Point(p.x - q.x, p.y - q.y)
  }

  /** operator>>: both coordinates shifted by the same amount. */
  function Shr(p: Point, bits: nat): (r: Point)
    requires bits < 32
    ensures r == Point(ShiftRight(p.x, bits), ShiftRight(p.y, bits))
  {
    Point(p.x / Pow2(bits), p.y / Pow2(bits))
  }

  /**
   * operator<<: both coordinates shifted by the same amount. The low `bits`
   * bits of the result are clear and shifting back gives p, which together
   * fix the result.
   */
  function Shl(p: Point, bits: nat): (r: Point)
    requires bits < 32
    ensures Shr(r, bits) == p
    ensures r.x % Pow2(bits) == 0 && r.y % Pow2(bits) == 0
  {
    ShiftRightLeft(p.x, bits);
    ShiftRightLeft(p.y, bits);
    Point(ShiftLeft(p.x, bits), ShiftLeft(p.y, bits))
  }

  /** The two properties of Shl single out its result: any point with both of them is p << bits. */
  lemma ShlUnique(p: Point, q: Point, bits: nat)
    requires bits < 32
    requires Shr(q, bits) == p && q.x % Pow2(bits) == 0 && q.y % Pow2(bits) == 0
    ensures q == Shl(p, bits)
  {
    ShiftLeftAligned(q.x, bits);
    ShiftLeftAligned(q.y, bits);
  }

  /** operator/: both coordinates divided with C truncation. */
  function Div(p: Point, d: int): (r: Point)
    requires d != 0
    ensures TruncatedQuotient(p.x, d, r.x) && TruncatedQuotient(p.y, d, r.y)
  {
    CDivSpec(p.x, d);
    CDivSpec(p.y, d);
    Point(CDiv(p.x, d), CDiv(p.y, d))
  }

  /** operator==: the points compare equal exactly when they are the same value. */
  function Equal(p: Point, q: Point): (r: bool)
    ensures r <==> p == q
  {
    p.x == q.x && p.y == q.y
  }

  /** operator!= */
  function NotEqual(p: Point, q: Point): (r: bool)
    ensures r <==> p != q
  {
    !Equal(p, q)
  }

  /** A point with fields that the compound assignments update in place. */
  class NanoPoint {
    var x: int
    var y: int

    constructor (px: int, py: int)
      ensures x == px && y == py
    {
      x := px;
      y := py;
    }

    function Value(): (r: Point)
      reads this
      ensures r.x == x && r.y == y
    {
      Point(x, y)
    }

    /** setPoint */
    method SetPoint(px: int, py: int)
      modifies this
      ensures Value() == Point(px, py)
    {
      x := px;
      y := py;
    }

    /** operator>>= */
    method ShrAssign(bits: nat)
      requires bits < 32
      modifies this
      ensures Value() == Shr(old(Value()), bits)
    {
      x := ShiftRight(x, bits);
      y := ShiftRight(y, bits);
    }

    /** operator<<= */
    method ShlAssign(bits: nat)
      requires bits < 32
      modifies this
      ensures Value() == Shl(old(Value()), bits)
    {
      x := ShiftLeft(x, bits);
      y := ShiftLeft(y, bits);
    }

    /** operator+=; `p` is read as a value, so `p += p` doubles both coordinates. */
    method AddAssign(p: Point)
      modifies this
      ensures Value() == Plus(old(Value()), p)
    {
      x := x + p.x;
      y := y + p.y;
    }

    /** operator-= */
    method SubAssign(p: Point)
      modifies this
      ensures Value() == Minus(old(Value()), p)
    {
      x := x - p.x;
      y := y - p.y;
    }
  }
}
