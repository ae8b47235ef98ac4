/**
 * NanoRect of the nano engine: a rectangle given by its top-left corner p1
 * and its bottom-right corner p2, both inclusive. The queries and the
 * operators that build a new rectangle are functions on the value type
 * `Rect`; the members that move or crop a rectangle in place are methods
 * of the class `NanoRect`.
 */
module Rects {
  import opened Arith
  import opened Points

  datatype Rect = Rect(p1: Point, p2: Point)

  /** width(): both border columns count. */
  function Width(r: Rect): (w: int)
    ensures r.p1.x + w == r.p2.x + 1
  {
    r.p2.x - r.p1.x + 1
  }

  /** height(): both border rows count. */
  function Height(r: Rect): (h: int)
    ensures r.p1.y + h == r.p2.y + 1
  {
    r.p2.y - r.p1.y + 1
  }

  /** size(): width and height as a point. */
  function Size(r: Rect): (s: Point)
    ensures s.x == Width(r) && s.y == Height(r)
  {
    Point(Width(r), Height(r))
  }

  function CollisionX(r: Rect, x: int): (b: bool)
    ensures b <==> r.p1.x <= x <= r.p2.x
  {
    x >= r.p1.x && x <= r.p2.x
  }

  function CollisionY(r: Rect, y: int): (b: bool)
    ensures b <==> r.p1.y <= y <= r.p2.y
  {
    y >= r.p1.y && y <= r.p2.y
  }

  /** collision(p) and contains(p): the point lies on or inside the borders. */
  function Contains(r: Rect, p: Point): (b: bool)
    ensures b <==> r.p1.x <= p.x <= r.p2.x && r.p1.y <= p.y <= r.p2.y
  {
    CollisionX(r, p.x) && CollisionY(r, p.y)
  }

  /** contains(r): both corners of s inside r. */
  function ContainsRect(r: Rect, s: Rect): (b: bool)
    ensures b <==> Contains(r, s.p1) && Contains(r, s.p2)
    ensures b ==> forall p :: Contains(s, p) ==> Contains(r, p)
  {
    Contains(r, s.p1) && Contains(r, s.p2)
  }

  /** containsPartOf(r): at least one corner of s inside r. */
  function ContainsPartOf(r: Rect, s: Rect): (b: bool)
    ensures b <==> Contains(r, s.p1) || Contains(r, s.p2)
    ensures ContainsRect(r, s) ==> b
  {
    Contains(r, s.p1) || Contains(r, s.p2)
  }

  /** above(p): only the y coordinate is compared, against the top border. */
  function Above(r: Rect, p: Point): (b: bool)
    ensures b <==> p.y < r.p1.y
    ensures b ==> !Contains(r, p)
  {
    p.y < r.p1.y
  }

  /** below(p): only the y coordinate is compared, against the bottom border. */
  function Below(r: Rect, p: Point): (b: bool)
    ensures b <==> p.y > r.p2.y
    ensures b ==> !Contains(r, p)
  {
    p.y > r.p2.y
  }

  /** operator-(p): both corners moved back by p. */
  function MinusPoint(r: Rect, p: Point): (s: Rect)
    ensures Width(s) == Width(r) && Height(s) == Height(r)
    ensures forall q :: Contains(s, q) <==> Contains(r, Plus(q, p))
  {
    Rect(Minus(r.p1, p), Minus(r.p2, p))
  }

  /** operator+(p), member and free: both corners moved by p. */
  function PlusPoint(r: Rect, p: Point): (s: Rect)
    ensures Width(s) == Width(r) && Height(s) == Height(r)
    ensures MinusPoint(s, p) == r
    ensures forall q :: Contains(r, q) <==> Contains(s, Plus(q, p))
  {
    Rect(Plus(r.p1, p), Plus(r.p2, p))
  }

  /** operator>>: both corners shifted right by the same amount. */
  function ShrRect(r: Rect, bits: nat): (s: Rect)
    requires bits < 32
    ensures s.p1 == Shr(r.p1, bits) && s.p2 == Shr(r.p2, bits)
  {
    Rect(Shr(r.p1, bits), Shr(r.p2, bits))
  }

  /** operator<<: both corners shifted left by the same amount. */
  function ShlRect(r: Rect, bits: nat): (s: Rect)
    requires bits < 32
    ensures ShrRect(s, bits) == r
    ensures s.p1.x % Pow2(bits) == 0 && s.p1.y % Pow2(bits) == 0
    ensures s.p2.x % Pow2(bits) == 0 && s.p2.y % Pow2(bits) == 0
  {
    Rect(Shl(r.p1, bits), Shl(r.p2, bits))
  }

  /** The rectangle that crop(bound) leaves: each border moved inwards onto bound's if it lies outside. */
  function Cropped(r: Rect, bound: Rect): (c: Rect)
    ensures c.p1.x >= bound.p1.x && c.p1.y >= bound.p1.y
    ensures c.p2.x <= bound.p2.x && c.p2.y <= bound.p2.y
    ensures bound.p1.x <= r.p1.x ==> c.p1.x == r.p1.x
    ensures bound.p1.y <= r.p1.y ==> c.p1.y == r.p1.y
    ensures r.p2.x <= bound.p2.x ==> c.p2.x == r.p2.x
    ensures r.p2.y <= bound.p2.y ==> c.p2.y == r.p2.y
    ensures forall p :: Contains(c, p) <==> Contains(r, p) && Contains(bound, p)
  {
    Rect(Point(if r.p1.x < bound.p1.x then bound.p1.x else r.p1.x,
               if r.p1.y < bound.p1.y then bound.p1.y else r.p1.y),
         Point(if r.p2.x > bound.p2.x then bound.p2.x else r.p2.x,
               if r.p2.y > bound.p2.y then bound.p2.y else r.p2.y))
  }

  /** Cropping twice to the same bound changes nothing more. */
  lemma CropIdempotent(r: Rect, bound: Rect)
    ensures Cropped(Cropped(r, bound), bound) == Cropped(r, bound)
  {
  }

  /** A rectangle already inside the bound is left as it is. */
  lemma CropInside(r: Rect, bound: Rect)
    requires ContainsRect(bound, r)
    ensures Cropped(r, bound) == r
  {
  }

  /** A rectangle whose fields the members update in place. */
  class NanoRect {
    var p1: Point
    var p2: Point

    constructor (l: int, t: int, r: int, b: int)
      ensures Value() == Rect(Point(l, t), Point(r, b))
    {
      p1 := Point(l, t);
      p2 := Point(r, b);
    }

    function Value(): (r: Rect)
      reads this
      ensures r.p1 == p1 && r.p2 == p2
    {
      Rect(p1, p2)
    }

    /** move(dx, dy) */
    method Move(dx: int, dy: int)
      modifies this
      ensures Value() == PlusPoint(old(Value()), Point(dx, dy))
      ensures Width(Value()) == Width(old(Value())) && Height(Value()) == Height(old(Value()))
    {
      p1 := Point(p1.x + dx, p1.y);
      p2 := Point(p2.x + dx, p2.y);
      p1 := Point(p1.x, p1.y + dy);
      p2 := Point(p2.x, p2.y + dy);
    }

    /** addH(dx): only the x coordinates change. */
    method AddH(dx: int)
      modifies this
      ensures p1 == Point(old(p1.x) + dx, old(p1.y)) && p2 == Point(old(p2.x) + dx, old(p2.y))
      ensures Width(Value()) == Width(old(Value()))
    {
      p1 := Point(p1.x + dx, p1.y);
      p2 := Point(p2.x + dx, p2.y);
    }

    /** addV(dy): only the y coordinates change. */
    method AddV(dy: int)
      modifies this
      ensures p1 == Point(old(p1.x), old(p1.y) + dy) && p2 == Point(old(p2.x), old(p2.y) + dy)
      ensures Height(Value()) == Height(old(Value()))
    {
      p1 := Point(p1.x, p1.y + dy);
      p2 := Point(p2.x, p2.y + dy);
    }

    /** setRect(l, t, r, b) */
    method SetRect(l: int, t: int, r: int, b: int)
      modifies this
      ensures Value() == Rect(Point(l, t), Point(r, b))
    {
      p1 := Point(l, t);
      p2 := Point(r, b);
    }

    /** crop(rect); `bound` is read as a value, so cropping to itself changes nothing. */
    method Crop(bound: Rect)
      modifies this
      ensures Value() == Cropped(old(Value()), bound)
    {
      if p1.x < bound.p1.x { p1 := Point(bound.p1.x, p1.y); }
      if p1.y < bound.p1.y { p1 := Point(p1.x, bound.p1.y); }
      if p2.x > bound.p2.x { p2 := Point(bound.p2.x, p2.y); }
      if p2.y > bound.p2.y { p2 := Point(p2.x, bound.p2.y); }
    }

    /** operator+=(p) */
    method AddAssign(p: Point)
      modifies this
      ensures Value() == PlusPoint(old(Value()), p)
    {
      p1 := Point(p1.x + p.x, p1.y);
      p1 := Point(p1.x, p1.y + p.y);
      p2 := Point(p2.x + p.x, p2.y);
      p2 := Point(p2.x, p2.y + p.y);
    }

    /**
     * operator+= called with the rectangle's own corner, `r += r.p1`: the
     * argument is a reference to p1, so the updates of p2 read the p1 that
     * the first two statements have already moved.
     */
    method AddAssignOwnP1()
      modifies this
      ensures p1 == Point(2 * old(p1.x), 2 * old(p1.y))
      ensures p2 == Point(old(p2.x) + 2 * old(p1.x), old(p2.y) + 2 * old(p1.y))
      ensures old(p1) != Point(0, 0) ==> Value() != PlusPoint(old(Value()), old(p1))
    {
      p1 := Point(p1.x + p1.x, p1.y);
      p1 := Point(p1.x, p1.y + p1.y);
      p2 := Point(p2.x + p1.x, p2.y);
      p2 := Point(p2.x, p2.y + p1.y);
    }
  }
}
