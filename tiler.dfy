/**
 * The refresh flags of the nano engine's tiler (NanoEngineTiler): one
 * 16-bit word per row of tiles and one bit per tile column. The refresh
 * calls only OR bits into the words; displayBuffer reads the word of every
 * row of tiles on the display, clears it, and hands each tile whose bit is
 * set to the draw callback.
 *
 * The tiler is a template over the tile width W, the tile height H and the
 * number of bits B of a tile coordinate. The model's tiles are 2^B pixels
 * square, the geometry in which refresh (which divides by 2^B) and
 * displayBuffer (which steps by W and H) agree on which pixels a flag bit
 * stands for. `int` is taken to be 32 bits wide, as on the ARM, ESP and
 * Linux targets.
 */
module Tiler {
  import opened Arith
  import opened Points
  import opened Rects

  // ---------------------------------------------------------------------
  // Flag words

  /** NE_MAX_TILES_NUM = 64 >> (B - 3): the number of rows of tiles. */
  function MaxTiles(b: nat): (n: nat)
    requires 3 <= b <= 9
    ensures 1 <= n <= 64
  {
    assert Pow2(1) == 2 && Pow2(2) == 4 && Pow2(3) == 8 && Pow2(4) == 16 && Pow2(5) == 32 && Pow2(6) == 64;
    64 / Pow2(b - 3)
  }

  /** Whatever the tile size, the flag words cover 512 rows of pixels. */
  lemma MaxTilesSpan(b: nat)
    requires 3 <= b <= 9
    ensures MaxTiles(b) * Pow2(b) == 512
  {
    assert Pow2(1) == 2 && Pow2(2) == 4 && Pow2(3) == 8 && Pow2(4) == 16 && Pow2(5) == 32;
    assert Pow2(6) == 64 && Pow2(7) == 128 && Pow2(8) == 256 && Pow2(9) == 512;
  }

  /** A tile column as a shift amount. */
  function Amount(j: nat): bv5
    requires j < 16
  {
    j as bv5
  }

  /** Bit j of a flag word (tile column j) is set. */
  predicate Bit16(f: bv16, j: nat) {
    j < 16 && (f >> Amount(j)) & 1 == 1
  }

  /**
   * `1 << k` ORed into a `uint16_t` word: an `int`, of which the word keeps
   * the low 16 bits, so columns from 16 on set nothing. From 31 on the
   * shift is undefined.
   */
  function ColMask(k: nat): bv16
    requires k < 31
  {
    if k < 16 then (1 as bv16) << Amount(k) else 0
  }

  lemma ColMaskBit(k: nat, j: nat)
    requires k < 31
    ensures Bit16(ColMask(k), j) <==> j == k && k < 16
  {
    if k < 16 && j < 16 {
      AmountInj(k, j);
    }
  }

  lemma AmountInj(k: nat, j: nat)
    requires k < 16 && j < 16
    ensures Amount(k) < 16 && (Amount(k) == Amount(j) <==> k == j)
  {
  }

  lemma BitOr(a: bv16, b: bv16, j: nat)
    ensures Bit16(a | b, j) <==> Bit16(a, j) || Bit16(b, j)
  {
    if j < 16 {
      ShiftOr(a, b, Amount(j));
    }
  }

  lemma ShiftOr(a: bv16, b: bv16, s: bv5)
    requires s < 16
    ensures ((a | b) >> s) & 1 == 1 <==> (a >> s) & 1 == 1 || (b >> s) & 1 == 1
  {
  }

  /** The bits the inner loop of refresh ORs in: `1 << x` for x from lo to hi. */
  function RowBits(lo: nat, hi: int): bv16
    requires hi < lo || hi < 31
    decreases hi - lo + 1
  {
    if hi < lo then 0 else RowBits(lo, hi - 1) | ColMask(hi)
  }

  /** The bits of columns lo..hi, where a word can hold them; no bits otherwise. */
  function ColsMask(lo: nat, hi: int): (r: bv16)
    ensures (hi < lo || hi < 31) ==> r == RowBits(lo, hi)
  {
    if hi < lo || hi < 31 then RowBits(lo, hi) else 0
  }

  /** One more turn of the inner loop of refresh ORs in the next column's bit. */
  lemma RowBitsStep(a: bv16, lo: nat, x: nat)
    requires lo <= x < 31
    ensures (a | RowBits(lo, x - 1)) | ColMask(x) == a | RowBits(lo, x)
  {
    assert RowBits(lo, x) == RowBits(lo, x - 1) | ColMask(x);
  }

  /** When the inner loop of refresh stops, the word holds exactly the columns lo..hi. */
  lemma RowBitsExit(a: bv16, lo: nat, x: nat, hi: int)
    requires lo <= x && (x <= hi + 1 || x == lo) && x > hi && (hi < lo || hi < 31)
    ensures a | RowBits(lo, x - 1) == a | RowBits(lo, hi)
  {
    if hi < lo {
      assert x == lo && RowBits(lo, x - 1) == 0 == RowBits(lo, hi);
    }
  }

  /** The bits are exactly the columns lo..hi that a word can hold. */
  lemma {:induction false} RowBitsBit(lo: nat, hi: int, j: nat)
    requires hi < lo || hi < 31
    ensures Bit16(RowBits(lo, hi), j) <==> lo <= j <= hi && j < 16
    decreases hi - lo + 1
  {
    if hi >= lo {
      RowBitsBit(lo, hi - 1, j);
      BitOr(RowBits(lo, hi - 1), ColMask(hi), j);
      ColMaskBit(hi, j);
    }
  }

  /** Every bit set in a is still set in b. */
  predicate Grows(a: seq<bv16>, b: seq<bv16>) {
    |a| == |b| && forall r :: 0 <= r < |a| ==> a[r] & b[r] == a[r]
  }

  // ---------------------------------------------------------------------
  // refresh(point) and refresh(x1, y1, x2, y2)

  /** A point whose row of tiles has a flag word. */
  predicate PointInRows(b: nat, n: nat, p: Point)
    requires b < 32
  {
    p.y >= 0 && ShiftRight(p.y, b) < n
  }

  /** refresh(point): bit x>>B of word y>>B is ORed in, for a point in the rows. */
  function RefreshedPoint(fs: seq<bv16>, b: nat, p: Point): seq<bv16>
    requires b < 32
    requires PointInRows(b, |fs|, p) ==> 0 <= ShiftRight(p.x, b) < 31
  {
    if PointInRows(b, |fs|, p) then
      var row := ShiftRight(p.y, b);
      fs[row := fs[row] | ColMask(ShiftRight(p.x, b))]
    else fs
  }

  /** The first row of refresh(x1, y1, x2, y2): `uint8_t y = max(y1, 0) >> B`. */
  function RowFrom(b: nat, y1: int): nat
    requires b < 32
  {
    ToByte(ShiftRight(Max(y1, 0), b))
  }

  /** The last row: `min(y2 >> B, NE_MAX_TILES_NUM - 1)`. */
  function RowTo(b: nat, n: nat, y2: int): int
    requires b < 32
  {
    Min(ShiftRight(y2, b), n - 1)
  }

  /** The first column: `uint8_t x = max(x1, 0) >> B`. */
  function ColFrom(b: nat, x1: int): nat
    requires b < 32
  {
    ToByte(ShiftRight(Max(x1, 0), b))
  }

  /** The last column: `x2 >> B`. */
  function ColTo(b: nat, x2: int): int
    requires b < 32
  {
    ShiftRight(x2, b)
  }

  /** Row r is one that refresh(x1, y1, x2, y2) visits. */
  predicate InRows(b: nat, n: nat, y1: int, y2: int, r: int)
    requires b < 32
  {
    y2 >= 0 && RowFrom(b, y1) <= r <= RowTo(b, n, y2)
  }

  /**
   * The loops of refresh(x1, y1, x2, y2) are defined: when a row is visited
   * and the column range is not empty, no column reaches 31, where `1 << x`
   * would be undefined (and from 255 on the `uint8_t` counter would never
   * pass the end).
   */
  predicate RefreshDefined(b: nat, n: nat, x1: int, y1: int, x2: int, y2: int)
    requires b < 32
  {
    y2 < 0 || RowFrom(b, y1) > RowTo(b, n, y2) || ColFrom(b, x1) > ColTo(b, x2) || ColTo(b, x2) < 31
  }

  /** The flag words after refresh(x1, y1, x2, y2). */
  function Refreshed(fs: seq<bv16>, b: nat, x1: int, y1: int, x2: int, y2: int): seq<bv16>
    requires b < 32 && RefreshDefined(b, |fs|, x1, y1, x2, y2)
  {
    seq(|fs|, r requires 0 <= r < |fs| =>
      if InRows(b, |fs|, y1, y2, r) then fs[r] | RowBits(ColFrom(b, x1), ColTo(b, x2)) else fs[r])
  }

  /** Words that match refresh(x1, y1, x2, y2) one by one are its result. */
  lemma RefreshedWords(fs: seq<bv16>, cur: seq<bv16>, b: nat, x1: int, y1: int, x2: int, y2: int)
    requires b < 32 && RefreshDefined(b, |fs|, x1, y1, x2, y2) && |cur| == |fs|
    requires forall r :: 0 <= r < |fs| ==>
      cur[r] == if InRows(b, |fs|, y1, y2, r) then fs[r] | RowBits(ColFrom(b, x1), ColTo(b, x2)) else fs[r]
    ensures cur == Refreshed(fs, b, x1, y1, x2, y2)
  {
    var want := Refreshed(fs, b, x1, y1, x2, y2);
    assert |want| == |cur|;
    forall r | 0 <= r < |cur|
      ensures cur[r] == want[r]
    {
    }
  }

  /**
   * refresh(x1, y1, x2, y2) sets exactly the bits of columns
   * ColFrom..ColTo in the rows it visits and clears none.
   */
  lemma RefreshedBits(fs: seq<bv16>, b: nat, x1: int, y1: int, x2: int, y2: int, r: nat, j: nat)
    requires b < 32 && RefreshDefined(b, |fs|, x1, y1, x2, y2) && r < |fs|
    ensures |Refreshed(fs, b, x1, y1, x2, y2)| == |fs|
    ensures Bit16(Refreshed(fs, b, x1, y1, x2, y2)[r], j) <==>
      Bit16(fs[r], j) || (InRows(b, |fs|, y1, y2, r) && ColFrom(b, x1) <= j <= ColTo(b, x2) && j < 16)
  {
    if InRows(b, |fs|, y1, y2, r) {
      RowBitsBit(ColFrom(b, x1), ColTo(b, x2), j);
      BitOr(fs[r], RowBits(ColFrom(b, x1), ColTo(b, x2)), j);
    }
  }

  /** refresh(point) sets exactly the point's tile bit and clears none. */
  lemma RefreshedPointBits(fs: seq<bv16>, b: nat, p: Point, r: nat, j: nat)
    requires b < 32 && (PointInRows(b, |fs|, p) ==> 0 <= ShiftRight(p.x, b) < 31) && r < |fs|
    ensures |RefreshedPoint(fs, b, p)| == |fs|
    ensures Bit16(RefreshedPoint(fs, b, p)[r], j) <==>
      Bit16(fs[r], j) ||
      (PointInRows(b, |fs|, p) && r == ShiftRight(p.y, b) && j == ShiftRight(p.x, b) && j < 16)
  {
    if PointInRows(b, |fs|, p) && r == ShiftRight(p.y, b) {
      BitOr(fs[r], ColMask(ShiftRight(p.x, b)), j);
      ColMaskBit(ShiftRight(p.x, b), j);
    }
  }

  /** Neither refresh call clears a bit. */
  lemma RefreshesGrow(fs: seq<bv16>, b: nat, x1: int, y1: int, x2: int, y2: int, p: Point)
    requires b < 32 && RefreshDefined(b, |fs|, x1, y1, x2, y2)
    requires PointInRows(b, |fs|, p) ==> 0 <= ShiftRight(p.x, b) < 31
    ensures Grows(fs, Refreshed(fs, b, x1, y1, x2, y2))
    ensures Grows(fs, RefreshedPoint(fs, b, p))
  {
  }

  /** On a canvas of the flag words' rows, refresh(point) is the refresh of a one-pixel rectangle. */
  lemma PointIsUnitRect(fs: seq<bv16>, b: nat, p: Point)
    requires b < 32 && |fs| <= 64
    requires PointInRows(b, |fs|, p) && 0 <= p.x && ShiftRight(p.x, b) < 31
    ensures RefreshDefined(b, |fs|, p.x, p.y, p.x, p.y)
    ensures Refreshed(fs, b, p.x, p.y, p.x, p.y) == RefreshedPoint(fs, b, p)
  {
    var c, row := ShiftRight(p.x, b), ShiftRight(p.y, b);
    UnitRectBounds(b, |fs|, p);
    SingleColumn(c);
    var lhs, rhs := Refreshed(fs, b, p.x, p.y, p.x, p.y), RefreshedPoint(fs, b, p);
    forall r | 0 <= r < |fs| ensures lhs[r] == rhs[r] {
      assert InRows(b, |fs|, p.y, p.y, r) <==> r == row;
    }
  }

  /** The rows and columns of the one-pixel rectangle at p are p's own tile. */
  lemma UnitRectBounds(b: nat, n: nat, p: Point)
    requires b < 32 && n <= 64
    requires PointInRows(b, n, p) && 0 <= p.x && ShiftRight(p.x, b) < 31
    ensures RowFrom(b, p.y) == ShiftRight(p.y, b) == RowTo(b, n, p.y)
    ensures ColFrom(b, p.x) == ShiftRight(p.x, b) == ColTo(b, p.x)
  {
    assert Max(p.y, 0) == p.y && Max(p.x, 0) == p.x;
  }

  lemma SingleColumn(c: nat)
    requires c < 31
    ensures RowBits(c, c) == ColMask(c)
  {
    assert RowBits(c, c - 1) == 0;
    ZeroOr(ColMask(c));
  }

  lemma ZeroOr(a: bv16)
    ensures 0 | a == a
  {
  }

  /** A right shift by the same amount keeps the order of its operands. */
  lemma ShiftRightMono(u: int, v: int, b: nat)
    requires b < 32 && u <= v
    ensures ShiftRight(u, b) <= ShiftRight(v, b)
  {
    var k := Pow2(b);
    var qu, qv := ShiftRight(u, b), ShiftRight(v, b);
    MulLess(qu, qv + 1, k);
  }

  /**
   * Every pixel of the rectangle that lies on the tiled area (at or right of
   * and below the origin, in a row of tiles with a word and a tile column a
   * word can hold) gets the bit of its tile.
   */
  lemma RefreshCoversRect(fs: seq<bv16>, b: nat, x1: int, y1: int, x2: int, y2: int, px: int, py: int)
    requires b < 32 && |fs| <= 64 && RefreshDefined(b, |fs|, x1, y1, x2, y2)
    requires x1 <= px <= x2 && y1 <= py <= y2 && 0 <= px && 0 <= py
    requires ShiftRight(py, b) < |fs| && ShiftRight(px, b) < 16
    ensures ShiftRight(py, b) < |Refreshed(fs, b, x1, y1, x2, y2)|
    ensures Bit16(Refreshed(fs, b, x1, y1, x2, y2)[ShiftRight(py, b)], ShiftRight(px, b))
  {
    var r, j := ShiftRight(py, b), ShiftRight(px, b);
    ShiftRightMono(Max(y1, 0), py, b);
    ShiftRightMono(py, y2, b);
    ShiftRightMono(Max(x1, 0), px, b);
    ShiftRightMono(px, x2, b);
    ShiftRightMono(0, Max(y1, 0), b);
    ShiftRightMono(0, Max(x1, 0), b);
    assert ShiftRight(0, b) == 0;
    RefreshedBits(fs, b, x1, y1, x2, y2, r, j);
  }

  // ---------------------------------------------------------------------
  // displayBuffer

  /** The x (or y) at which displayBuffer draws tile number j: its loop steps by the tile's size. */
  function TileOrigin(size: nat, j: nat): nat {
    j * size
  }

  /**
   * The tiles of one row at height y from column c on that displayBuffer
   * hands to the draw callback: those whose bit is set, as long as their
   * origin is left of the display's right edge.
   */
  function RowTilesFrom(f: bv16, y: int, t: nat, width: nat, c: nat): seq<Point>
    requires t >= 1
    decreases width - c
  {
    if TileOrigin(t, c) >= width then []
    else
      MulAtLeast(c, t);
      (if Bit16(f, c) then [Point(TileOrigin(t, c), y)] else []) + RowTilesFrom(f, y, t, width, c + 1)
  }

  /** The tiles of rows r and below whose origins lie above the display's bottom edge. */
  function TilesFrom(fs: seq<bv16>, t: nat, width: nat, height: nat, r: nat): seq<Point>
    requires t >= 1
    decreases height - r
  {
    if TileOrigin(t, r) >= height || r >= |fs| then []
    else
      MulAtLeast(r, t);
      RowTilesFrom(fs[r], TileOrigin(t, r), t, width, 0) + TilesFrom(fs, t, width, height, r + 1)
  }

  /** Tile origins are in the order of the tiles' numbers. */
  lemma OriginOrder(t: nat, a: nat, b: nat)
    requires t >= 1
    ensures a < b ==> TileOrigin(t, a) + t <= TileOrigin(t, b)
    ensures b < a ==> TileOrigin(t, b) + t <= TileOrigin(t, a)
    ensures TileOrigin(t, a) == TileOrigin(t, b) <==> a == b
  {
    if a < b {
      MulMono(a + 1, b, t);
    } else if b < a {
      MulMono(b + 1, a, t);
    }
  }

  /** A tile of a row is drawn exactly when its bit is set and it starts on the display. */
  lemma {:induction false} RowTilesMember(f: bv16, y: int, t: nat, width: nat, c: nat, j: nat, yy: int)
    requires t >= 1
    ensures Point(TileOrigin(t, j), yy) in RowTilesFrom(f, y, t, width, c) <==>
      yy == y && c <= j && TileOrigin(t, j) < width && Bit16(f, j)
    decreases width - c
  {
    OriginOrder(t, c, j);
    if TileOrigin(t, c) < width {
      MulAtLeast(c, t);
      RowTilesMember(f, y, t, width, c + 1, j, yy);
      var head := if Bit16(f, c) then [Point(TileOrigin(t, c), y)] else [];
      assert RowTilesFrom(f, y, t, width, c) == head + RowTilesFrom(f, y, t, width, c + 1);
    }
  }

  /** A tile is drawn exactly when it starts on the display and its bit is set. */
  lemma {:induction false} TilesMember(fs: seq<bv16>, t: nat, width: nat, height: nat, r0: nat, j: nat, r: nat)
    requires t >= 1
    ensures Point(TileOrigin(t, j), TileOrigin(t, r)) in TilesFrom(fs, t, width, height, r0) <==>
      r0 <= r < |fs| && TileOrigin(t, r) < height && TileOrigin(t, j) < width && Bit16(fs[r], j)
    decreases height - r0
  {
    OriginOrder(t, r0, r);
    if TileOrigin(t, r0) < height && r0 < |fs| {
      MulAtLeast(r0, t);
      TilesMember(fs, t, width, height, r0 + 1, j, r);
      RowTilesMember(fs[r0], TileOrigin(t, r0), t, width, 0, j, TileOrigin(t, r));
      assert TilesFrom(fs, t, width, height, r0) ==
        RowTilesFrom(fs[r0], TileOrigin(t, r0), t, width, 0) + TilesFrom(fs, t, width, height, r0 + 1);
    }
  }

  /** One step of the row: the tile at column c, then the rest. */
  lemma RowTilesStep(f: bv16, y: int, t: nat, width: nat, c: nat)
    requires t >= 1 && TileOrigin(t, c) < width
    ensures TileOrigin(t, c + 1) == TileOrigin(t, c) + t
    ensures RowTilesFrom(f, y, t, width, c) ==
      (if Bit16(f, c) then [Point(TileOrigin(t, c), y)] else []) + RowTilesFrom(f, y, t, width, c + 1)
  {
    MulAtLeast(c, t);
  }

  /** One row of tiles, then the rows below it. */
  lemma TilesStep(fs: seq<bv16>, t: nat, width: nat, height: nat, r: nat)
    requires t >= 1 && TileOrigin(t, r) < height && r < |fs|
    ensures TileOrigin(t, r + 1) == TileOrigin(t, r) + t
    ensures TilesFrom(fs, t, width, height, r) ==
      RowTilesFrom(fs[r], TileOrigin(t, r), t, width, 0) + TilesFrom(fs, t, width, height, r + 1)
  {
    MulAtLeast(r, t);
  }

  /** displayBuffer's `y >> B` at the origin of row r is r, a row with a flag word. */
  lemma RowOfOrigin(r: nat, b: nat, n: nat, height: nat)
    requires b < 32 && TileOrigin(Pow2(b), r) < height <= n * Pow2(b)
    ensures r < n && ShiftRight(TileOrigin(Pow2(b), r), b) == r
  {
    MulLess(r, n, Pow2(b));
    ShiftRightLeft(r, b);
  }

  /** `flag >>= 1`, c times. */
  function ShrN(f: bv16, c: nat): bv16 {
    if c == 0 then f else ShrN(f, c - 1) >> 1
  }

  lemma {:induction false} ShrNValue(f: bv16, c: nat)
    ensures ShrN(f, c) == if c < 16 then f >> Amount(c) else 0
  {
    if c > 0 {
      ShrNValue(f, c - 1);
      if c < 16 {
        AmountSucc(c);
        ShiftStep(f, Amount(c - 1));
      } else if c == 16 {
        AmountSucc(15);
        ShiftTop(f);
      }
    }
  }

  lemma AmountSucc(c: nat)
    requires 0 < c < 16
    ensures Amount(c) == Amount(c - 1) + 1 && Amount(c - 1) < 15 && Amount(15) == 15
  {
  }

  lemma ShiftStep(f: bv16, s: bv5)
    requires s < 15
    ensures (f >> s) >> 1 == f >> (s + 1)
  {
  }

  lemma ShiftTop(f: bv16)
    ensures (f >> (15 as bv5)) >> 1 == 0
  {
  }

  /** After c shifts the lowest bit of the word is the bit of tile column c. */
  lemma ShrNBit(f: bv16, c: nat)
    ensures (ShrN(f, c) & 1 != 0) == Bit16(f, c)
  {
    ShrNValue(f, c);
  }

  /** One round of displayBuffer's inner loop: test the low bit, then shift it out. */
  lemma ScanStep(f: bv16, c: nat, flag: bv16)
    requires flag == ShrN(f, c)
    ensures (flag & 0x01 != 0) == Bit16(f, c)
    ensures flag >> 1 == ShrN(f, c + 1)
  {
    ShrNSucc(f, c);
    ShrNBit(f, c);
  }

  lemma ShrNSucc(f: bv16, c: nat)
    ensures ShrN(f, c + 1) == ShrN(f, c) >> 1
  {
  }

  /**
   * A pixel that refresh(point) marks is redrawn by the next displayBuffer:
   * with tiles 2^B pixels square, the tile whose bit the pixel sets is
   * handed to the draw callback and holds the pixel.
   */
  lemma RefreshedPixelRedrawn(fs: seq<bv16>, b: nat, px: int, py: int, width: nat, height: nat)
    requires b < 32 && 0 <= px < width && 0 <= py < height
    requires ShiftRight(py, b) < |fs| && ShiftRight(px, b) < 16
    ensures var t, j, r := Pow2(b), ShiftRight(px, b), ShiftRight(py, b);
      j >= 0 && r >= 0 &&
      Point(TileOrigin(t, j), TileOrigin(t, r)) in TilesFrom(RefreshedPoint(fs, b, Point(px, py)), t, width, height, 0) &&
      TileOrigin(t, j) <= px < TileOrigin(t, j) + t && TileOrigin(t, r) <= py < TileOrigin(t, r) + t
  {
    var t, j, r := Pow2(b), ShiftRight(px, b), ShiftRight(py, b);
    ShiftRightMono(0, px, b);
    ShiftRightMono(0, py, b);
    assert ShiftRight(0, b) == 0;
    var fs2 := RefreshedPoint(fs, b, Point(px, py));
    RefreshedPointBits(fs, b, Point(px, py), r, j);
    TilesMember(fs2, t, width, height, 0, j, r);
  }

  /**
   * As written, the 32x32 monochrome tile (W = H = 32, B = 4) disagrees:
   * refresh of pixel (16, 0) sets bit 16 >> 4 = 1 of row 0, and
   * displayBuffer, stepping 32 pixels per bit, draws that bit as the tile
   * at x = 32, which does not hold the pixel; the tile at x = 0, which
   * does, is not redrawn.
   */
  lemma Tile32x32MonoMisses(fs: seq<bv16>)
    requires |fs| == MaxTiles(4) && forall r :: 0 <= r < |fs| ==> fs[r] == 0
    ensures ShiftRight(16, 4) == 1
    ensures RowTilesFrom(RefreshedPoint(fs, 4, Point(16, 0))[0], 0, 32, 128, 0) == [Point(32, 0)]
    ensures !(TileOrigin(32, 1) <= 16 < TileOrigin(32, 1) + 32)
  {
    assert Pow2(4) == 16;
    assert ShiftRight(16, 4) == 1 && ShiftRight(0, 4) == 0;
    var f := RefreshedPoint(fs, 4, Point(16, 0))[0];
    assert f == 2;
    assert RowTilesFrom(f, 0, 32, 128, 4) == [];
    assert RowTilesFrom(f, 0, 32, 128, 3) == [];
    assert RowTilesFrom(f, 0, 32, 128, 2) == [];
    assert RowTilesFrom(f, 0, 32, 128, 1) == [Point(32, 0)];
  }

  // ---------------------------------------------------------------------
  // NanoEngineTiler

  /** The tiler's refresh flags and the engine offset. */
  class NanoEngineTiler {
    /** B: a tile is 2^B pixels square. */
    const bits: nat
    /** NE_MAX_TILES_NUM */
    const n: nat
    /** m_refreshFlags: one word per row of tiles. */
    const flags: array<bv16>
    var offset: Point

    predicate Valid() {
      3 <= bits <= 9 && n == MaxTiles(bits) && flags.Length == n
    }

    /** The constructor marks every tile for redrawing. */
    constructor (b: nat)
      requires 3 <= b <= 9
      ensures Valid() && bits == b && fresh(flags) && offset == Point(0, 0)
      ensures forall r :: 0 <= r < n ==> flags[r] == 0xFFFF
    {
      bits := b;
      n := MaxTiles(b);
      flags := new bv16[MaxTiles(b)];
      offset := Point(0, 0);
      new;
      RefreshAll();
    }

    /** refresh(): memset of the words to 0xFF bytes. */
    method RefreshAll()
      requires Valid()
      modifies flags
      ensures forall r :: 0 <= r < n ==> flags[r] == 0xFFFF
      ensures Grows(old(flags[..]), flags[..])
    {
      var i := 0;
      while i < n
        invariant 0 <= i <= n
        invariant forall r :: 0 <= r < i ==> flags[r] == 0xFFFF
        invariant forall r :: i <= r < n ==> flags[r] == old(flags[r])
      {
        flags[i] := 0xFFFF;
        i := i + 1;
      }
    }

    /** refresh(point); undefined for a point in the rows with a negative or too large tile column. */
    method RefreshPoint(p: Point)
      requires Valid()
      requires PointInRows(bits, n, p) ==> 0 <= ShiftRight(p.x, bits) < 31
      modifies flags
      ensures flags[..] == RefreshedPoint(old(flags[..]), bits, p)
    {
      if p.y < 0 || ShiftRight(p.y, bits) >= n {
        return;
      }
      var row := ShiftRight(p.y, bits);
      flags[row] := flags[row] | ColMask(ShiftRight(p.x, bits));
    }

    /** refresh(x1, y1, x2, y2) */
    method Refresh(x1: int, y1: int, x2: int, y2: int)
      requires Valid() && RefreshDefined(bits, n, x1, y1, x2, y2)
      modifies flags
      ensures flags[..] == Refreshed(old(flags[..]), bits, x1, y1, x2, y2)
    {
      if y2 < 0 {
        RefreshedWords(old(flags[..]), flags[..], bits, x1, y1, x2, y2);
        return;
      }
      var ya, xa := y1, x1;
      if ya < 0 {
        ya := 0;
      }
      if xa < 0 {
        xa := 0;
      }
      var rowFrom := ToByte(ShiftRight(ya, bits));
      var rowTo := Min(ShiftRight(y2, bits), n - 1);
      var colTo := ShiftRight(x2, bits);
      var colFrom := ToByte(ShiftRight(xa, bits));
      assert rowFrom == RowFrom(bits, y1) && rowTo == RowTo(bits, n, y2);
      assert colFrom == ColFrom(bits, x1) && colTo == ColTo(bits, x2);
      RefreshRows(rowFrom, rowTo, colFrom, colTo);
      assert forall r :: 0 <= r < n ==> (InRows(bits, n, y1, y2, r) <==> rowFrom <= r <= rowTo);
      RefreshedWords(old(flags[..]), flags[..], bits, x1, y1, x2, y2);
    }

    /** The outer loop of refresh(x1, y1, x2, y2): columns colFrom..colTo of rows rowFrom..rowTo. */
    method RefreshRows(rowFrom: nat, rowTo: int, colFrom: nat, colTo: int)
      requires Valid() && rowTo < n && (rowFrom > rowTo || colFrom > colTo || colTo < 31)
      modifies flags
      ensures forall r :: 0 <= r < n ==>
        flags[r] == if rowFrom <= r <= rowTo then old(flags[r]) | ColsMask(colFrom, colTo) else old(flags[r])
    {
      var y := rowFrom;
      while y <= rowTo
        invariant rowFrom <= y && (y <= rowTo + 1 || y == rowFrom)
        invariant forall r :: 0 <= r < n ==>
          flags[r] == if rowFrom <= r < y then old(flags[r]) | ColsMask(colFrom, colTo) else old(flags[r])
      {
        RefreshRow(y, colFrom, colTo);
        y := y + 1;
      }
    }

    /** The inner loop of refresh(x1, y1, x2, y2): the bits of columns colFrom..colTo of one word. */
    method RefreshRow(y: nat, colFrom: nat, colTo: int)
      requires Valid() && y < n && (colFrom > colTo || colTo < 31)
      modifies flags
      ensures flags[y] == old(flags[y]) | ColsMask(colFrom, colTo)
      ensures forall r :: 0 <= r < n && r != y ==> flags[r] == old(flags[r])
    {
      var x := colFrom;
      while x <= colTo
        invariant colFrom <= x && (x <= colTo + 1 || x == colFrom)
        invariant flags[y] == old(flags[y]) | RowBits(colFrom, x - 1)
        invariant forall r :: 0 <= r < n && r != y ==> flags[r] == old(flags[r])
      {
        RowBitsStep(old(flags[y]), colFrom, x);
        OrWord(y, ColMask(x));
        x := x + 1;
      }
      RowBitsExit(old(flags[y]), colFrom, x, colTo);
    }

    /** `m_refreshFlags[y] |= mask` */
    method OrWord(y: nat, mask: bv16)
      requires y < flags.Length
      modifies flags
      ensures flags[..] == old(flags[..])[y := old(flags[y]) | mask]
    {
      flags[y] := flags[y] | mask;
    }

    /** refresh(rect) */
    method RefreshRect(rect: Rect)
      requires Valid() && RefreshDefined(bits, n, rect.p1.x, rect.p1.y, rect.p2.x, rect.p2.y)
      modifies flags
      ensures flags[..] == Refreshed(old(flags[..]), bits, rect.p1.x, rect.p1.y, rect.p2.x, rect.p2.y)
    {
      Refresh(rect.p1.x, rect.p1.y, rect.p2.x, rect.p2.y);
    }

    /** refreshWorld(x1, y1, x2, y2): the rectangle moved from world to screen coordinates. */
    method RefreshWorld(x1: int, y1: int, x2: int, y2: int)
      requires Valid()
      requires RefreshDefined(bits, n, x1 - offset.x, y1 - offset.y, x2 - offset.x, y2 - offset.y)
      modifies flags
      ensures flags[..] ==
        Refreshed(old(flags[..]), bits, x1 - offset.x, y1 - offset.y, x2 - offset.x, y2 - offset.y)
    {
      Refresh(x1 - offset.x, y1 - offset.y, x2 - offset.x, y2 - offset.y);
    }

    /** refreshWorld(point) */
    method RefreshWorldPoint(p: Point)
      requires Valid()
      requires PointInRows(bits, n, Minus(p, offset)) ==> 0 <= ShiftRight(Minus(p, offset).x, bits) < 31
      modifies flags
      ensures flags[..] == RefreshedPoint(old(flags[..]), bits, Minus(p, offset))
    {
      RefreshPoint(Minus(p, offset));
    }

    /**
     * displayBuffer for a display of the given size: with a draw callback,
     * every row of tiles on the display has its word read and cleared, and
     * the callback is called for every tile whose bit was set, row after
     * row, left to right; the result is the list of the tiles' origins.
     * Without a callback the canvas is sent as it is and no flag changes.
     */
    method DisplayBuffer(width: nat, height: nat, hasOnDraw: bool) returns (tiles: seq<Point>)
      requires Valid() && height <= n * Pow2(bits)
      modifies flags
      ensures !hasOnDraw ==> tiles == [] && flags[..] == old(flags[..])
      ensures hasOnDraw ==> tiles == TilesFrom(old(flags[..]), Pow2(bits), width, height, 0)
      ensures hasOnDraw ==> forall r :: 0 <= r < n ==>
        flags[r] == if TileOrigin(Pow2(bits), r) < height then 0 else old(flags[r])
    {
      tiles := [];
      if !hasOnDraw {
        return;
      }
      ghost var fs := flags[..];
      var t := Pow2(bits);
      var y := 0;
      ghost var r: nat := 0;
      while y < height
        invariant y == TileOrigin(t, r) && (r == 0 || TileOrigin(t, r - 1) < height)
        invariant tiles + TilesFrom(fs, t, width, height, r) == TilesFrom(fs, t, width, height, 0)
        invariant forall i :: 0 <= i < n ==> flags[i] == if i < r then 0 else fs[i]
        decreases height - y
      {
        RowOfOrigin(r, bits, n, height);
        TilesStep(fs, t, width, height, r);
        var row := ShiftRight(y, bits);
        var flag := TakeWord(row);
        var rowTiles := ScanRow(flag, y, width);
        ghost var rest := TilesFrom(fs, t, width, height, r + 1);
        assert (tiles + rowTiles) + rest == tiles + (rowTiles + rest);
        tiles := tiles + rowTiles;
        y := y + t;
        r := r + 1;
      }
      forall i | 0 <= i < n
        ensures flags[i] == if TileOrigin(t, i) < height then 0 else fs[i]
      {
        if i < r {
          OriginOrder(t, i, r - 1);
        } else {
          OriginOrder(t, r, i);
        }
      }
    }

    /** `uint16_t flag = m_refreshFlags[y >> B]; m_refreshFlags[y >> B] = 0;` */
    method TakeWord(row: nat) returns (flag: bv16)
      requires row < flags.Length
      modifies flags
      ensures flag == old(flags[row]) && flags[row] == 0
      ensures forall i :: 0 <= i < flags.Length && i != row ==> flags[i] == old(flags[i])
    {
      flag := flags[row];
      flags[row] := 0;
    }

    /**
     * The inner loop of displayBuffer for one row of tiles at height y:
     * the tiles whose bits of the word are set, left to right, up to the
     * display's right edge.
     */
    method ScanRow(f: bv16, y: nat, width: nat) returns (row: seq<Point>)
      requires Valid()
      ensures row == RowTilesFrom(f, y, Pow2(bits), width, 0)
    {
      var t := Pow2(bits);
      row := [];
      var flag := f;
      var x := 0;
      ghost var c: nat := 0;
      while x < width
        invariant x == TileOrigin(t, c) && flag == ShrN(f, c)
        invariant row + RowTilesFrom(f, y, t, width, c) == RowTilesFrom(f, y, t, width, 0)
        decreases width - x
      {
        ScanStep(f, c, flag);
        RowTilesStep(f, y, t, width, c);
        if flag & 0x01 != 0 {
          // canvas.setOffset(x, y); m_onDraw(); the callback draws the tile
          row := row + [Point(x, y)];
        }
        flag := flag >> 1;
        x := x + t;
        c := c + 1;
      }
    }
  }
}
