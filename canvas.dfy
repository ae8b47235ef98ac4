/**
 * The in-memory canvases of the nano engine.
 *
 * NanoCanvas8 keeps one byte per pixel, row after row: pixel (x, y) is byte
 * y*w + x. NanoCanvas1 keeps one bit per pixel in pages of eight rows:
 * pixel (x, y) is bit y%8 of byte (y/8)*k + x, where k is the page
 * stride. Both subtract the canvas offset from every coordinate and clip
 * to the canvas before touching the buffer, and both change the caller's
 * byte buffer in place.
 *
 * The page stride of NanoCanvas1 is the corrected one, the width itself:
 * the stride drawVLine steps by and the one the documented w*h/8 buffer
 * holds. `MpAsWritten` models the computation of the library, which takes
 * the largest power of two not above the width instead.
 */
module Canvas {
  import opened Arith
  import opened Points

  // ---------------------------------------------------------------------
  // Bits of a page byte

  /** `1 << i` for a row within a page. */
  function BitMask(i: nat): bv8
    requires i < 8
  {
    (1 as bv8) << (i as bv8)
  }

  /** Bit i of a page byte (row i of the page) is lit. */
  predicate Bit(b: bv8, i: nat)
    requires i < 8
  {
    b & BitMask(i) != 0
  }

  /** `b |= mask` when drawing in a non-zero colour, `b &= ~mask` otherwise. */
  function Apply(b: bv8, mask: bv8, on: bool): (r: bv8)
    ensures r & mask == (if on then mask else 0)
    ensures r & !mask == b & !mask
  {
    if on then b | mask else b & !mask
  }

  lemma ApplyBit(b: bv8, mask: bv8, on: bool, i: nat)
    requires i < 8
    ensures Bit(Apply(b, mask, on), i) == if Bit(mask, i) then on else Bit(b, i)
  {
  }

  lemma MaskBit(i: nat, j: nat)
    requires i < 8 && j < 8
    ensures Bit(BitMask(i), j) == (j == i)
  {
  }

  /**
   * The mask fillRect applies in page `bank` for rows y1..y2, where bank1
   * and bank2 are the pages of y1 and y2 and lo, hi their rows in the page.
   */
  function BankMask(bank: nat, bank1: nat, bank2: nat, lo: nat, hi: nat): bv8
    requires lo < 8 && hi < 8
    requires bank1 == bank2 ==> lo <= hi
  {
    if bank1 == bank2 then (0xFF >> ((lo + 7 - hi) as bv8)) << (lo as bv8)
    else if bank1 == bank then 0xFF << (lo as bv8)
    else if bank2 == bank then 0xFF >> ((7 - hi) as bv8)
    else 0xFF
  }

  /** Row j of page `bank` is in the mask exactly when row bank*8+j lies in y1..y2. */
  lemma BankMaskBit(bank: nat, bank1: nat, bank2: nat, lo: nat, hi: nat, j: nat)
    requires lo < 8 && hi < 8 && j < 8
    requires bank1 <= bank <= bank2
    requires bank1 == bank2 ==> lo <= hi
    ensures Bit(BankMask(bank, bank1, bank2, lo, hi), j) <==>
      bank1 * 8 + lo <= bank * 8 + j <= bank2 * 8 + hi
  {
    var m := BankMask(bank, bank1, bank2, lo, hi);
    if bank1 == bank2 {
      assert Bit(m, j) <==> lo <= j <= hi by { SameBankMask(lo, hi, j); }
    } else if bank1 == bank {
      assert Bit(m, j) <==> lo <= j by { LowMask(lo, j); }
    } else if bank2 == bank {
      assert Bit(m, j) <==> j <= hi by { HighMask(hi, j); }
    } else {
      assert Bit(m, j) by { AllMask(j); }
    }
  }

  lemma SameBankMask(lo: nat, hi: nat, j: nat)
    requires lo <= hi < 8 && j < 8
    ensures Bit((0xFF >> ((lo + 7 - hi) as bv8)) << (lo as bv8), j) <==> lo <= j <= hi
  {
    var m: bv8 := 0xFF >> ((lo + 7 - hi) as bv8);
    ShiftLeftBit(m, lo, j);
    if lo <= j {
      HighMask(hi - lo, j - lo);
    }
  }

  /** Shifting left by s moves bit j - s to bit j and clears the s low bits. */
  lemma ShiftLeftBit(m: bv8, s: nat, j: nat)
    requires s < 8 && j < 8
    ensures Bit(m << (s as bv8), j) <==> s <= j && Bit(m, j - s)
  {
    // one case per shift distance keeps each bit-vector query small
    if s < 4 {
      if s < 2 {
        if s == 0 { } else { }
      } else {
        if s == 2 { } else { }
      }
    } else {
      if s < 6 {
        if s == 4 { } else { }
      } else {
        if s == 6 { } else { }
      }
    }
  }

  lemma LowMask(lo: nat, j: nat)
    requires lo < 8 && j < 8
    ensures Bit(0xFF << (lo as bv8), j) <==> lo <= j
  {
  }

  lemma HighMask(hi: nat, j: nat)
    requires hi < 8 && j < 8
    ensures Bit(0xFF >> ((7 - hi) as bv8), j) <==> j <= hi
  {
  }

  lemma AllMask(j: nat)
    requires j < 8
    ensures Bit(0xFF, j)
  {
  }

  // ---------------------------------------------------------------------
  // Addresses

  /** For 0 <= c < k, the address b*k + c splits back into page b and column c. */
  lemma SplitAddr(b: int, c: int, k: int)
    requires k > 0 && b >= 0 && 0 <= c < k
    ensures (b * k + c) / k == b && (b * k + c) % k == c
  {
    var a := b * k + c;
    var q, r := a / k, a % k;
    assert a == q * k + r;
    MulLess(q, b + 1, k);
    MulLess(b, q + 1, k);
  }

  /** Byte `col` of row (or page) `row` in a buffer whose rows are k bytes apart. */
  function Index(k: nat, row: nat, col: nat): nat {
    row * k + col
  }

  /** Different (page, column) pairs of a buffer of n pages have different addresses below n*k. */
  lemma IndexUnique(k: nat, n: nat)
    requires k > 0
    ensures forall b, c :: 0 <= b < n && 0 <= c < k ==> Index(k, b, c) < n * k
    ensures forall b1: nat, c1: nat, b2: nat, c2: nat ::
      0 <= c1 < k && 0 <= c2 < k && Index(k, b1, c1) == Index(k, b2, c2) ==> b1 == b2 && c1 == c2
  {
    forall b, c | 0 <= b < n && 0 <= c < k ensures Index(k, b, c) < n * k {
      MulMono(b + 1, n, k);
    }
    forall b1: nat, c1: nat, b2: nat, c2: nat | 0 <= c1 < k && 0 <= c2 < k && Index(k, b1, c1) == Index(k, b2, c2)
      ensures b1 == b2 && c1 == c2
    {
      SplitAddr(b1, c1, k);
      SplitAddr(b2, c2, k);
    }
  }

  // ---------------------------------------------------------------------
  // Clipping, shared by both canvases

  datatype Segment = Segment(y: nat, lo: nat, hi: nat)
  datatype Box = Box(x1: nat, y1: nat, x2: nat, y2: nat)


  /**
   * drawHLine's clipping: the ends put in order, moved by the offset and
   * clipped to the canvas; nothing when the row or the whole span is off it.
   */
  function ClipHLine(x1: int, y1: int, x2: int, offset: Point, w: nat, h: nat): (r: Option<Segment>)
    requires w > 0
    ensures r.Some? ==> r.value.lo <= r.value.hi < w && r.value.y < h
    ensures forall x, y :: 0 <= x < w && 0 <= y < h ==>
      (OnHLine(x1, y1, x2, offset, x, y) <==> r.Some? && y == r.value.y && r.value.lo <= x <= r.value.hi)
  {
    var a := Min(x1, x2) - offset.x;
    var b := Max(x1, x2) - offset.x;
    var ly := y1 - offset.y;
    if ly >= h || ly < 0 then None
    else if b < 0 || a >= w then None
    else Some(Segment(ly, Max(0, a), Min(b, w - 1)))
  }

  /** Canvas pixel (x, y) lies on the line from x1 to x2 in row y1 of the world. */
  predicate OnHLine(x1: int, y1: int, x2: int, offset: Point, x: int, y: int) {
    y + offset.y == y1 && Min(x1, x2) <= x + offset.x <= Max(x1, x2)
  }

  /** fillRect's clipping: the corners put in order, moved by the offset and clipped to the canvas. */
  function ClipRect(x1: int, y1: int, x2: int, y2: int, offset: Point, w: nat, h: nat): (r: Option<Box>)
    requires w > 0 && h > 0
    ensures r.Some? ==> r.value.x1 <= r.value.x2 < w && r.value.y1 <= r.value.y2 < h
    ensures forall x, y :: 0 <= x < w && 0 <= y < h ==>
      (InRect(x1, y1, x2, y2, offset, x, y) <==> r.Some? && InBox(r.value, x, y))
  {
    var xa := Min(x1, x2) - offset.x;
    var xb := Max(x1, x2) - offset.x;
    var ya := Min(y1, y2) - offset.y;
    var yb := Max(y1, y2) - offset.y;
    if xb < 0 || xa >= w then None
    else if yb < 0 || ya >= h then None
    else Some(Box(Max(0, xa), Max(0, ya), Min(xb, w - 1), Min(yb, h - 1)))
  }

  /** Canvas pixel (x, y) lies in the world rectangle with corners (x1, y1) and (x2, y2). */
  predicate InRect(x1: int, y1: int, x2: int, y2: int, offset: Point, x: int, y: int) {
    Min(x1, x2) <= x + offset.x <= Max(x1, x2) && Min(y1, y2) <= y + offset.y <= Max(y1, y2)
  }

  predicate InBox(b: Box, x: int, y: int) {
    b.x1 <= x <= b.x2 && b.y1 <= y <= b.y2
  }

  // ---------------------------------------------------------------------
  // The page stride of NanoCanvas1

  /** The loop `m_p = 3; while (w >> (m_p + 1)) m_p++;` from a given m_p. */
  function MpLoop(w: nat, p: nat): nat
    decreases w - p
  {
    if w / Pow2(p + 1) != 0 then
      DivNonZero(w, Pow2(p + 1));
      Pow2Above(p + 1);
      MpLoop(w, p + 1)
    else p
  }

  lemma {:induction false} Pow2Above(n: nat)
    ensures Pow2(n) > n
  {
    if n > 0 {
      Pow2Above(n - 1);
    }
  }

  /** m_p as the library computes it: the largest p >= 3 with 2^p <= w, or 3. */
  function MpAsWritten(w: nat): nat {
    MpLoop(w, 3)
  }

  /** Canvas-1 byte address of pixel (x, y) for page stride k. */
  function Addr1(k: nat, x: nat, y: nat): nat {
    Index(k, y / 8, x)
  }

  /**
   * As written, a 12-pixel-wide canvas gets the page stride 8, so the
   * pixels (8, 0) and (0, 8) of a 12x16 canvas share byte 8, and both are
   * row 0 of their page, so they share bit 0 of it: drawing one draws the
   * other.
   */
  lemma MpAsWrittenAliases()
    ensures MpAsWritten(12) == 3 && Pow2(3) == 8
    ensures Addr1(8, 8, 0) == Addr1(8, 0, 8) == 8
  {
    assert Pow2(4) == 16;
    assert 12 / Pow2(4) == 0;
    assert MpLoop(12, 3) == 3;
  }

  /** With a stride that holds a row (the width, in particular), distinct pixels have distinct bits. */
  lemma AddrUnique(k: nat, w: nat, x1: nat, y1: nat, x2: nat, y2: nat)
    requires w <= k && x1 < w && x2 < w
    requires Addr1(k, x1, y1) == Addr1(k, x2, y2) && y1 % 8 == y2 % 8
    ensures x1 == x2 && y1 == y2
  {
    SplitAddr(y1 / 8, x1, k);
    SplitAddr(y2 / 8, x2, k);
  }

  /**
   * For a width that is a power of two from 8 on, the loop as written gives
   * exactly that power, so its page stride is the width.
   */
  lemma MpAsWrittenOnPowers(k: nat)
    requires k >= 3
    ensures MpAsWritten(Pow2(k)) == k
  {
    MpLoopPower(k, 3);
  }

  lemma {:induction false} Pow2Mono(a: nat, b: nat)
    requires a <= b
    ensures Pow2(a) <= Pow2(b)
    ensures a < b ==> Pow2(a) < Pow2(b)
    decreases b - a
  {
    if a < b {
      Pow2Mono(a, b - 1);
    }
  }

  lemma {:induction false} MpLoopPower(k: nat, p: nat)
    requires 3 <= p <= k
    ensures MpLoop(Pow2(k), p) == k
    decreases k - p
  {
    Pow2Above(p + 1);
    var w, d := Pow2(k), Pow2(p + 1);
    if p < k {
      Pow2Mono(p + 1, k);
      DivAtLeastOne(w, d);
      MpLoopPower(k, p + 1);
      assert MpLoop(w, p) == MpLoop(w, p + 1);
    } else {
      Pow2Mono(k, p + 1);
      DivBelow(w, d);
      assert MpLoop(w, p) == p;
    }
  }

  lemma DivBelow(a: nat, k: nat)
    requires a < k
    ensures a / k == 0
  {
  }

  lemma DivNonZero(a: nat, k: nat)
    requires 0 < k && a / k != 0
    ensures k <= a
  {
  }

  lemma DivAtLeastOne(a: nat, k: nat)
    requires 0 < k <= a
    ensures a / k != 0
  {
  }

  // ---------------------------------------------------------------------
  // Pixel views of the buffers

  /** The pixel (x, y) of a canvas-1 buffer with page stride k. */
  predicate Pixel1(s: seq<bv8>, k: nat, x: nat, y: nat) {
    Addr1(k, x, y) < |s| && Bit(s[Addr1(k, x, y)], y % 8)
  }

  /** Pixel (x, y) of a canvas-1 buffer lies inside its first (h/8)*k bytes. */
  lemma Addr1Bound(k: nat, w: nat, h: nat, x: nat, y: nat)
    requires w <= k && x < w && y < h && h % 8 == 0
    ensures Addr1(k, x, y) < (h / 8) * k
  {
    MulMono(y / 8 + 1, h / 8, k);
  }

  // ---------------------------------------------------------------------
  // NanoCanvas1

  /** A one-bit-per-pixel canvas over a caller's byte buffer. */
  class NanoCanvas1 {
    const w: nat
    const h: nat
    const buf: array<bv8>
    var offset: Point
    var color: bv8

    /** The number of bytes the pages take, w*h/8; clear() zeroes exactly these. */
    function Size(): nat {
      (h / 8) * w
    }

    /**
     * Height a whole number of pages, a buffer that holds every page, and
     * 16-bit addresses.
     */
    predicate Valid()
      reads this
    {
      0 < w && 0 < h && h % 8 == 0 && Size() <= buf.Length && Size() < 0x1_0000
    }

    /** begin(w, h, bytes): no offset, white, and a clear buffer; the page stride is w. */
    constructor (width: nat, height: nat, bytes: array<bv8>)
      requires 0 < width && 0 < height && height % 8 == 0
      requires (height / 8) * width <= bytes.Length
      requires (height / 8) * width < 0x1_0000
      modifies bytes
      ensures Valid()
      ensures w == width && h == height && buf == bytes
      ensures offset == Point(0, 0) && color == 0xFF
      ensures forall i :: 0 <= i < Size() ==> buf[i] == 0
      ensures forall i :: Size() <= i < buf.Length ==> buf[i] == old(bytes[i])
    {
      w := width;
      h := height;
      buf := bytes;
      offset := Point(0, 0);
      color := 0xFF;
      new;
      Clear();
    }

    /** setOffset */
    method SetOffset(ox: int, oy: int)
      modifies this
      ensures offset == Point(ox, oy) && color == old(color)
    {
      offset := Point(ox, oy);
    }

    /** setColor */
    method SetColor(c: bv8)
      modifies this
      ensures color == c && offset == old(offset)
    {
      color := c;
    }

    /** clear(): memset of the pages to zero. */
    method Clear()
      requires Valid()
      modifies buf
      ensures forall i :: 0 <= i < Size() ==> buf[i] == 0
      ensures forall i :: Size() <= i < buf.Length ==> buf[i] == old(buf[i])
    {
      var n := Size();
      var i := 0;
      while i < n
        invariant 0 <= i <= n
        invariant forall j :: 0 <= j < i ==> buf[j] == 0
        invariant forall j :: i <= j < buf.Length ==> buf[j] == old(buf[j])
      {
        buf[i] := 0;
        i := i + 1;
      }
    }

    /**
     * putPixel(x, y): after the offset, a pixel outside the canvas is
     * ignored; otherwise its bit is set for a non-zero colour and cleared
     * for colour zero, and no other bit of the buffer changes.
     */
    method PutPixel(x: int, y: int)
      requires Valid()
      modifies buf
      ensures var lx, ly := x - offset.x, y - offset.y;
        if 0 <= lx < w && 0 <= ly < h then
          Addr1(w, lx, ly) < Size() &&
          buf[..] == old(buf[..])[Addr1(w, lx, ly) :=
            Apply(old(buf[Addr1(w, lx, ly)]), BitMask(ly % 8), color != 0)]
        else buf[..] == old(buf[..])
    {
      var lx := x - offset.x;
      var ly := y - offset.y;
      if lx < 0 || ly < 0 {
        return;
      }
      if lx >= w || ly >= h {
        return;
      }
      Addr1Bound(w, w, h, lx, ly);
      var addr := Addr1(w, lx, ly);
      buf[addr] := Apply(buf[addr], BitMask(ly % 8), color != 0);
    }

    /**
     * drawHLine(x1, y1, x2): the clipped span of the row is drawn, byte
     * after byte, with the row's bit; every other byte stays as it was.
     */
    method DrawHLine(x1: int, y1: int, x2: int)
      requires Valid()
      modifies buf
      ensures match ClipHLine(x1, y1, x2, offset, w, h)
        case None => buf[..] == old(buf[..])
        case Some(seg) =>
          Addr1(w, seg.hi, seg.y) < Size() &&
          forall i :: 0 <= i < buf.Length ==>
            buf[i] == if Addr1(w, seg.lo, seg.y) <= i <= Addr1(w, seg.hi, seg.y)
                      then Apply(old(buf[i]), BitMask(seg.y % 8), color != 0) else old(buf[i])
    {
      var a, b := x1, x2;
      if b < a {
        a, b := b, a;
      }
      a := a - offset.x;
      b := b - offset.x;
      var ly := y1 - offset.y;
      if ly >= h || ly < 0 {
        return;
      }
      if b < 0 || a >= w {
        return;
      }
      a := Max(0, a);
      b := Min(b, w - 1);
      Addr1Bound(w, w, h, b, ly);
      var addr := Addr1(w, a, ly);
      ghost var start := addr;
      var mask := BitMask(ly % 8);
      var on := color != 0;
      // do { m_buf[addr++] op mask; } while (x2 > x1++);
      buf[addr] := Apply(buf[addr], mask, on);
      addr := addr + 1;
      while b > a
        invariant 0 <= a <= b && addr == start + (a - Max(0, Min(x1, x2) - offset.x)) + 1
        invariant forall i :: 0 <= i < buf.Length ==>
          buf[i] == if start <= i < addr then Apply(old(buf[i]), mask, on) else old(buf[i])
      {
        a := a + 1;
        buf[addr] := Apply(buf[addr], mask, on);
        addr := addr + 1;
      }
    }

    /**
     * fillRect(x1, y1, x2, y2): in every page the clipped rectangle
     * touches, the bytes of its columns get the page's row mask; every
     * other byte stays as it was. The page and column counters are bytes,
     * so the canvas must be narrower than 256 pixels and have fewer than
     * 256 pages for the loops to end.
     */
    method FillRect(x1: int, y1: int, x2: int, y2: int)
      requires Valid()
      requires w < 256 && h / 8 < 256
      modifies buf
      ensures forall i :: Size() <= i < buf.Length ==> buf[i] == old(buf[i])
      ensures match ClipRect(x1, y1, x2, y2, offset, w, h)
        case None => buf[..] == old(buf[..])
        case Some(bx) =>
          forall bank, col :: 0 <= bank < h / 8 && 0 <= col < w ==>
            Index(w, bank, col) < Size() &&
            buf[Index(w, bank, col)] ==
              if InBoxPage(bx, bank, col)
              then Apply(old(buf[Index(w, bank, col)]), PageMask(bx, bank), color != 0)
              else old(buf[Index(w, bank, col)])
    {
      var xa, xb, ya, yb := x1, x2, y1, y2;
      if xb < xa {
        xa, xb := xb, xa;
      }
      if yb < ya {
        ya, yb := yb, ya;
      }
      xa := xa - offset.x;
      xb := xb - offset.x;
      ya := ya - offset.y;
      yb := yb - offset.y;
      if xb < 0 || xa >= w {
        return;
      }
      if yb < 0 || ya >= h {
        return;
      }
      xa := Max(0, xa);
      xb := Min(xb, w - 1);
      ya := Max(0, ya);
      yb := Min(yb, h - 1);
      ghost var box := Box(xa, ya, xb, yb);
      assert ClipRect(x1, y1, x2, y2, offset, w, h) == Some(box);
      IndexUnique(w, h / 8);
      var bank1 := ya / 8;
      var bank2 := yb / 8;
      var on := color != 0;
      var bank := bank1;
      while bank <= bank2
        invariant bank1 <= bank <= bank2 + 1
        invariant forall i :: Size() <= i < buf.Length ==> buf[i] == old(buf[i])
        invariant forall b, c :: 0 <= b < h / 8 && 0 <= c < w ==>
          buf[Index(w, b, c)] ==
            if b < bank && InBoxPage(box, b, c)
            then Apply(old(buf[Index(w, b, c)]), PageMask(box, b), on)
            else old(buf[Index(w, b, c)])
      {
        var mask := BankMask(bank, bank1, bank2, ya % 8, yb % 8);
        FillPage(bank, xa, xb, mask, on);
        bank := bank + 1;
      }
    }

    /** The inner loop of fillRect: columns xa..xb of page `bank` get `mask`. */
    method FillPage(bank: nat, xa: nat, xb: nat, mask: bv8, on: bool)
      requires Valid() && bank < h / 8 && xa <= xb < w
      modifies buf
      ensures forall i :: Size() <= i < buf.Length ==> buf[i] == old(buf[i])
      ensures forall b, c :: 0 <= b < h / 8 && 0 <= c < w ==>
        Index(w, b, c) < Size() &&
        buf[Index(w, b, c)] ==
          if b == bank && xa <= c <= xb
          then Apply(old(buf[Index(w, b, c)]), mask, on)
          else old(buf[Index(w, b, c)])
    {
      IndexUnique(w, h / 8);
      var x := xa;
      while x <= xb
        invariant xa <= x <= xb + 1
        invariant forall i :: Size() <= i < buf.Length ==> buf[i] == old(buf[i])
        invariant forall b, c :: 0 <= b < h / 8 && 0 <= c < w ==>
          buf[Index(w, b, c)] ==
            if b == bank && xa <= c < x
            then Apply(old(buf[Index(w, b, c)]), mask, on)
            else old(buf[Index(w, b, c)])
      {
        var addr := Index(w, bank, x);
        buf[addr] := Apply(buf[addr], mask, on);
        x := x + 1;
      }
    }
  }

  // ---------------------------------------------------------------------
  // What NanoCanvas1's byte updates mean for its pixels

  /** The buffer geometry every NanoCanvas1 keeps (see NanoCanvas1.Valid). */
  predicate Geometry1(k: nat, w: nat, h: nat, n: nat) {
    0 < w <= k && h % 8 == 0 && (h / 8) * k <= n
  }

  /** putPixel changes the one pixel it is given, to the drawing colour, and no other. */
  lemma PutPixelPixels(s: seq<bv8>, s2: seq<bv8>, k: nat, w: nat, h: nat, lx: nat, ly: nat, on: bool)
    requires Geometry1(k, w, h, |s|) && lx < w && ly < h
    requires Addr1(k, lx, ly) < |s|
    requires s2 == s[Addr1(k, lx, ly) := Apply(s[Addr1(k, lx, ly)], BitMask(ly % 8), on)]
    ensures forall x, y :: 0 <= x < w && 0 <= y < h ==>
      Pixel1(s2, k, x, y) == if x == lx && y == ly then on else Pixel1(s, k, x, y)
  {
    forall x, y | 0 <= x < w && 0 <= y < h
      ensures Pixel1(s2, k, x, y) == if x == lx && y == ly then on else Pixel1(s, k, x, y)
    {
      Addr1Bound(k, w, h, x, y);
      ApplyBit(s[Addr1(k, lx, ly)], BitMask(ly % 8), on, y % 8);
      MaskBit(ly % 8, y % 8);
      if Addr1(k, x, y) == Addr1(k, lx, ly) && y % 8 == ly % 8 {
        AddrUnique(k, w, x, y, lx, ly);
      }
    }
  }

  /**
   * drawHLine lights (or, in colour zero, clears) exactly the canvas pixels
   * on the world line from x1 to x2 in row y1, and leaves every other
   * pixel as it was.
   */
  lemma DrawHLinePixels(s: seq<bv8>, s2: seq<bv8>, k: nat, w: nat, h: nat,
                        x1: int, y1: int, x2: int, offset: Point, on: bool)
    requires Geometry1(k, w, h, |s|) && |s2| == |s|
    requires match ClipHLine(x1, y1, x2, offset, w, h)
      case None => s2 == s
      case Some(seg) =>
        forall i :: 0 <= i < |s| ==>
          s2[i] == if Addr1(k, seg.lo, seg.y) <= i <= Addr1(k, seg.hi, seg.y)
                   then Apply(s[i], BitMask(seg.y % 8), on) else s[i]
    ensures forall x, y :: 0 <= x < w && 0 <= y < h ==>
      Pixel1(s2, k, x, y) == if OnHLine(x1, y1, x2, offset, x, y) then on else Pixel1(s, k, x, y)
  {
    match ClipHLine(x1, y1, x2, offset, w, h)
    case None =>
    case Some(seg) =>
      forall x, y | 0 <= x < w && 0 <= y < h
        ensures Pixel1(s2, k, x, y) == if OnHLine(x1, y1, x2, offset, x, y) then on else Pixel1(s, k, x, y)
      {
        Addr1Bound(k, w, h, x, y);
        SpanAddr(k, w, seg, x, y);
        ApplyBit(s[Addr1(k, x, y)], BitMask(seg.y % 8), on, y % 8);
        MaskBit(seg.y % 8, y % 8);
        assert y / 8 == seg.y / 8 && y % 8 == seg.y % 8 ==> y == seg.y;
      }
  }

  /** A byte of a page lies in the span a line of that page covers exactly when it is in that page and in the line's columns. */
  lemma SpanAddr(k: nat, w: nat, seg: Segment, x: nat, y: nat)
    requires w <= k && x < w && seg.lo <= seg.hi < w
    ensures Addr1(k, seg.lo, seg.y) <= Addr1(k, x, y) <= Addr1(k, seg.hi, seg.y) <==>
      y / 8 == seg.y / 8 && seg.lo <= x <= seg.hi
  {
    var b, sb := y / 8, seg.y / 8;
    assert Addr1(k, x, y) == b * k + x;
    assert Addr1(k, seg.lo, seg.y) == sb * k + seg.lo && Addr1(k, seg.hi, seg.y) == sb * k + seg.hi;
    if b < sb {
      MulMono(b + 1, sb, k);
      assert (b + 1) * k == b * k + k;
    } else if b > sb {
      MulMono(sb + 1, b, k);
      assert (sb + 1) * k == sb * k + k;
    }
  }

  /**
   * fillRect lights (or, in colour zero, clears) exactly the canvas pixels
   * inside the world rectangle and leaves every other pixel as it was.
   */
  lemma FillRectPixels(s: seq<bv8>, s2: seq<bv8>, k: nat, w: nat, h: nat,
                       x1: int, y1: int, x2: int, y2: int, offset: Point, on: bool)
    requires Geometry1(k, w, h, |s|) && |s2| == |s| && 0 < h
    requires match ClipRect(x1, y1, x2, y2, offset, w, h)
      case None => s2 == s
      case Some(bx) =>
        forall bank, col :: 0 <= bank < h / 8 && 0 <= col < k ==>
          Index(k, bank, col) < |s| &&
          s2[Index(k, bank, col)] ==
            if InBoxPage(bx, bank, col)
            then Apply(s[Index(k, bank, col)], PageMask(bx, bank), on)
            else s[Index(k, bank, col)]
    ensures forall x, y :: 0 <= x < w && 0 <= y < h ==>
      Pixel1(s2, k, x, y) == if InRect(x1, y1, x2, y2, offset, x, y) then on else Pixel1(s, k, x, y)
  {
    match ClipRect(x1, y1, x2, y2, offset, w, h)
    case None =>
    case Some(bx) =>
      forall x, y | 0 <= x < w && 0 <= y < h
        ensures Pixel1(s2, k, x, y) == if InRect(x1, y1, x2, y2, offset, x, y) then on else Pixel1(s, k, x, y)
      {
        Addr1Bound(k, w, h, x, y);
        var bank := y / 8;
        var a := Index(k, bank, x);
        assert a == Addr1(k, x, y);
        assert bank < h / 8;
        ApplyBit(s[a], PageMask(bx, bank), on, y % 8);
        if InBoxPage(bx, bank, x) {
          BankMaskBit(bank, bx.y1 / 8, bx.y2 / 8, bx.y1 % 8, bx.y2 % 8, y % 8);
        }
      }
  }

  /** Both page masks and both row tests agree: the page form of a box. */
  predicate InBoxPage(bx: Box, bank: nat, col: nat) {
    bx.y1 / 8 <= bank <= bx.y2 / 8 && bx.x1 <= col <= bx.x2
  }

  /** The row mask of page `bank` for the box's rows. */
  function PageMask(bx: Box, bank: nat): bv8
    requires bx.y1 <= bx.y2
  {
    BankMask(bank, bx.y1 / 8, bx.y2 / 8, bx.y1 % 8, bx.y2 % 8)
  }

  // ---------------------------------------------------------------------
  // NanoCanvas8

  /** A byte-per-pixel canvas over a caller's byte buffer. */
  class NanoCanvas8 {
    const w: nat
    const h: nat
    const buf: array<bv8>
    var offset: Point
    var color: bv8

    /** A non-empty canvas whose w*h pixels fit the buffer; YADDR8 casts y to 16 bits. */
    predicate Valid() {
      0 < w && 0 < h && h <= 0x1_0000 && h * w <= buf.Length
    }

    /** begin(w, h, bytes): no offset, white, and a clear buffer. */
    constructor (width: nat, height: nat, bytes: array<bv8>)
      requires 0 < width && 0 < height && height <= 0x1_0000 && height * width <= bytes.Length
      modifies bytes
      ensures Valid()
      ensures w == width && h == height && buf == bytes
      ensures offset == Point(0, 0) && color == 0xFF
      ensures forall i :: 0 <= i < Cleared() ==> buf[i] == 0
      ensures forall i :: Cleared() <= i < buf.Length ==> buf[i] == old(bytes[i])
    {
      w := width;
      h := height;
      buf := bytes;
      offset := Point(0, 0);
      color := 0xFF;
      new;
      Clear();
    }

    method SetOffset(ox: int, oy: int)
      modifies this
      ensures offset == Point(ox, oy) && color == old(color)
    {
      offset := Point(ox, oy);
    }

    method SetColor(c: bv8)
      modifies this
      ensures color == c && offset == old(offset)
    {
      color := c;
    }

    /**
     * The bytes clear() zeroes, YADDR8(h): the height is cast to 16 bits
     * first, so every pixel byte for a height below 0x10000, and none for
     * a height of exactly 0x10000.
     */
    function Cleared(): (n: nat)
      ensures n <= h * w
      ensures h < 0x1_0000 ==> n == h * w
      ensures h == 0x1_0000 ==> n == 0
    {
      (h % 0x1_0000) * w
    }

    /** clear(): memset of YADDR8(h) bytes to zero. */
    method Clear()
      requires Valid()
      modifies buf
      ensures forall i :: 0 <= i < Cleared() ==> buf[i] == 0
      ensures forall i :: Cleared() <= i < buf.Length ==> buf[i] == old(buf[i])
    {
      var n := Cleared();
      var i := 0;
      while i < n
        invariant 0 <= i <= n
        invariant forall j :: 0 <= j < i ==> buf[j] == 0
        invariant forall j :: i <= j < buf.Length ==> buf[j] == old(buf[j])
      {
        buf[i] := 0;
        i := i + 1;
      }
    }

    /** putPixel(x, y): the colour is stored for a pixel on the canvas, and nothing happens otherwise. */
    method PutPixel(x: int, y: int)
      requires Valid()
      modifies buf
      ensures var lx, ly := x - offset.x, y - offset.y;
        if 0 <= lx < w && 0 <= ly < h then
          Index(w, ly, lx) < h * w && buf[..] == old(buf[..])[Index(w, ly, lx) := color]
        else buf[..] == old(buf[..])
    {
      var lx := x - offset.x;
      var ly := y - offset.y;
      if lx >= 0 && ly >= 0 && lx < w && ly < h {
        IndexUnique(w, h);
        var addr := Index(w, ly, lx);
        buf[addr] := color;
      }
    }

    /**
     * drawHLine(x1, y1, x2): the colour is stored for exactly the canvas
     * pixels on the world line from x1 to x2 in row y1.
     */
    method DrawHLine(x1: int, y1: int, x2: int)
      requires Valid()
      modifies buf
      ensures forall i :: h * w <= i < buf.Length ==> buf[i] == old(buf[i])
      ensures forall row, col :: 0 <= row < h && 0 <= col < w ==>
        Index(w, row, col) < h * w &&
        buf[Index(w, row, col)] ==
          if OnHLine(x1, y1, x2, offset, col, row) then color else old(buf[Index(w, row, col)])
    {
      IndexUnique(w, h);
      var a, b := x1 - offset.x, x2 - offset.x;
      var ly := y1 - offset.y;
      if a > b {
        a, b := b, a;
      }
      if b < 0 || a >= w {
        return;
      }
      if ly < 0 || ly >= h {
        return;
      }
      a := Max(a, 0);
      b := Min(b, w - 1);
      ghost var seg := Segment(ly, a, b);
      assert ClipHLine(x1, y1, x2, offset, w, h) == Some(seg);
      var x := 0;
      while x <= b - a
        invariant 0 <= x <= b - a + 1
        invariant forall i :: h * w <= i < buf.Length ==> buf[i] == old(buf[i])
        invariant forall row, col :: 0 <= row < h && 0 <= col < w ==>
          buf[Index(w, row, col)] ==
            if row == ly && a <= col < a + x then color else old(buf[Index(w, row, col)])
      {
        buf[Index(w, ly, a + x)] := color;
        x := x + 1;
      }
    }

    /**
     * fillRect(x1, y1, x2, y2): the colour is stored for exactly the
     * canvas pixels inside the world rectangle.
     */
    method FillRect(x1: int, y1: int, x2: int, y2: int)
      requires Valid()
      modifies buf
      ensures forall i :: h * w <= i < buf.Length ==> buf[i] == old(buf[i])
      ensures forall row, col :: 0 <= row < h && 0 <= col < w ==>
        Index(w, row, col) < h * w &&
        buf[Index(w, row, col)] ==
          if InRect(x1, y1, x2, y2, offset, col, row) then color else old(buf[Index(w, row, col)])
    {
      IndexUnique(w, h);
      var xa, xb, ya, yb := x1, x2, y1, y2;
      if ya > yb {
        ya, yb := yb, ya;
      }
      if xa > xb {
        xa, xb := xb, xa;
      }
      xa := xa - offset.x;
      ya := ya - offset.y;
      xb := xb - offset.x;
      yb := yb - offset.y;
      if xb < 0 || xa >= w {
        return;
      }
      if yb < 0 || ya >= h {
        return;
      }
      xa := Max(xa, 0);
      xb := Min(xb, w - 1);
      ya := Max(ya, 0);
      yb := Min(yb, h - 1);
      ghost var box := Box(xa, ya, xb, yb);
      assert ClipRect(x1, y1, x2, y2, offset, w, h) == Some(box);
      var addr := Index(w, ya, xa);
      var y := ya;
      while y <= yb
        invariant ya <= y <= yb + 1
        invariant y <= yb ==> addr == Index(w, y, xa)
        invariant forall i :: h * w <= i < buf.Length ==> buf[i] == old(buf[i])
        invariant forall row, col :: 0 <= row < h && 0 <= col < w ==>
          buf[Index(w, row, col)] ==
            if ya <= row < y && xa <= col <= xb then color else old(buf[Index(w, row, col)])
      {
        addr := FillRow(y, xa, xb, addr);
        // buf += m_w - (x2 - x1 + 1): on to the first column of the next row
        addr := addr + (w - (xb - xa + 1));
        assert Index(w, y + 1, xa) == Index(w, y, xa) + w;
        y := y + 1;
      }
    }

    /** The inner loop of fillRect: columns xa..xb of row y, from the address of (xa, y) on. */
    method FillRow(y: nat, xa: nat, xb: nat, start: nat) returns (addr: nat)
      requires Valid() && y < h && xa <= xb < w && start == Index(w, y, xa)
      modifies buf
      ensures addr == start + (xb - xa + 1)
      ensures forall i :: h * w <= i < buf.Length ==> buf[i] == old(buf[i])
      ensures forall row, col :: 0 <= row < h && 0 <= col < w ==>
        Index(w, row, col) < h * w &&
        buf[Index(w, row, col)] ==
          if row == y && xa <= col <= xb then color else old(buf[Index(w, row, col)])
    {
      IndexUnique(w, h);
      addr := start;
      var x := xa;
      while x <= xb
        invariant xa <= x <= xb + 1 && addr == Index(w, y, x)
        invariant forall i :: h * w <= i < buf.Length ==> buf[i] == old(buf[i])
        invariant forall row, col :: 0 <= row < h && 0 <= col < w ==>
          buf[Index(w, row, col)] ==
            if row == y && xa <= col < x then color else old(buf[Index(w, row, col)])
      {
        buf[addr] := color;
        addr := addr + 1;
        x := x + 1;
      }
    }
  }
}
