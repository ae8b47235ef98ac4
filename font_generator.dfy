/**
 * The Generator of the font tools: the bytes of a font container in the
 * two layouts the library reads. The values are those the generator prints
 * into the C array, in order; the text around them (declarations, comments
 * and hexadecimal formatting) is not modelled.
 *
 * The legacy layout is a 4-byte header [type, width, height, first char],
 * with the unicode build a 3-byte unicode record after it, then every glyph
 * as bands of eight rows, column by column, one byte per column of a band
 * with row i of the band in bit i; the unicode build ends it with three
 * zero bytes.
 *
 * The grouped layout is a 4-byte header, then for every group a unicode
 * record, a jump table of 4 bytes per glyph (offset, width, height kept),
 * the 2-byte total of the group's data and the data itself, and finally
 * three zero bytes.
 */
module FontGenerator {
  import opened Arith
  import opened FontContainers

  // ---------------------------------------------------------------------
  // Bytes of a column

  /** Pixels packed into a number, the first in bit 0. */
  function Pack(bits: seq<Pixel>): (v: nat)
    ensures v < Pow2(|bits|)
  {
    if bits == [] then 0 else bits[0] + 2 * Pack(bits[1..])
  }

  /** Bit i of v. */
  function Bit(v: nat, i: nat): nat {
    if i == 0 then v % 2 else Bit(v / 2, i - 1)
  }

  /** Every pixel packed is read back from its bit. */
  lemma {:induction false} PackBit(bits: seq<Pixel>, i: nat)
    requires i < |bits|
    ensures Bit(Pack(bits), i) == bits[i]
  {
    if i > 0 {
      assert Pack(bits) / 2 == Pack(bits[1..]);
      PackBit(bits[1..], i - 1);
    }
  }

  /** A pixel packed after the others lands in bit |bits|. */
  lemma {:induction false} PackSnoc(bits: seq<Pixel>, b: Pixel)
    ensures Pack(bits + [b]) == Pack(bits) + b * Pow2(|bits|)
  {
    if bits != [] {
      assert (bits + [b])[1..] == bits[1..] + [b];
      PackSnoc(bits[1..], b);
    }
  }

  /** Clear pixels after the first i add nothing. */
  lemma {:induction false} PackZeroTail(bits: seq<Pixel>, i: nat)
    requires i <= |bits| && forall k :: i <= k < |bits| ==> bits[k] == 0
    ensures Pack(bits) == Pack(bits[..i])
  {
    if i == 0 {
      if bits != [] {
        PackZeroTail(bits[1..], 0);
      }
    } else {
      assert bits[..i][1..] == bits[1..][..i - 1];
      PackZeroTail(bits[1..], i - 1);
    }
  }

  /** Rows 0 .. limit-1 of the bitmap exist and are at least w pixels long. */
  predicate Covers(bm: Bitmap, limit: int, w: int) {
    limit <= |bm| && forall y :: 0 <= y < limit ==> w <= |bm[y]|
  }

  /** The pixels of column x of band `band`: row band*8+i of the bitmap, 0 from the limit on. */
  function ColumnBits(bm: Bitmap, band: nat, x: nat, limit: int): (bits: seq<Pixel>)
    requires Covers(bm, limit, x + 1)
    ensures |bits| == 8
  {
    seq(8, i requires 0 <= i < 8 => if band * 8 + i < limit then bm[band * 8 + i][x] else 0)
  }

  /** The byte of column x of a band. */
  function ColumnByte(bm: Bitmap, band: nat, x: nat, limit: int): nat
    requires Covers(bm, limit, x + 1)
  {
    Pack(ColumnBits(bm, band, x, limit))
  }

  /** Bit i of a column byte is pixel (band*8+i, x), and the bits past the limit are clear. */
  lemma ColumnByteBits(bm: Bitmap, band: nat, x: nat, limit: int, i: nat)
    requires Covers(bm, limit, x + 1) && i < 8
    ensures ColumnByte(bm, band, x, limit) < 256
    ensures Bit(ColumnByte(bm, band, x, limit), i) == if band * 8 + i < limit then bm[band * 8 + i][x] else 0
  {
    PackBit(ColumnBits(bm, band, x, limit), i);
    assert Pow2(8) == 256;
  }

  /** OR-ing pixel i in at bit i extends the packing of the pixels before it. */
  lemma PackStep(bits: seq<Pixel>, i: nat)
    requires i < |bits|
    ensures OrBits(Pack(bits[..i]), bits[i] * Pow2(i)) == Pack(bits[..i + 1])
  {
    var data := Pack(bits[..i]);
    PackSnoc(bits[..i], bits[i]);
    assert bits[..i + 1] == bits[..i] + [bits[i]];
    OrBitsCommutes(data, bits[i] * Pow2(i));
    OrShifted(bits[i], data, i);
  }

  /**
   * The innermost loop of both layouts: `data |= bitmap[y][x] << i` for the
   * rows of the band up to the limit.
   */
  method PackColumn(bm: Bitmap, band: nat, x: nat, limit: int) returns (data: nat)
    requires Covers(bm, limit, x + 1)
    ensures data == ColumnByte(bm, band, x, limit)
  {
    ghost var bits := ColumnBits(bm, band, x, limit);
    data := 0;
    var i := 0;
    while i < 8
      invariant 0 <= i <= 8 && data == Pack(bits[..i])
      invariant band * 8 + i >= limit ==> forall k :: i <= k < 8 ==> bits[k] == 0
    {
      var y := band * 8 + i;
      if y >= limit {
        break;
      }
      assert bm[y][x] == bits[i];
      PackStep(bits, i);
      // `bitmap[y][x] << i` is the pixel times 2^i
      data := OrBits(data, bm[y][x] * Pow2(i));
      i := i + 1;
    }
    PackZeroTail(bits, i);
  }

  /** Band `band`: the bytes of its columns 0 .. width-1. */
  function Band(bm: Bitmap, band: nat, width: nat, limit: int): (r: seq<int>)
    requires Covers(bm, limit, width)
    ensures |r| == width
  {
    seq(width, x requires 0 <= x < width => ColumnByte(bm, band, x, limit))
  }

  /** Bands 0 .. n-1, one after the other. */
  function Bands(bm: Bitmap, n: nat, width: nat, limit: int): seq<int>
    requires Covers(bm, limit, width)
  {
    if n == 0 then [] else Bands(bm, n - 1, width, limit) + Band(bm, n - 1, width, limit)
  }

  lemma {:induction false} BandsLength(bm: Bitmap, n: nat, width: nat, limit: int)
    requires Covers(bm, limit, width)
    ensures |Bands(bm, n, width, limit)| == n * width
  {
    if n > 0 {
      BandsLength(bm, n - 1, width, limit);
    }
  }

  /** In n bands of `width` bytes, column x of band b is byte b*width + x. */
  lemma {:induction false} BandsAt(bm: Bitmap, n: nat, width: nat, limit: int, b: nat, x: nat)
    requires Covers(bm, limit, width) && b < n && x < width
    ensures |Bands(bm, n, width, limit)| == n * width
    ensures Bands(bm, n, width, limit)[b * width + x] == ColumnByte(bm, b, x, limit)
  {
    BandsLength(bm, n, width, limit);
    BandsLength(bm, n - 1, width, limit);
    var front := Bands(bm, n - 1, width, limit);
    MulSucc(b, width);
    MulMono(0, b, width);
    if b < n - 1 {
      MulMono(b + 1, n - 1, width);
      BandsAt(bm, n - 1, width, limit, b, x);
      assert b * width + x < |front|;
    } else {
      assert b * width == |front|;
    }
  }

  /** The two loops over bands and columns of both layouts. */
  method EmitBands(bm: Bitmap, rows: nat, width: nat, limit: int) returns (out: seq<int>)
    requires Covers(bm, limit, width)
    ensures out == Bands(bm, rows, width, limit)
  {
    out := [];
    var row := 0;
    while row < rows
      invariant 0 <= row <= rows && out == Bands(bm, row, width, limit)
    {
      ghost var start := out;
      var x := 0;
      while x < width
        invariant 0 <= x <= width && out == start + Band(bm, row, width, limit)[..x]
      {
        var data := PackColumn(bm, row, x, limit);
        assert Band(bm, row, width, limit)[..x + 1] == Band(bm, row, width, limit)[..x] + [data];
        out := out + [data];
        x := x + 1;
      }
      assert Band(bm, row, width, limit)[..x] == Band(bm, row, width, limit);
      row := row + 1;
    }
  }

  // ---------------------------------------------------------------------
  // Looking the glyphs up

  /** Every character has a glyph in the container. */
  predicate AllFound(gs: seq<seq<Glyph>>, chars: seq<char>) {
    forall k :: 0 <= k < |chars| ==> FindChar(gs, chars[k]).Some?
  }

  /** charBitmap of each character. */
  function Bitmaps(gs: seq<seq<Glyph>>, chars: seq<char>): (r: seq<Bitmap>)
    requires AllFound(gs, chars)
    ensures |r| == |chars|
  {
    seq(|chars|, k requires 0 <= k < |chars| => FindChar(gs, chars[k]).value.bitmap)
  }

  /** A property every glyph has holds for the glyph a lookup finds. */
  lemma FoundHas(gs: seq<seq<Glyph>>, ch: char, P: Glyph -> bool)
    requires FindChar(gs, ch).Some?
    requires forall g, i :: 0 <= g < |gs| && 0 <= i < |gs[g]| ==> P(gs[g][i])
    ensures P(FindChar(gs, ch).value)
  {
    FindCharIn(gs, ch);
  }

  /** A character of the flattened glyphs has a glyph. */
  lemma FlattenFound(gs: seq<seq<Glyph>>, k: nat)
    requires k < |Flatten(gs)|
    ensures FindChar(gs, Flatten(gs)[k].ch).Some?
  {
    var ch := Flatten(gs)[k].ch;
    FindCharNone(gs, ch);
    if FindChar(gs, ch).None? {
      FlattenOnly(gs, (c: Glyph) => c.ch != ch);
    }
  }

  // ---------------------------------------------------------------------
  // The legacy layout

  /** Every bitmap has `limit` rows of at least `width` pixels. */
  predicate AllCover(bms: seq<Bitmap>, limit: int, width: int) {
    forall k :: 0 <= k < |bms| ==> Covers(bms[k], limit, width)
  }

  /** The glyphs of the legacy layout, one after the other. */
  function FixedGlyphs(bms: seq<Bitmap>, rows: nat, width: nat, height: int): seq<int>
    requires AllCover(bms, height, width)
  {
    if bms == [] then []
    else FixedGlyphs(bms[..|bms| - 1], rows, width, height) + Bands(bms[|bms| - 1], rows, width, height)
  }

  lemma {:induction false} FixedGlyphsLength(bms: seq<Bitmap>, rows: nat, width: nat, height: int)
    requires AllCover(bms, height, width)
    ensures |FixedGlyphs(bms, rows, width, height)| == |bms| * (rows * width)
  {
    if bms != [] {
      var n := |bms| - 1;
      FixedGlyphsLength(bms[..n], rows, width, height);
      BandsLength(bms[n], rows, width, height);
      MulSucc(n, rows * width);
    }
  }

  /** Each glyph of the legacy layout takes rows*width bytes, glyph k from byte k*rows*width on. */
  lemma {:induction false} FixedGlyphsAt(bms: seq<Bitmap>, rows: nat, width: nat, height: int, k: nat)
    requires AllCover(bms, height, width) && k < |bms|
    ensures |FixedGlyphs(bms, rows, width, height)| == |bms| * (rows * width)
    ensures 0 <= k * (rows * width) && k * (rows * width) + rows * width <= |bms| * (rows * width)
    ensures var size := rows * width;
      FixedGlyphs(bms, rows, width, height)[k * size..k * size + size] == Bands(bms[k], rows, width, height)
  {
    var n := |bms| - 1;
    var size := rows * width;
    FixedGlyphsLength(bms, rows, width, height);
    FixedGlyphsLength(bms[..n], rows, width, height);
    BandsLength(bms[n], rows, width, height);
    MulSucc(k, size);
    MulMono(0, k, size);
    MulMono(k + 1, |bms|, size);
    var front := FixedGlyphs(bms[..n], rows, width, height);
    assert FixedGlyphs(bms, rows, width, height) == front + Bands(bms[n], rows, width, height);
    if k < n {
      FixedGlyphsAt(bms[..n], rows, width, height, k);
      MulMono(k + 1, n, size);
      assert k * size + size <= |front|;
    } else {
      assert k * size == |front|;
    }
  }

  /** The header: type 1 and the unicode record in the unicode build, type 0 without. */
  function FixedHeader(m: Metrics, firstChar: nat, count: nat, unicode: bool): seq<int> {
    if unicode then [1, m.width, m.height, firstChar, (firstChar / 256) % 256, firstChar % 256, count % 256]
    else [0, m.width, m.height, firstChar]
  }

  /** The bytes of one glyph in the legacy layout: rows*width. */
  function GlyphBytes(m: Metrics): nat
    requires 0 <= m.width && 0 <= m.height
  {
    (m.height + 7) / 8 * m.width
  }

  function FixedHeaderLength(unicode: bool): nat {
    if unicode then 7 else 4
  }

  /** What the legacy layout needs of the expanded glyphs. */
  predicate FixedReady(gs: seq<seq<Glyph>>, m: Metrics) {
    var chars := Chars(Flatten(gs));
    0 <= m.width && 0 <= m.height && AllFound(gs, chars) && AllCover(Bitmaps(gs, chars), m.height, m.width)
  }

  /** The bytes of generate_fixed_old for the expanded glyphs gs in the frame m. */
  function FixedOld(gs: seq<seq<Glyph>>, m: Metrics, firstChar: nat, unicode: bool): seq<int>
    requires FixedReady(gs, m)
  {
    var chars := Chars(Flatten(gs));
    FixedHeader(m, firstChar, |chars|, unicode) +
    FixedGlyphs(Bitmaps(gs, chars), (m.height + 7) / 8, m.width, m.height) +
    (if unicode then [0, 0, 0] else [])
  }

  /**
   * The legacy layout: the header, then the glyph of character k at byte
   * header + k*rows*width, each rows*width bytes long, and in the unicode
   * build three zero bytes at the end.
   */
  lemma FixedOldLayout(gs: seq<seq<Glyph>>, m: Metrics, firstChar: nat, unicode: bool, k: nat)
    requires FixedReady(gs, m) && k < |Flatten(gs)|
    ensures FindChar(gs, Flatten(gs)[k].ch).Some?
    ensures Covers(FindChar(gs, Flatten(gs)[k].ch).value.bitmap, m.height, m.width)
    ensures |FixedOld(gs, m, firstChar, unicode)| ==
      FixedHeaderLength(unicode) + |Flatten(gs)| * GlyphBytes(m) + (if unicode then 3 else 0)
    ensures k * GlyphBytes(m) + GlyphBytes(m) <= |Flatten(gs)| * GlyphBytes(m)
    ensures var out := FixedOld(gs, m, firstChar, unicode);
      var size := GlyphBytes(m); var hdr := FixedHeaderLength(unicode);
      out[..hdr] == FixedHeader(m, firstChar, |Flatten(gs)|, unicode) &&
      out[hdr + k * size..hdr + k * size + size] ==
        Bands(FindChar(gs, Flatten(gs)[k].ch).value.bitmap, (m.height + 7) / 8, m.width, m.height) &&
      (unicode ==> out[|out| - 3..] == [0, 0, 0])
  {
    var chars := Chars(Flatten(gs));
    var bms := Bitmaps(gs, chars);
    assert bms[k] == FindChar(gs, Flatten(gs)[k].ch).value.bitmap;
    var trailer := if unicode then [0, 0, 0] else [];
    var hdr := FixedHeader(m, firstChar, |chars|, unicode);
    assert FixedOld(gs, m, firstChar, unicode) ==
      hdr + FixedGlyphs(bms, (m.height + 7) / 8, m.width, m.height) + trailer;
    GlyphsLayout(hdr, bms, (m.height + 7) / 8, m.width, m.height, trailer, k);
  }

  /** A header, the glyphs and a trailer: where each part lies. */
  lemma GlyphsLayout(hdr: seq<int>, bms: seq<Bitmap>, rows: nat, width: nat, height: int, trailer: seq<int>, k: nat)
    requires AllCover(bms, height, width) && k < |bms|
    ensures var out := hdr + FixedGlyphs(bms, rows, width, height) + trailer;
      var size := rows * width;
      |out| == |hdr| + |bms| * size + |trailer| &&
      0 <= k * size && k * size + size <= |bms| * size &&
      out[..|hdr|] == hdr &&
      out[|hdr| + k * size..|hdr| + k * size + size] == Bands(bms[k], rows, width, height) &&
      out[|out| - |trailer|..] == trailer
  {
    var size := rows * width;
    MulMono(0, rows, width);
    assert 0 <= size;
    var glyphs := FixedGlyphs(bms, rows, width, height);
    FixedGlyphsAt(bms, rows, width, height, k);
    var lo := k * size;
    SliceMiddle(hdr, glyphs, trailer, lo, lo + size);
    assert |hdr + glyphs + trailer| == |hdr| + |bms| * size + |trailer|;
  }

  lemma SliceMiddle<T>(a: seq<T>, b: seq<T>, c: seq<T>, lo: nat, hi: nat)
    requires lo <= hi <= |b|
    ensures (a + b + c)[|a| + lo..|a| + hi] == b[lo..hi]
    ensures (a + b + c)[..|a|] == a && (a + b + c)[|a + b + c| - |c|..] == c
  {
    assert (a + b + c)[..|a|] == a;
    assert (a + b + c)[|a + b + c| - |c|..] == c;
    assert forall i :: lo <= i < hi ==> (a + b + c)[|a| + i] == b[i];
  }

  // ---------------------------------------------------------------------
  // The grouped layout

  /** `sum(row)`: a row of pixels adds up to 0 exactly when every pixel is clear. */
  function RowSum(row: seq<Pixel>): (s: nat)
    ensures s == 0 <==> Blank(row)
  {
    if row == [] then 0 else RowSum(row[..|row| - 1]) + row[|row| - 1]
  }

  /** A row with no pixel set. */
  predicate Blank(row: seq<Pixel>) {
    forall k :: 0 <= k < |row| ==> row[k] == 0
  }

  /** The height kept: the rows counted down from h while the last one is clear. */
  function TrimmedHeight(bm: Bitmap, h: nat): (t: nat)
    requires h <= |bm|
    ensures t <= h
  {
    if h > 0 && RowSum(bm[h - 1]) == 0 then TrimmedHeight(bm, h - 1) else h
  }

  /** The rows trimmed are all clear, and the last row kept has a pixel set. */
  lemma {:induction false} TrimmedHeightSpec(bm: Bitmap, h: nat)
    requires h <= |bm|
    ensures forall y, x :: TrimmedHeight(bm, h) <= y < h && 0 <= x < |bm[y]| ==> bm[y][x] == 0
    ensures TrimmedHeight(bm, h) > 0 ==> !Blank(bm[TrimmedHeight(bm, h) - 1])
  {
    if h > 0 && RowSum(bm[h - 1]) == 0 {
      TrimmedHeightSpec(bm, h - 1);
    }
  }

  /** The `while` loop of generate_new_format that trims clear rows off the bottom. */
  method TrimHeight(bm: Bitmap) returns (height: nat)
    ensures height == TrimmedHeight(bm, |bm|)
  {
    height := |bm|;
    while height > 0 && RowSum(bm[height - 1]) == 0
      invariant height <= |bm| && TrimmedHeight(bm, height) == TrimmedHeight(bm, |bm|)
    {
      height := height - 1;
    }
  }

  /** What the grouped layout needs of a bitmap: a first row, and every row as long. */
  predicate Emittable(bm: Bitmap) {
    |bm| > 0 && Rectangular(bm)
  }

  predicate AllEmittable(bms: seq<Bitmap>) {
    forall k :: 0 <= k < |bms| ==> Emittable(bms[k])
  }

  /** Every bitmap has a first row, which gives the width. */
  predicate AllRows(bms: seq<Bitmap>) {
    forall k :: 0 <= k < |bms| ==> |bms[k]| > 0
  }

  lemma EmittableCovers(bm: Bitmap)
    requires Emittable(bm)
    ensures Covers(bm, |bm|, |bm[0]|)
  {
  }

  /** `int((height + 7) / 8) * width`: the bytes of the kept bands. */
  function GlyphSize(bm: Bitmap): nat
    requires |bm| > 0
  {
    ((TrimmedHeight(bm, |bm|) + 7) / 8) * |bm[0]|
  }

  function Sizes(bms: seq<Bitmap>): (r: seq<nat>)
    requires AllRows(bms)
    ensures |r| == |bms|
  {
    seq(|bms|, k requires 0 <= k < |bms| => GlyphSize(bms[k]))
  }

  function Sum(xs: seq<nat>): nat {
    if xs == [] then 0 else Sum(xs[..|xs| - 1]) + xs[|xs| - 1]
  }

  /** A 16-bit value written as `v >> 8, v & 0xFF`. */
  function Word(v: nat): seq<int> {
    [v / 256, v % 256]
  }

  /** The entry of a glyph in a jump table. */
  function JumpEntry(bm: Bitmap, offset: nat): seq<int>
    requires |bm| > 0
  {
    Word(offset) + [|bm[0]|, TrimmedHeight(bm, |bm|)]
  }

  /** The jump table: per glyph, the offset of its data. */
  function JumpTable(bms: seq<Bitmap>): seq<int>
    requires AllRows(bms)
  {
    if bms == [] then []
    else
      var n := |bms| - 1;
      JumpTable(bms[..n]) + JumpEntry(bms[n], Sum(Sizes(bms[..n])))
  }

  /** The bytes of a glyph: its kept bands, reading rows up to the end of the bitmap. */
  function GlyphData(bm: Bitmap): seq<int>
    requires Emittable(bm)
  {
    EmittableCovers(bm);
    Bands(bm, (TrimmedHeight(bm, |bm|) + 7) / 8, |bm[0]|, |bm|)
  }

  function GroupData(bms: seq<Bitmap>): seq<int>
    requires AllEmittable(bms)
  {
    if bms == [] then [] else GroupData(bms[..|bms| - 1]) + GlyphData(bms[|bms| - 1])
  }

  /** One glyph more: the data of the first k + 1 glyphs is that of the first k, then glyph k's. */
  lemma GroupDataStep(bms: seq<Bitmap>, k: nat)
    requires AllEmittable(bms) && k < |bms|
    ensures AllEmittable(bms[..k]) && AllEmittable(bms[..k + 1])
    ensures GroupData(bms[..k + 1]) == GroupData(bms[..k]) + GlyphData(bms[k])
  {
    assert bms[..k + 1][..k] == bms[..k];
  }

  /** The unicode record of a group: its first character, high byte first, and the count. */
  function GroupRecord(chars: seq<char>): seq<int>
    requires |chars| > 0
  {
    [(chars[0] as int / 256) % 256, chars[0] as int % 256, |chars| % 256]
  }

  /** The bytes of one group. */
  function GroupBytes(chars: seq<char>, bms: seq<Bitmap>): seq<int>
    requires |chars| > 0 && AllEmittable(bms)
  {
    GroupRecord(chars) + JumpTable(bms) + Word(Sum(Sizes(bms))) + GroupData(bms)
  }

  /** What the grouped layout needs of group g: it is not empty and each of its glyphs can be emitted. */
  predicate GroupReady(gs: seq<seq<Glyph>>, g: nat)
    requires g < |gs|
  {
    |gs[g]| > 0 && AllFound(gs, Chars(gs[g])) && AllEmittable(Bitmaps(gs, Chars(gs[g])))
  }

  /** What the grouped layout needs of every group. */
  predicate NewReady(gs: seq<seq<Glyph>>) {
    forall g :: 0 <= g < |gs| ==> GroupReady(gs, g)
  }

  function AllGroups(gs: seq<seq<Glyph>>, n: nat): seq<int>
    requires n <= |gs| && NewReady(gs)
  {
    if n == 0 then []
    else
      var chars := Chars(gs[n - 1]);
      assert GroupReady(gs, n - 1);
      AllGroups(gs, n - 1) + GroupBytes(chars, Bitmaps(gs, chars))
  }

  /** One group more appends that group's bytes. */
  lemma AllGroupsSnoc(gs: seq<seq<Glyph>>, g: nat)
    requires g < |gs| && NewReady(gs)
    ensures GroupReady(gs, g)
    ensures AllGroups(gs, g + 1) == AllGroups(gs, g) + GroupBytes(Chars(gs[g]), Bitmaps(gs, Chars(gs[g])))
  {
  }

  /** The bytes of generate_new_format for the glyphs gs, expanded to the top, in the frame m. */
  function NewFormat(gs: seq<seq<Glyph>>, m: Metrics): seq<int>
    requires NewReady(gs)
  {
    [2, m.width, m.height, 0] + AllGroups(gs, |gs|) + [0, 0, 0]
  }

  // ---------------------------------------------------------------------
  // What the grouped layout guarantees

  lemma {:induction false} JumpTableLength(bms: seq<Bitmap>)
    requires AllRows(bms)
    ensures |JumpTable(bms)| == 4 * |bms|
  {
    if bms != [] {
      JumpTableLength(bms[..|bms| - 1]);
    }
  }

  /** Entry k of a jump table: the offset of glyph k is the sum of the sizes of the glyphs before it. */
  lemma {:induction false} JumpTableAt(bms: seq<Bitmap>, k: nat)
    requires AllRows(bms) && k < |bms|
    ensures |JumpTable(bms)| == 4 * |bms|
    ensures JumpTable(bms)[4 * k..4 * k + 4] == JumpEntry(bms[k], Sum(Sizes(bms)[..k]))
  {
    var n := |bms| - 1;
    JumpTableLength(bms);
    JumpTableLength(bms[..n]);
    var front := JumpTable(bms[..n]);
    assert JumpTable(bms) == front + JumpEntry(bms[n], Sum(Sizes(bms[..n])));
    assert |front| == 4 * n;
    if k < n {
      JumpTableAt(bms[..n], k);
      assert Sizes(bms[..n])[..k] == Sizes(bms)[..k];
    } else {
      assert Sizes(bms[..n]) == Sizes(bms)[..k];
    }
  }

  /** The width, the height kept and the size of a glyph, as the jump-table loop computes them. */
  method MeasureGlyph(bitmap: Bitmap) returns (width: nat, height: nat, size: nat)
    requires |bitmap| > 0
    ensures width == |bitmap[0]| && height == TrimmedHeight(bitmap, |bitmap|) && size == GlyphSize(bitmap)
  {
    width := |bitmap[0]|;
    height := TrimHeight(bitmap);
    MulMono(0, (height + 7) / 8, width);
    size := ((height + 7) / 8) * width;
  }

  /** The heights kept of the glyphs. */
  function KeptHeights(bms: seq<Bitmap>): (r: seq<nat>)
    ensures |r| == |bms|
  {
    seq(|bms|, k requires 0 <= k < |bms| => TrimmedHeight(bms[k], |bms[k]|))
  }

  /** One more glyph: its entry, at the offset the sizes before it add up to. */
  lemma JumpTableStep(bms: seq<Bitmap>, k: nat)
    requires AllRows(bms) && k < |bms|
    ensures JumpTable(bms[..k + 1]) == JumpTable(bms[..k]) + JumpEntry(bms[k], Sum(Sizes(bms[..k])))
    ensures Sizes(bms[..k + 1]) == Sizes(bms[..k]) + [GlyphSize(bms[k])]
    ensures Sum(Sizes(bms[..k + 1])) == Sum(Sizes(bms[..k])) + GlyphSize(bms[k])
    ensures KeptHeights(bms[..k + 1]) == KeptHeights(bms[..k]) + [TrimmedHeight(bms[k], |bms[k]|)]
  {
    assert bms[..k + 1][..k] == bms[..k];
    assert Sizes(bms[..k + 1]) == Sizes(bms[..k]) + [GlyphSize(bms[k])];
    assert Sizes(bms[..k + 1])[..k] == Sizes(bms[..k]);
  }

  /** The bytes emitted for a glyph are as many as its jump-table size. */
  lemma GlyphDataLength(bm: Bitmap)
    requires Emittable(bm)
    ensures |GlyphData(bm)| == GlyphSize(bm)
  {
    BandsLength(bm, (TrimmedHeight(bm, |bm|) + 7) / 8, |bm[0]|, |bm|);
  }

  /** The data of a group is exactly as long as the total its jump table closes with. */
  lemma {:induction false} GroupDataLength(bms: seq<Bitmap>)
    requires AllEmittable(bms)
    ensures |GroupData(bms)| == Sum(Sizes(bms))
  {
    if bms != [] {
      var n := |bms| - 1;
      GroupDataLength(bms[..n]);
      assert Sizes(bms)[..n] == Sizes(bms[..n]);
      GlyphDataLength(bms[n]);
    }
  }

  /**
   * Reading the rows past the kept height, as the data loop does, changes no
   * byte: those rows are clear.
   */
  lemma TrimmedRowsIgnored(bm: Bitmap, band: nat, x: nat)
    requires Emittable(bm) && x < |bm[0]|
    ensures Covers(bm, |bm|, x + 1) && Covers(bm, TrimmedHeight(bm, |bm|), x + 1)
    ensures ColumnByte(bm, band, x, |bm|) == ColumnByte(bm, band, x, TrimmedHeight(bm, |bm|))
  {
    TrimmedHeightSpec(bm, |bm|);
    assert ColumnBits(bm, band, x, |bm|) == ColumnBits(bm, band, x, TrimmedHeight(bm, |bm|));
  }

  /** A group of n glyphs takes 3 + 4n + 2 bytes of record, table and total, and then its data. */
  lemma GroupBytesLength(chars: seq<char>, bms: seq<Bitmap>)
    requires |chars| > 0 && AllEmittable(bms)
    ensures |GroupBytes(chars, bms)| == 3 + 4 * |bms| + 2 + Sum(Sizes(bms))
  {
    JumpTableLength(bms);
    GroupDataLength(bms);
  }

  /** The bytes of the first n groups. */
  function GroupsLength(gs: seq<seq<Glyph>>, n: nat): nat
    requires n <= |gs| && NewReady(gs)
  {
    if n == 0 then 0
    else
      assert GroupReady(gs, n - 1);
      var bms := Bitmaps(gs, Chars(gs[n - 1]));
      GroupsLength(gs, n - 1) + 3 + 4 * |bms| + 2 + Sum(Sizes(bms))
  }

  lemma {:induction false} AllGroupsLength(gs: seq<seq<Glyph>>, n: nat)
    requires n <= |gs| && NewReady(gs)
    ensures |AllGroups(gs, n)| == GroupsLength(gs, n)
  {
    if n > 0 {
      var g := n - 1;
      AllGroupsLength(gs, g);
      AllGroupsSnoc(gs, g);
      var chars := Chars(gs[g]);
      var bms := Bitmaps(gs, chars);
      GroupBytesLength(chars, bms);
      assert GroupsLength(gs, n) == GroupsLength(gs, g) + 3 + 4 * |bms| + 2 + Sum(Sizes(bms));
    }
  }

  /**
   * The grouped layout is 4 bytes of header, 3 + 4n + 2 bytes of record,
   * table and total plus the data of every group of n glyphs, and 3 closing
   * zero bytes.
   */
  lemma NewFormatLength(gs: seq<seq<Glyph>>, m: Metrics)
    requires NewReady(gs)
    ensures var out := NewFormat(gs, m);
      |out| == 4 + GroupsLength(gs, |gs|) + 3 && out[..4] == [2, m.width, m.height, 0] &&
      out[|out| - 3..] == [0, 0, 0]
  {
    AllGroupsLength(gs, |gs|);
  }

  /** Expanding to the top makes every glyph emittable when it is well-formed and gets a row. */
  lemma NewReadyAfterTop(gs: seq<seq<Glyph>>, m: Metrics)
    requires forall g :: 0 <= g < |gs| ==> |gs[g]| > 0
    requires forall g, i :: 0 <= g < |gs| && 0 <= i < |gs[g]| ==>
      WellFormed(gs[g][i]) && |ExpandedTop(gs[g][i], m.baseline).bitmap| > 0
    ensures NewReady(MapAll(gs, ExpandTop, m))
  {
    var es := MapAll(gs, ExpandTop, m);
    var P := (c: Glyph) => Emittable(c.bitmap);
    forall g, i | 0 <= g < |es| && 0 <= i < |es[g]| ensures P(es[g][i]) {
      ExpandedTopRectangular(gs[g][i], m.baseline);
    }
    forall g, k | 0 <= g < |es| && 0 <= k < |es[g]|
      ensures FindChar(es, Chars(es[g])[k]).Some? && Emittable(FindChar(es, Chars(es[g])[k]).value.bitmap)
    {
      FindCharMember(es, g, k);
      FoundHas(es, es[g][k].ch, P);
    }
    forall g | 0 <= g < |es| ensures GroupReady(es, g) {
      assert MapGroup(gs[g], ExpandTop, m) == es[g];
    }
  }

  /** After expanding vertically and horizontally, every character's glyph fills the frame. */
  lemma FixedReadyAfterExpand(gs: seq<seq<Glyph>>)
    requires forall g, i :: 0 <= g < |gs| && 0 <= i < |gs[g]| ==> WellFormed(gs[g][i]) && Bearings(gs[g][i])
    ensures var m := MetricsOf(gs); FixedReady(MapAll(MapAll(gs, ExpandV, m), ExpandH, m), m)
  {
    var m := MetricsOf(gs);
    MetricsBounds(gs);
    var es := MapAll(MapAll(gs, ExpandV, m), ExpandH, m);
    var P := (c: Glyph) => WellFormed(c) && c.width == m.width && c.height == m.height;
    forall g, i | 0 <= g < |es| && 0 <= i < |es[g]| ensures P(es[g][i]) {
      ExpandCharsFrame(gs, g, i);
    }
    var chars := Chars(Flatten(es));
    forall k | 0 <= k < |chars|
      ensures FindChar(es, chars[k]).Some? && Covers(FindChar(es, chars[k]).value.bitmap, m.height, m.width)
    {
      FlattenFound(es, k);
      FoundHas(es, chars[k], P);
    }
  }

  // ---------------------------------------------------------------------
  // The generator

  class Generator {
    const source: FontContainer

    constructor (source: FontContainer)
      ensures this.source == source
    {
      this.source := source;
    }

    /**
     * generate_fixed_old, for the unicode build or the other one. The font
     * must be committed, with well-formed glyphs and a first character.
     */
    method GenerateFixedOld(unicode: bool) returns (out: seq<int>)
      requires source.Committed() && source.Valid()
      requires forall g, i :: 0 <= g < |source.groups| && 0 <= i < |source.groups[g]| ==> WellFormed(source.groups[g][i])
      requires source.firstChar.Some? && source.firstChar.value >= 0
      modifies source
      ensures source.groups == MapAll(MapAll(old(source.groups), ExpandV, old(source.Frame())), ExpandH, old(source.Frame()))
      ensures source.Frame() == old(source.Frame()) && source.firstChar == old(source.firstChar)
      ensures FixedReady(source.groups, source.Frame())
      ensures out == FixedOld(source.groups, source.Frame(), source.firstChar.value, unicode)
    {
      FixedReadyAfterExpand(source.groups);
      source.ExpandChars();
      out := EmitFixedOld(unicode);
    }

    /** The printing part of generate_fixed_old, on glyphs already expanded. */
    method EmitFixedOld(unicode: bool) returns (out: seq<int>)
      requires FixedReady(source.groups, source.Frame())
      requires source.firstChar.Some? && source.firstChar.value >= 0
      ensures out == FixedOld(source.groups, source.Frame(), source.firstChar.value, unicode)
    {
      var chars := GroupChars(source.groups, -1);
      ghost var bms := Bitmaps(source.groups, chars);
      var m := source.Frame();
      var header := FixedHeader(m, source.firstChar.value, |chars|, unicode);
      var rows := source.Rows();
      assert rows == (m.height + 7) / 8;
      var glyphs := EmitGlyphs(chars, rows);
      out := header + glyphs;
      if unicode {
        out := out + [0, 0, 0];
      }
    }

    /** The loop over the characters of generate_fixed_old. */
    method EmitGlyphs(chars: seq<char>, rows: nat) returns (out: seq<int>)
      requires 0 <= source.width && AllFound(source.groups, chars)
      requires AllCover(Bitmaps(source.groups, chars), source.height, source.width)
      ensures out == FixedGlyphs(Bitmaps(source.groups, chars), rows, source.width, source.height)
    {
      ghost var bms := Bitmaps(source.groups, chars);
      out := [];
      var k := 0;
      while k < |chars|
        invariant 0 <= k <= |chars|
        invariant out == FixedGlyphs(bms[..k], rows, source.width, source.height)
      {
        var bitmap := source.FindCharData(chars[k]).value.bitmap;
        assert bitmap == bms[k];
        var bytes := EmitBands(bitmap, rows, source.width, source.height);
        assert bms[..k + 1][..k] == bms[..k];
        out := out + bytes;
        k := k + 1;
      }
      assert bms[..k] == bms;
    }

    /**
     * generate_new_format. The glyphs must be well-formed, no group empty
     * and every glyph at least one row tall once expanded to the top; the
     * exit on a size mismatch is proved never to happen.
     */
    method GenerateNewFormat() returns (out: seq<int>, totalSize: nat)
      requires source.hasBaseline
      requires forall g :: 0 <= g < |source.groups| ==> |source.groups[g]| > 0
      requires forall g, i :: 0 <= g < |source.groups| && 0 <= i < |source.groups[g]| ==>
        WellFormed(source.groups[g][i]) && |ExpandedTop(source.groups[g][i], source.baseline).bitmap| > 0
      modifies source
      ensures source.groups == MapAll(old(source.groups), ExpandTop, old(source.Frame()))
      ensures source.Frame() == old(source.Frame())
      ensures NewReady(source.groups)
      ensures out == NewFormat(source.groups, source.Frame()) && totalSize == |out|
    {
      NewReadyAfterTop(source.groups, source.Frame());
      source.ExpandCharsTop();
      out, totalSize := EmitNewFormat();
    }

    /** The printing part of generate_new_format, on glyphs already expanded. */
    method EmitNewFormat() returns (out: seq<int>, totalSize: nat)
      requires NewReady(source.groups)
      ensures out == NewFormat(source.groups, source.Frame()) && totalSize == |out|
    {
      totalSize := 4;
      var header := [2, source.width, source.height, 0];
      var groups, count;
      groups, count := EmitGroups();
      out := header + groups;
      totalSize := totalSize + count;
      totalSize := totalSize + 3;
      out := out + [0, 0, 0];
    }

    /** The loop over the groups of generate_new_format. */
    method EmitGroups() returns (out: seq<int>, count: nat)
      requires NewReady(source.groups)
      ensures out == AllGroups(source.groups, |source.groups|) && count == |out|
    {
      ghost var gs := source.groups;
      out, count := [], 0;
      var g := 0;
      while g < |source.groups|
        invariant 0 <= g <= |gs| && source.groups == gs
        invariant out == AllGroups(gs, g) && count == |out|
      {
        var chars := GroupChars(source.groups, g);
        assert GroupReady(gs, g);
        var bytes, groupCount := EmitGroup(chars);
        AllGroupsSnoc(gs, g);
        out := out + bytes;
        count := count + groupCount;
        g := g + 1;
      }
      assert g == |gs|;
    }

    /** One group of generate_new_format: the record, the jump table and its total, then the data. */
    method EmitGroup(chars: seq<char>) returns (out: seq<int>, count: nat)
      requires |chars| > 0 && AllFound(source.groups, chars) && AllEmittable(Bitmaps(source.groups, chars))
      ensures out == GroupBytes(chars, Bitmaps(source.groups, chars)) && count == |out|
    {
      out := GroupRecord(chars);
      count := 3;
      var table, heights, sizes, offset, tableCount := EmitJumpTable(chars);
      out := out + table + Word(offset);
      count := count + tableCount + 2;
      var data, dataCount;
      data, dataCount := EmitGroupData(chars, heights, sizes);
      out := out + data;
      count := count + dataCount;
    }

    /** The first loop over a group's glyphs: the jump table, with the heights and sizes it records. */
    method EmitJumpTable(chars: seq<char>) returns (table: seq<int>, heights: seq<nat>, sizes: seq<nat>, offset: nat, count: nat)
      requires AllFound(source.groups, chars) && AllRows(Bitmaps(source.groups, chars))
      ensures var bms := Bitmaps(source.groups, chars);
        table == JumpTable(bms) && count == |table| && sizes == Sizes(bms) && offset == Sum(sizes) &&
        heights == KeptHeights(bms)
    {
      ghost var bms := Bitmaps(source.groups, chars);
      table, heights, sizes, offset, count := [], [], [], 0, 0;
      var k := 0;
      while k < |chars|
        invariant 0 <= k <= |chars|
        invariant table == JumpTable(bms[..k]) && count == |table|
        invariant sizes == Sizes(bms[..k]) && offset == Sum(sizes)
        invariant heights == KeptHeights(bms[..k])
      {
        var bitmap := source.FindCharData(chars[k]).value.bitmap;
        assert bitmap == bms[k];
        var width, height, size := MeasureGlyph(bitmap);
        JumpTableStep(bms, k);
        heights := heights + [height];
        table := table + (Word(offset) + [width, height]);
        count := count + 4;
        sizes := sizes + [size];
        offset := offset + size;
        k := k + 1;
      }
      assert bms[..k] == bms;
    }

    /** The second loop over a group's glyphs: their data, with the size check that exits on a mismatch. */
    method EmitGroupData(chars: seq<char>, heights: seq<nat>, sizes: seq<nat>) returns (out: seq<int>, count: nat)
      requires AllFound(source.groups, chars) && AllEmittable(Bitmaps(source.groups, chars))
      requires sizes == Sizes(Bitmaps(source.groups, chars)) && heights == KeptHeights(Bitmaps(source.groups, chars))
      ensures out == GroupData(Bitmaps(source.groups, chars)) && count == |out|
    {
      ghost var bms := Bitmaps(source.groups, chars);
      out, count := [], 0;
      var index := 0;
      while index < |chars|
        invariant 0 <= index <= |chars|
        invariant out == GroupData(bms[..index]) && count == |out|
      {
        var bitmap := source.FindCharData(chars[index]).value.bitmap;
        assert bitmap == bms[index];
        EmittableCovers(bitmap);
        var bytes := EmitBands(bitmap, (heights[index] + 7) / 8, |bitmap[0]|, |bitmap|);
        // one `size += 1` and one `total_size += 1` per byte
        var size := |bytes|;
        SizeCheckHolds(bms, index);
        if size != sizes[index] {
          // the exit(1) of the size check cannot be reached
          assert false;
        }
        assert bytes == GlyphData(bms[index]);
        GroupDataStep(bms, index);
        out := out + bytes;
        count := count + size;
        index := index + 1;
      }
      assert bms[..index] == bms;
    }
  }

  /** The size check of generate_new_format never fires: every group's data matches its jump table. */
  lemma SizeCheckHolds(bms: seq<Bitmap>, k: nat)
    requires AllEmittable(bms) && k < |bms|
    ensures |GlyphData(bms[k])| == Sizes(bms)[k]
  {
    GlyphDataLength(bms[k]);
  }
}
