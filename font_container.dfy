/**
 * FontContainer of the font tools: the glyphs of a font, in groups of
 * consecutive characters, each glyph a bitmap of 0/1 rows with its width,
 * height and bearings (`left`, the columns left of the origin; `top`, the
 * rows above the baseline). Committing the updates derives the common
 * frame of the font (width, height, baseline and horizontal baseline);
 * the expand and deflate transforms pad or trim every glyph to that frame.
 *
 * A glyph record is a value here (`Glyph`); the container is a class whose
 * fields the methods update, as the Python object's are.
 */
module FontContainers {
  import opened Arith

  /** A pixel of a glyph bitmap: 0 (clear) or 1 (set). */
  type Pixel = p: int | 0 <= p <= 1

  type Bitmap = seq<seq<Pixel>>

  /** One glyph record: `char`, `width`, `used_width`, `height`, `left`, `top` and `bitmap`. */
  datatype Glyph = Glyph(ch: char, width: int, usedWidth: int, height: int,
                         left: int, top: int, bitmap: Bitmap)

  /** The bitmap has `height` rows of `width` pixels each. */
  predicate WellFormed(c: Glyph) {
    0 <= c.width && |c.bitmap| == c.height &&
    forall y :: 0 <= y < |c.bitmap| ==> |c.bitmap[y]| == c.width
  }

  /** Every row of the bitmap is as long as its first one. */
  predicate Rectangular(bm: Bitmap) {
    forall y :: 0 <= y < |bm| ==> |bm[y]| == |bm[0]|
  }

  // ---------------------------------------------------------------------
  // Python list idioms

  /** `[0] * n`: empty for n <= 0. */
  function Zeros(n: int): (z: seq<Pixel>)
    ensures |z| == Max(n, 0) && forall k :: 0 <= k < |z| ==> z[k] == 0
  {
    if n <= 0 then [] else Zeros(n - 1) + [0]
  }

  /** `[[0] * w for x in range(n)]`: n rows of w zeros, none for n <= 0. */
  function ZeroRows(n: int, w: int): (z: Bitmap)
    ensures |z| == Max(n, 0) && forall k :: 0 <= k < |z| ==> z[k] == Zeros(w)
  {
    if n <= 0 then [] else ZeroRows(n - 1, w) + [Zeros(w)]
  }

  /** A slice bound of Python: a negative one counts from the end, and both are clamped. */
  function SliceIndex(i: int, n: nat): (k: nat)
    ensures k <= n
    ensures 0 <= i <= n ==> k == i
  {
    if i < 0 then Max(i + n, 0) else Min(i, n)
  }

  /** `s[a:b]` of Python. */
  function PySlice<T>(s: seq<T>, a: int, b: int): (r: seq<T>)
    ensures 0 <= a <= b <= |s| ==> r == s[a..b]
  {
    var i, j := SliceIndex(a, |s|), SliceIndex(b, |s|);
    if i < j then s[i..j] else []
  }

  // ---------------------------------------------------------------------
  // The groups

  /** All glyphs, group after group, in the order the loops of the container visit them. */
  function Flatten(gs: seq<seq<Glyph>>): seq<Glyph>
  {
    if gs == [] then [] else Flatten(gs[..|gs| - 1]) + gs[|gs| - 1]
  }

  lemma FlattenStep(gs: seq<seq<Glyph>>, g: nat)
    requires g < |gs|
    ensures Flatten(gs[..g + 1]) == Flatten(gs[..g]) + gs[g]
  {
    assert gs[..g + 1][..g] == gs[..g];
  }

  /** Every glyph of every group is among the flattened glyphs. */
  lemma {:induction false} FlattenMember(gs: seq<seq<Glyph>>, g: nat, i: nat)
    requires g < |gs| && i < |gs[g]|
    ensures gs[g][i] in Flatten(gs)
    decreases |gs|
  {
    var n := |gs| - 1;
    if g < n {
      var front := gs[..n];
      assert front[g] == gs[g];
      FlattenMember(front, g, i);
    } else {
      assert Flatten(gs) == Flatten(gs[..n]) + gs[n];
      assert Flatten(gs)[|Flatten(gs[..n])| + i] == gs[n][i];
    }
  }

  /** The flattened glyphs all come from some group. */
  lemma {:induction false} FlattenOnly(gs: seq<seq<Glyph>>, P: Glyph -> bool)
    requires forall g, i :: 0 <= g < |gs| && 0 <= i < |gs[g]| ==> P(gs[g][i])
    ensures forall k :: 0 <= k < |Flatten(gs)| ==> P(Flatten(gs)[k])
    decreases |gs|
  {
    if gs != [] {
      var n := |gs| - 1;
      var front := gs[..n];
      forall g, i | 0 <= g < |front| && 0 <= i < |front[g]| ensures P(front[g][i]) {
        assert front[g] == gs[g];
      }
      FlattenOnly(front, P);
      forall k | 0 <= k < |Flatten(gs)| ensures P(Flatten(gs)[k]) {
        if k >= |Flatten(front)| {
          assert Flatten(gs)[k] == gs[n][k - |Flatten(front)|];
        }
      }
    }
  }

  /** The characters of a sequence of glyphs. */
  function Chars(cs: seq<Glyph>): (r: seq<char>)
    ensures |r| == |cs| && forall k :: 0 <= k < |cs| ==> r[k] == cs[k].ch
  {
    seq(|cs|, k requires 0 <= k < |cs| => cs[k].ch)
  }

  /** get_group_chars: the characters of one group, or of all of them for a negative index. */
  function GroupChars(gs: seq<seq<Glyph>>, g: int): (r: seq<char>)
    requires g < |gs|
    ensures 0 <= g ==> |r| == |gs[g]| && forall k :: 0 <= k < |r| ==> r[k] == gs[g][k].ch
    ensures g < 0 ==> |r| == |Flatten(gs)|
  {
    if g < 0 then Chars(Flatten(gs)) else Chars(gs[g])
  }

  /** The loop over all groups: the characters of the earlier groups, then those of the last one. */
  lemma GroupCharsConcat(gs: seq<seq<Glyph>>)
    requires |gs| >= 1
    ensures GroupChars(gs, -1) == GroupChars(gs[..|gs| - 1], -1) + GroupChars(gs, |gs| - 1)
  {
    var n := |gs| - 1;
    assert Flatten(gs) == Flatten(gs[..n]) + gs[n];
    var a, b := Chars(Flatten(gs[..n])), Chars(gs[n]);
    assert Chars(Flatten(gs)) == a + b by {
      forall k | 0 <= k < |Flatten(gs)|
        ensures Chars(Flatten(gs))[k] == (a + b)[k]
      {
        if k >= |a| {
          assert Flatten(gs)[k] == gs[n][k - |a|];
        }
      }
    }
  }

  /** A character is listed among all groups' characters exactly when _find_char_data finds it. */
  lemma GroupCharsFind(gs: seq<seq<Glyph>>, ch: char)
    ensures ch in GroupChars(gs, -1) <==> FindChar(gs, ch).Some?
  {
    var r := GroupChars(gs, -1);
    FindCharNone(gs, ch);
    if ch in r {
      var k :| 0 <= k < |r| && r[k] == ch;
      var P := (c: Glyph) => c.ch != ch;
      if forall g, i :: 0 <= g < |gs| && 0 <= i < |gs[g]| ==> P(gs[g][i]) {
        FlattenOnly(gs, P);
      }
    }
    if FindChar(gs, ch).Some? {
      var g, i :| 0 <= g < |gs| && 0 <= i < |gs[g]| && gs[g][i].ch == ch;
      FlattenMember(gs, g, i);
      var k :| 0 <= k < |Flatten(gs)| && Flatten(gs)[k] == gs[g][i];
      assert r[k] == ch;
    }
  }

  // ---------------------------------------------------------------------
  // Looking a character up

  /** The first glyph of one group for the character: `filter(...)[0]`. */
  function FindInGroup(cs: seq<Glyph>, ch: char): (r: Option<Glyph>)
    ensures r.Some? ==> r.value.ch == ch
  {
    if cs == [] then None
    else if cs[0].ch == ch then Some(cs[0])
    else FindInGroup(cs[1..], ch)
  }

  /**
   * _find_char_data: the groups are searched in order and the first group
   * holding the character yields its first glyph for it.
   */
  function FindChar(gs: seq<seq<Glyph>>, ch: char): (r: Option<Glyph>)
    ensures r.Some? ==> r.value.ch == ch
  {
    if gs == [] then None
    else match FindInGroup(gs[0], ch)
      case Some(c) => Some(c)
      case None => FindChar(gs[1..], ch)
  }

  /** No glyph of a group before g, and none of group g before i, is for ch. */
  predicate NoneBefore(gs: seq<seq<Glyph>>, ch: char, g: nat, i: nat)
    requires g < |gs| && i <= |gs[g]|
  {
    (forall h, k :: 0 <= h < g && 0 <= k < |gs[h]| ==> gs[h][k].ch != ch) &&
    (forall k :: 0 <= k < i ==> gs[g][k].ch != ch)
  }

  lemma {:induction false} FindInGroupFirst(cs: seq<Glyph>, ch: char, i: nat)
    requires i < |cs| && cs[i].ch == ch && forall k :: 0 <= k < i ==> cs[k].ch != ch
    ensures FindInGroup(cs, ch) == Some(cs[i])
  {
    if i > 0 {
      FindInGroupFirst(cs[1..], ch, i - 1);
    }
  }

  lemma {:induction false} FindInGroupNone(cs: seq<Glyph>, ch: char)
    ensures FindInGroup(cs, ch).None? <==> forall k :: 0 <= k < |cs| ==> cs[k].ch != ch
  {
    if cs != [] {
      FindInGroupNone(cs[1..], ch);
      if cs[0].ch != ch {
        assert forall k :: 1 <= k < |cs| ==> cs[k] == cs[1..][k - 1];
      }
    }
  }

  /** The glyph found is the one at the first position holding the character. */
  lemma {:induction false} FindCharFirst(gs: seq<seq<Glyph>>, ch: char, g: nat, i: nat)
    requires g < |gs| && i < |gs[g]| && gs[g][i].ch == ch && NoneBefore(gs, ch, g, i)
    ensures FindChar(gs, ch) == Some(gs[g][i])
    decreases g
  {
    if g == 0 {
      FindInGroupFirst(gs[0], ch, i);
    } else {
      FindInGroupNone(gs[0], ch);
      var rest := gs[1..];
      assert rest[g - 1] == gs[g];
      assert forall h :: 0 <= h < g - 1 ==> rest[h] == gs[h + 1];
      FindCharFirst(rest, ch, g - 1, i);
    }
  }

  /** Nothing is found exactly when no glyph is for the character. */
  lemma {:induction false} FindCharNone(gs: seq<seq<Glyph>>, ch: char)
    ensures FindChar(gs, ch).None? <==>
      forall g, i :: 0 <= g < |gs| && 0 <= i < |gs[g]| ==> gs[g][i].ch != ch
  {
    if gs != [] {
      FindInGroupNone(gs[0], ch);
      FindCharNone(gs[1..], ch);
      assert forall g :: 1 <= g < |gs| ==> gs[g] == gs[1..][g - 1];
    }
  }

  /** The glyph found is one of the container's glyphs. */
  lemma {:induction false} FindCharIn(gs: seq<seq<Glyph>>, ch: char)
    requires FindChar(gs, ch).Some?
    ensures exists g, i :: 0 <= g < |gs| && 0 <= i < |gs[g]| && gs[g][i] == FindChar(gs, ch).value
  {
    FindInGroupIn(gs[0], ch);
    if FindInGroup(gs[0], ch).None? {
      FindCharIn(gs[1..], ch);
      var g, i :| 0 <= g < |gs[1..]| && 0 <= i < |gs[1..][g]| && gs[1..][g][i] == FindChar(gs[1..], ch).value;
      assert gs[g + 1][i] == FindChar(gs, ch).value;
    }
  }

  lemma {:induction false} FindInGroupIn(cs: seq<Glyph>, ch: char)
    ensures FindInGroup(cs, ch).Some? ==> exists i :: 0 <= i < |cs| && cs[i] == FindInGroup(cs, ch).value
  {
    if cs != [] && cs[0].ch != ch {
      FindInGroupIn(cs[1..], ch);
      if FindInGroup(cs, ch).Some? {
        var i :| 0 <= i < |cs[1..]| && cs[1..][i] == FindInGroup(cs, ch).value;
        assert cs[i + 1] == FindInGroup(cs, ch).value;
      }
    }
  }

  /** A character that has a glyph is always found. */
  lemma FindCharMember(gs: seq<seq<Glyph>>, g: nat, i: nat)
    requires g < |gs| && i < |gs[g]|
    ensures FindChar(gs, gs[g][i].ch).Some?
  {
    FindCharNone(gs, gs[g][i].ch);
  }

  /**
   * A glyph added to the last group is found only when its character had no
   * glyph yet: a duplicate is silently shadowed by the earlier glyph.
   */
  lemma {:induction false} FindCharAddLast(gs: seq<seq<Glyph>>, c: Glyph)
    requires |gs| >= 1
    ensures var added := gs[|gs| - 1 := gs[|gs| - 1] + [c]];
      FindChar(added, c.ch) == if FindChar(gs, c.ch).Some? then FindChar(gs, c.ch) else Some(c)
    decreases |gs|
  {
    var added := gs[|gs| - 1 := gs[|gs| - 1] + [c]];
    if |gs| == 1 {
      FindInGroupAppend(gs[0], c);
    } else {
      assert added[0] == gs[0];
      assert added[1..] == gs[1..][|gs| - 2 := gs[1..][|gs| - 2] + [c]];
      FindCharAddLast(gs[1..], c);
    }
  }

  lemma {:induction false} FindInGroupAppend(cs: seq<Glyph>, c: Glyph)
    ensures FindInGroup(cs + [c], c.ch) == if FindInGroup(cs, c.ch).Some? then FindInGroup(cs, c.ch) else Some(c)
  {
    if cs != [] {
      assert (cs + [c])[1..] == cs[1..] + [c];
      FindInGroupAppend(cs[1..], c);
    }
  }

  // ---------------------------------------------------------------------
  // add_char

  /**
   * The record add_char stores: a negative width, height, left or top
   * stands for the length of the first row, the number of rows, 0 and the
   * height, and used_width starts as the width.
   */
  function NewGlyph(ch: char, bitmap: Bitmap, width: int, height: int, left: int, top: int): (c: Glyph)
    requires width < 0 ==> |bitmap| > 0
    ensures c.ch == ch && c.bitmap == bitmap && c.usedWidth == c.width
    ensures c.width == (if width < 0 then |bitmap[0]| else width)
    ensures c.height == (if height < 0 then |bitmap| else height)
    ensures c.left == (if left < 0 then 0 else left)
    ensures c.top == (if top < 0 then c.height else top)
  {
    var w := if width < 0 then |bitmap[0]| else width;
    var h := if height < 0 then |bitmap| else height;
    Glyph(ch, w, w, h, if left < 0 then 0 else left, if top < 0 then h else top, bitmap)
  }

  /**
   * With every metric left to its default, a rectangular bitmap gives a
   * well-formed glyph standing on the baseline, with no bearing to the left.
   */
  lemma NewGlyphDefaults(ch: char, bitmap: Bitmap)
    requires |bitmap| > 0 && Rectangular(bitmap)
    ensures var c := NewGlyph(ch, bitmap, -1, -1, -1, -1);
      WellFormed(c) && c.top == c.height == |bitmap| && c.left == 0 && c.width == |bitmap[0]|
  {
  }

  /** The bearings of a glyph are never negative. */
  predicate Bearings(c: Glyph) {
    c.left >= 0 && c.top >= 0
  }

  /** A glyph that add_char stores has non-negative bearings, width and height. */
  lemma NewGlyphBearings(ch: char, bitmap: Bitmap, width: int, height: int, left: int, top: int)
    requires width < 0 ==> |bitmap| > 0
    ensures var c := NewGlyph(ch, bitmap, width, height, left, top);
      Bearings(c) && c.width >= 0 && c.height >= 0
  {
  }

  // ---------------------------------------------------------------------
  // _commit_updates

  /** The running bounds of _commit_updates: rows above and below the baseline, columns left and right of the origin. */
  datatype Extent = Extent(top: int, bottom: int, left: int, right: int)

  /** One round of the loop of _commit_updates. */
  function Extend(e: Extent, c: Glyph): Extent {
    Extent(Min(e.top, 0 - c.top), Max(e.bottom, c.height - c.top),
           Min(e.left, 0 - c.left), Max(e.right, c.width - c.left))
  }

  /** The bounds after the loop over the glyphs cs, started from all zero. */
  function ExtentOf(cs: seq<Glyph>): Extent {
    if cs == [] then Extent(0, 0, 0, 0) else Extend(ExtentOf(cs[..|cs| - 1]), cs[|cs| - 1])
  }

  lemma ExtentStep(cs: seq<Glyph>, c: Glyph)
    ensures ExtentOf(cs + [c]) == Extend(ExtentOf(cs), c)
  {
    assert (cs + [c])[..|cs|] == cs;
  }

  /**
   * The bounds hold every glyph and the origin, and each is reached by the
   * origin or by some glyph.
   */
  lemma {:induction false} ExtentBounds(cs: seq<Glyph>)
    ensures var e := ExtentOf(cs);
      e.top <= 0 <= e.bottom && e.left <= 0 <= e.right &&
      (forall c | c in cs :: e.top <= -c.top && c.height - c.top <= e.bottom &&
                             e.left <= -c.left && c.width - c.left <= e.right) &&
      (e.top == 0 || exists c | c in cs :: e.top == -c.top) &&
      (e.bottom == 0 || exists c | c in cs :: e.bottom == c.height - c.top) &&
      (e.left == 0 || exists c | c in cs :: e.left == -c.left) &&
      (e.right == 0 || exists c | c in cs :: e.right == c.width - c.left)
  {
    if cs != [] {
      var front := cs[..|cs| - 1];
      ExtentBounds(front);
      assert cs == front + [cs[|cs| - 1]];
      assert forall c | c in front :: c in cs;
    }
  }

  /** The frame of the font: width, height, baseline and baseline_h. */
  datatype Metrics = Metrics(width: int, height: int, baseline: int, baselineH: int)

  /** The frame _commit_updates derives from the glyphs. */
  function MetricsOf(gs: seq<seq<Glyph>>): Metrics {
    var e := ExtentOf(Flatten(gs));
    Metrics(e.right - e.left, e.bottom - e.top, -e.top, -e.left)
  }

  /** A glyph fits the frame: it reaches no higher, lower, further left or further right. */
  predicate Fits(m: Metrics, c: Glyph) {
    c.top <= m.baseline && c.height - c.top <= m.height - m.baseline &&
    c.left <= m.baselineH && c.width - c.left <= m.width - m.baselineH
  }

  /** All four metrics of a committed frame are non-negative, with both baselines inside it. */
  lemma MetricsBounds(gs: seq<seq<Glyph>>)
    ensures var m := MetricsOf(gs);
      0 <= m.baseline <= m.height && 0 <= m.baselineH <= m.width
  {
    ExtentBounds(Flatten(gs));
  }

  /** Every glyph fits the frame derived from the glyphs. */
  lemma CommittedFits(gs: seq<seq<Glyph>>, g: nat, i: nat)
    requires g < |gs| && i < |gs[g]|
    ensures Fits(MetricsOf(gs), gs[g][i])
  {
    FlattenMember(gs, g, i);
    ExtentBounds(Flatten(gs));
  }

  /** The frame is the smallest that holds the glyphs: a taller baseline is reached by some glyph. */
  lemma CommittedTight(gs: seq<seq<Glyph>>)
    ensures var m := MetricsOf(gs);
      (m.baseline == 0 || exists c | c in Flatten(gs) :: c.top == m.baseline) &&
      (m.height == m.baseline || exists c | c in Flatten(gs) :: c.height - c.top == m.height - m.baseline) &&
      (m.baselineH == 0 || exists c | c in Flatten(gs) :: c.left == m.baselineH) &&
      (m.width == m.baselineH || exists c | c in Flatten(gs) :: c.width - c.left == m.width - m.baselineH)
  {
    ExtentBounds(Flatten(gs));
  }

  // ---------------------------------------------------------------------
  // The transforms of one glyph

  lemma ZerosCons(n: int)
    requires n >= 0
    ensures [0] + Zeros(n) == Zeros(n + 1)
  {
    assert |[0] + Zeros(n)| == |Zeros(n + 1)|;
  }

  lemma ZeroRowsCons(n: int, w: int)
    requires n >= 0
    ensures [Zeros(w)] + ZeroRows(n, w) == ZeroRows(n + 1, w)
  {
    assert |[Zeros(w)] + ZeroRows(n, w)| == |ZeroRows(n + 1, w)|;
  }

  /** __expand_char_top: zero rows of the glyph's width above it up to the baseline. */
  function ExpandedTop(c: Glyph, baseline: int): Glyph {
    var bm := ZeroRows(baseline - c.top, c.width) + c.bitmap;
    c.(bitmap := bm, top := baseline, height := |bm|)
  }

  /** __expand_char_v: zero rows above up to the baseline and below down to the bottom of the frame. */
  function ExpandedV(c: Glyph, m: Metrics): Glyph {
    var above := ZeroRows(m.baseline - c.top, c.width);
    var below := ZeroRows(m.height - m.baseline - (c.height - c.top), c.width);
    c.(bitmap := above + c.bitmap + below, top := m.baseline, height := m.height)
  }

  /** The zeros __expand_char_h puts before every row: half the slack when baseline_h is 0. */
  function PadBefore(c: Glyph, m: Metrics): int {
    if m.baselineH == 0 then CDiv(m.width - c.width, 2) else m.baselineH - c.left
  }

  /** The zeros __expand_char_h puts after every row. */
  function PadAfter(c: Glyph, m: Metrics): int {
    if m.baselineH == 0 then m.width - c.width - PadBefore(c, m)
    else m.width - m.baselineH - (c.width - c.left)
  }

  /** __expand_char_h: every row padded on both sides, the bearing and width those of the frame. */
  function ExpandedH(c: Glyph, m: Metrics): Glyph {
    var before, after := PadBefore(c, m), PadAfter(c, m);
    var bm := seq(|c.bitmap|, y requires 0 <= y < |c.bitmap| => Zeros(before) + c.bitmap[y] + Zeros(after));
    c.(bitmap := bm, left := m.baselineH, width := m.width)
  }

  /**
   * __deflate_char_h as written: `d = d[left:len(d)-right]` rebinds the loop
   * variable only, so the rows keep every pixel while width and left shrink.
   */
  function DeflatedHAsWritten(c: Glyph, left: int, right: int): Glyph {
    var l := c.left - left;
    c.(width := c.width - (left + right), left := if l < 0 then 0 else l)
  }

  /** __deflate_char_h as intended: each row also loses `left` pixels in front and `right` at the end. */
  function DeflatedH(c: Glyph, left: int, right: int): Glyph {
    var l := c.left - left;
    var bm := seq(|c.bitmap|, y requires 0 <= y < |c.bitmap| => PySlice(c.bitmap[y], left, |c.bitmap[y]| - right));
    c.(bitmap := bm, width := c.width - (left + right), left := if l < 0 then 0 else l)
  }

  /**
   * __deflate_char_v: a negative top or bottom first adds that many zero
   * rows on its side; then `top` rows go from the top and `bottom` from the
   * bottom, and the top bearing, which may not go below 0, follows.
   */
  function DeflatedV(c: Glyph, top: int, bottom: int): (r: Glyph)
    ensures r.top >= 0 && r.left == c.left && r.width == c.width
  {
    var bm0 := if top < 0 then ZeroRows(-top, c.width) + c.bitmap else c.bitmap;
    var h0 := if top < 0 then c.height - top else c.height;
    var t0 := if top < 0 then c.top - top else c.top;
    var top1 := if top < 0 then 0 else top;
    var bm1 := if bottom < 0 then bm0 + ZeroRows(-bottom, c.width) else bm0;
    var h1 := if bottom < 0 then h0 - bottom else h0;
    var bottom1 := if bottom < 0 then 0 else bottom;
    var t2 := t0 - top1;
    c.(bitmap := PySlice(bm1, top1, |bm1| - bottom1), height := h1 - (top1 + bottom1),
       top := if t2 < 0 then 0 else t2)
  }

  /** The largest part of the frame deflate_chars keeps on each side (`left_part` ... `bottom_part`). */
  datatype Parts = Parts(left: int, right: int, top: int, bottom: int)

  function PartsOf(m: Metrics, left: int, top: int, right: int, bottom: int): Parts {
    Parts(m.baselineH - left, m.width - m.baselineH - right, m.baseline - top, m.height - m.baseline - bottom)
  }

  /** `left_p` of deflate_chars: the columns beyond the left part. */
  function TrimLeft(c: Glyph, p: Parts): int {
    Max(c.left - p.left, 0)
  }

  /** `right_p` of deflate_chars: the columns beyond the right part. */
  function TrimRight(c: Glyph, p: Parts): int {
    Max(c.width - c.left - p.right, 0)
  }

  /**
   * The body of the loop of deflate_chars, as written: the sides beyond the
   * parts are trimmed, except that the bottom amount is not clamped at 0,
   * so a glyph ending above the bottom part is padded down to it. The
   * horizontal step is __deflate_char_h as written, which keeps the rows.
   */
  function Deflated(c: Glyph, p: Parts): Glyph {
    var c1 := DeflatedHAsWritten(c, TrimLeft(c, p), TrimRight(c, p));
    DeflatedV(c1, Max(c1.top - p.top, 0), c1.height - c1.top - p.bottom)
  }

  /** The same loop body with the corrected __deflate_char_h, which also trims the rows. */
  function DeflatedCorrected(c: Glyph, p: Parts): Glyph {
    var c1 := DeflatedH(c, TrimLeft(c, p), TrimRight(c, p));
    DeflatedV(c1, Max(c1.top - p.top, 0), c1.height - c1.top - p.bottom)
  }

  /** The transforms the container applies to every glyph. */
  datatype Op = ExpandTop | ExpandV | ExpandH | Deflate(parts: Parts)

  function Apply(op: Op, m: Metrics, c: Glyph): Glyph {
    match op
    case ExpandTop => ExpandedTop(c, m.baseline)
    case ExpandV => ExpandedV(c, m)
    case ExpandH => ExpandedH(c, m)
    case Deflate(p) => Deflated(c, p)
  }

  function MapGroup(cs: seq<Glyph>, op: Op, m: Metrics): seq<Glyph> {
    seq(|cs|, k requires 0 <= k < |cs| => Apply(op, m, cs[k]))
  }

  function MapAll(gs: seq<seq<Glyph>>, op: Op, m: Metrics): seq<seq<Glyph>> {
    seq(|gs|, g requires 0 <= g < |gs| => MapGroup(gs[g], op, m))
  }

  // ---------------------------------------------------------------------
  // What the transforms guarantee

  /**
   * Expanding to the top keeps the glyph's rows in order below the new zero
   * rows, so its bottom stays where it was relative to the baseline.
   */
  lemma ExpandedTopRows(c: Glyph, baseline: int)
    requires WellFormed(c) && c.top <= baseline
    ensures var r := ExpandedTop(c, baseline); var d := baseline - c.top;
      WellFormed(r) && r.top == baseline && r.height == c.height + d &&
      r.height - r.top == c.height - c.top &&
      (forall y :: 0 <= y < d ==> r.bitmap[y] == Zeros(c.width)) &&
      (forall y :: 0 <= y < c.height ==> r.bitmap[d + y] == c.bitmap[y])
  {
  }

  /** For a glyph that fits the frame, expanding vertically gives exactly the frame's rows. */
  lemma ExpandedVFits(c: Glyph, m: Metrics)
    requires WellFormed(c) && Fits(m, c)
    ensures var r := ExpandedV(c, m); var d := m.baseline - c.top;
      WellFormed(r) && |r.bitmap| == m.height && r.top == m.baseline &&
      r.width == c.width && r.left == c.left &&
      (forall y :: 0 <= y < m.height && !(d <= y < d + c.height) ==> r.bitmap[y] == Zeros(c.width)) &&
      (forall y :: 0 <= y < c.height ==> r.bitmap[d + y] == c.bitmap[y])
  {
    var r := ExpandedV(c, m);
    var d := m.baseline - c.top;
    var above := ZeroRows(d, c.width);
    var below := ZeroRows(m.height - m.baseline - (c.height - c.top), c.width);
    assert r.bitmap == above + c.bitmap + below;
    forall y | 0 <= y < m.height && !(d <= y < d + c.height) ensures r.bitmap[y] == Zeros(c.width) {
      if y >= d + c.height {
        assert r.bitmap[y] == below[y - d - c.height];
      }
    }
  }

  /**
   * For a glyph that fits the frame, expanding horizontally pads with a
   * non-negative amount on both sides, every row becomes as wide as the
   * frame and the pixels move right by the front padding.
   */
  lemma ExpandedHFits(c: Glyph, m: Metrics)
    requires WellFormed(c) && Fits(m, c) && c.left >= 0
    ensures var r := ExpandedH(c, m); var before := PadBefore(c, m);
      0 <= before && 0 <= PadAfter(c, m) &&
      WellFormed(r) && r.width == m.width && r.left == m.baselineH && r.height == c.height &&
      forall y, x :: 0 <= y < c.height && 0 <= x < c.width ==> r.bitmap[y][before + x] == c.bitmap[y][x]
  {
    var before, after := PadBefore(c, m), PadAfter(c, m);
    if m.baselineH == 0 {
      assert c.left == 0 && c.width <= m.width;
      CDivSpec(m.width - c.width, 2);
    }
    assert before >= 0 && after >= 0 && before + c.width + after == m.width;
    var r := ExpandedH(c, m);
    forall y | 0 <= y < c.height
      ensures r.bitmap[y] == Zeros(before) + c.bitmap[y] + Zeros(after) && |r.bitmap[y]| == m.width
    {
    }
    forall y, x | 0 <= y < c.height && 0 <= x < c.width ensures r.bitmap[y][before + x] == c.bitmap[y][x] {
      assert r.bitmap[y] == Zeros(before) + c.bitmap[y] + Zeros(after);
    }
  }

  /** The corrected horizontal deflation keeps a well-formed glyph well-formed, shifting its pixels left. */
  lemma DeflatedHRows(c: Glyph, left: int, right: int)
    requires WellFormed(c) && 0 <= left && 0 <= right && left + right <= c.width
    ensures var r := DeflatedH(c, left, right);
      WellFormed(r) && r.width == c.width - left - right &&
      forall y, x :: 0 <= y < c.height && 0 <= x < r.width ==> r.bitmap[y][x] == c.bitmap[y][left + x]
  {
  }

  /** As written, a trimmed glyph keeps its old rows and stops being well-formed. */
  lemma DeflatedHAsWrittenKeepsRows()
    ensures var c := Glyph('a', 2, 2, 1, 0, 1, [[1, 1]]);
      WellFormed(c) && !WellFormed(DeflatedHAsWritten(c, 1, 0)) && DeflatedHAsWritten(c, 1, 0).bitmap == [[1, 1]]
  {
    var r := DeflatedHAsWritten(Glyph('a', 2, 2, 1, 0, 1, [[1, 1]]), 1, 0);
    assert |r.bitmap[0]| != r.width;
  }

  /**
   * As written, deflate_chars(1, 0, 0, 0) on a committed font of one glyph
   * two pixels wide narrows the glyph to one column but keeps both pixels of
   * its row; the corrected loop body keeps only the second.
   */
  lemma DeflateCharsAsWrittenKeepsRows(c: Glyph, m: Metrics, p: Parts)
    requires c == Glyph('a', 2, 2, 1, 0, 1, [[1, 1]])
    requires m == MetricsOf([[c]]) && p == PartsOf(m, 1, 0, 0, 0)
    ensures WellFormed(c)
    ensures MapAll([[c]], Deflate(p), m)[0][0] == c.(width := 1)
    ensures !WellFormed(c.(width := 1))
    ensures DeflatedCorrected(c, p) == c.(width := 1, bitmap := [[1]])
  {
    OneGlyphParts(c, m, p);
    OneGlyphDeflated(c, m, p);
    NarrowedIllFormed(c);
    TrimFirstColumnCorrected(c, p);
  }

  lemma OneGlyphParts(c: Glyph, m: Metrics, p: Parts)
    requires c == Glyph('a', 2, 2, 1, 0, 1, [[1, 1]])
    requires m == MetricsOf([[c]]) && p == PartsOf(m, 1, 0, 0, 0)
    ensures p == Parts(-1, 2, 1, 0)
  {
    OneGlyphMetrics(c);
  }

  lemma OneGlyphDeflated(c: Glyph, m: Metrics, p: Parts)
    requires c == Glyph('a', 2, 2, 1, 0, 1, [[1, 1]]) && p == Parts(-1, 2, 1, 0)
    ensures MapAll([[c]], Deflate(p), m)[0][0] == c.(width := 1)
  {
    MapAllOne(c, Deflate(p), m);
    TrimFirstColumn(c, p);
  }

  lemma NarrowedIllFormed(c: Glyph)
    requires c == Glyph('a', 2, 2, 1, 0, 1, [[1, 1]])
    ensures WellFormed(c) && !WellFormed(c.(width := 1))
  {
    var r := c.(width := 1);
    assert |r.bitmap[0]| != r.width;
  }

  /** A font of one glyph transforms that glyph. */
  lemma MapAllOne(c: Glyph, op: Op, m: Metrics)
    ensures MapAll([[c]], op, m)[0][0] == Apply(op, m, c)
  {
  }

  /** The frame of a font of one glyph is that glyph's box with the origin added. */
  lemma OneGlyphMetrics(c: Glyph)
    ensures MetricsOf([[c]]) == Metrics(Max(0, c.width - c.left) - Min(0, -c.left),
      Max(0, c.height - c.top) - Min(0, -c.top), -Min(0, -c.top), -Min(0, -c.left))
  {
    assert [[c]][..0] == [];
    assert Flatten([[c]]) == Flatten([[c]][..0]) + [c];
    assert [c][..0] == [];
    assert ExtentOf([c]) == Extend(ExtentOf([]), c);
  }

  /** As written, a one-row glyph two pixels wide that loses its first column keeps its row. */
  lemma TrimFirstColumn(c: Glyph, p: Parts)
    requires c == Glyph('a', 2, 2, 1, 0, 1, [[1, 1]]) && p == Parts(-1, 2, 1, 0)
    ensures Deflated(c, p) == c.(width := 1)
  {
    var c1 := c.(width := 1, left := 0);
    assert DeflatedHAsWritten(c, 1, 0) == c1;
    assert PySlice(c1.bitmap, 0, 1) == c1.bitmap;
  }

  /** Corrected, the same glyph keeps only the second pixel of its row. */
  lemma TrimFirstColumnCorrected(c: Glyph, p: Parts)
    requires c == Glyph('a', 2, 2, 1, 0, 1, [[1, 1]]) && p == Parts(-1, 2, 1, 0)
    ensures DeflatedCorrected(c, p) == c.(width := 1, bitmap := [[1]])
  {
    var h := DeflatedH(c, 1, 0);
    assert h.bitmap[0] == PySlice([1, 1], 1, 2) == [1];
    assert h.bitmap == [[1]];
    assert h == c.(width := 1, bitmap := [[1]]);
    assert PySlice(h.bitmap, 0, 1) == h.bitmap;
  }

  /**
   * When neither side has a column beyond its part, the trims are 0 and
   * deflate_chars as written and the corrected loop body give the same glyph.
   */
  lemma DeflatedAgree(c: Glyph, p: Parts)
    requires c.left <= p.left && c.width - c.left <= p.right
    ensures Deflated(c, p) == DeflatedCorrected(c, p)
  {
    assert TrimLeft(c, p) == 0 && TrimRight(c, p) == 0;
    var h := DeflatedH(c, 0, 0);
    assert h.bitmap == c.bitmap by {
      forall y | 0 <= y < |c.bitmap| ensures h.bitmap[y] == c.bitmap[y] {
        assert PySlice(c.bitmap[y], 0, |c.bitmap[y]|) == c.bitmap[y][0..|c.bitmap[y]|];
      }
    }
    assert h == DeflatedHAsWritten(c, 0, 0);
  }

  /**
   * deflate_chars with no horizontal change on a committed font (the font
   * generator's deflate_chars_bottom) trims no glyph horizontally, so there
   * the code as written does what the corrected loop body does.
   */
  lemma CommittedDeflateAgrees(gs: seq<seq<Glyph>>, top: int, bottom: int, g: nat, i: nat)
    requires g < |gs| && i < |gs[g]|
    ensures var m := MetricsOf(gs); var p := PartsOf(m, 0, top, 0, bottom);
      MapAll(gs, Deflate(p), m)[g][i] == DeflatedCorrected(gs[g][i], p)
  {
    CommittedFits(gs, g, i);
    DeflatedAgree(gs[g][i], PartsOf(MetricsOf(gs), 0, top, 0, bottom));
  }

  /** deflate_chars never leaves a negative bearing: both are clamped at 0. */
  lemma DeflatedBearings(c: Glyph, p: Parts)
    ensures Bearings(Deflated(c, p))
  {
  }

  /**
   * With non-negative bearings and parts, a deflated glyph keeps at most the
   * parts left and above the origin and right of it, and ends exactly the
   * bottom part below the baseline.
   */
  lemma DeflatedFrame(c: Glyph, p: Parts)
    requires Bearings(c) && p.left >= 0 && p.top >= 0
    ensures var r := Deflated(c, p);
      r.left == Min(c.left, p.left) && r.width - r.left == Min(c.width - c.left, p.right) &&
      r.top == Min(c.top, p.top) && r.height - r.top == p.bottom
  {
  }

  /** Every transform keeps the bearings non-negative when the frame's baselines are. */
  lemma ApplyBearings(op: Op, m: Metrics, c: Glyph)
    requires Bearings(c) && m.baseline >= 0 && m.baselineH >= 0
    ensures Bearings(Apply(op, m, c))
  {
  }

  /** Expanding to the top keeps the rows of a well-formed glyph equally long. */
  lemma ExpandedTopRectangular(c: Glyph, baseline: int)
    requires WellFormed(c)
    ensures var bm := ExpandedTop(c, baseline).bitmap;
      Rectangular(bm) && (|bm| > 0 ==> |bm[0]| == c.width)
  {
    var above := ZeroRows(baseline - c.top, c.width);
    var bm := ExpandedTop(c, baseline).bitmap;
    forall y | 0 <= y < |bm| ensures |bm[y]| == c.width {
      if y >= |above| {
        assert bm[y] == c.bitmap[y - |above|];
      }
    }
  }

  // ---------------------------------------------------------------------
  // The transforms of all glyphs

  lemma MapGroupAppend(a: seq<Glyph>, b: seq<Glyph>, op: Op, m: Metrics)
    ensures MapGroup(a + b, op, m) == MapGroup(a, op, m) + MapGroup(b, op, m)
  {
  }

  /** Transforming every group transforms the flattened glyphs one by one. */
  lemma {:induction false} FlattenMap(gs: seq<seq<Glyph>>, op: Op, m: Metrics)
    ensures Flatten(MapAll(gs, op, m)) == MapGroup(Flatten(gs), op, m)
    decreases |gs|
  {
    if gs != [] {
      var n := |gs| - 1;
      FlattenMap(gs[..n], op, m);
      assert MapAll(gs, op, m)[..n] == MapAll(gs[..n], op, m);
      MapGroupAppend(Flatten(gs[..n]), gs[n], op, m);
    }
  }

  /**
   * Glyphs that keep their tops and all end b >= 0 below the baseline give
   * the same top bound and the bottom bound b (0 when there are none).
   */
  lemma {:induction false} ExtentVertical(cs: seq<Glyph>, ds: seq<Glyph>, b: int)
    requires |cs| == |ds| && b >= 0
    requires forall k :: 0 <= k < |cs| ==> ds[k].top == cs[k].top && ds[k].height - ds[k].top == b
    ensures ExtentOf(ds).top == ExtentOf(cs).top
    ensures ExtentOf(ds).bottom == if cs == [] then 0 else b
    decreases |cs|
  {
    if cs != [] {
      var n := |cs| - 1;
      ExtentVertical(cs[..n], ds[..n], b);
    }
  }

  /**
   * deflate_chars_bottom(h) of a committed font whose bearings are not
   * negative: once the updates are committed again the font is h rows tall
   * and its baseline is where it was, provided the baseline <= h <= height.
   */
  lemma DeflateBottomHeight(gs: seq<seq<Glyph>>, h: int)
    requires forall g, i :: 0 <= g < |gs| && 0 <= i < |gs[g]| ==> Bearings(gs[g][i])
    requires MetricsOf(gs).baseline <= h <= MetricsOf(gs).height
    ensures var m := MetricsOf(gs);
      var m2 := MetricsOf(MapAll(gs, Deflate(PartsOf(m, 0, 0, 0, m.height - h)), m));
      m2.height == h && m2.baseline == m.baseline
  {
    var m := MetricsOf(gs);
    var p := PartsOf(m, 0, 0, 0, m.height - h);
    var cs := Flatten(gs);
    var ds := Flatten(MapAll(gs, Deflate(p), m));
    DeflateBottomExtent(gs, m, p);
    BottomFrame(ExtentOf(cs), ExtentOf(ds), m, p.bottom, h, cs == []);
  }

  /** The deflated glyphs of deflate_chars_bottom keep their tops and all end p.bottom below the baseline. */
  lemma DeflateBottomGlyphs(gs: seq<seq<Glyph>>, m: Metrics, p: Parts)
    requires forall g, i :: 0 <= g < |gs| && 0 <= i < |gs[g]| ==> Bearings(gs[g][i])
    requires m == MetricsOf(gs) && p.left == m.baselineH && p.top == m.baseline && p.bottom >= 0
    ensures var cs, ds := Flatten(gs), Flatten(MapAll(gs, Deflate(p), m));
      |ds| == |cs| && forall k :: 0 <= k < |cs| ==> ds[k].top == cs[k].top && ds[k].height - ds[k].top == p.bottom
  {
    FlattenMap(gs, Deflate(p), m);
    MetricsBounds(gs);
    FlattenedWithinTop(gs, p);
    DeflatedTops(Flatten(gs), p, m);
  }

  /** The extent of the deflated glyphs: the same top, and p.bottom below the baseline. */
  lemma DeflateBottomExtent(gs: seq<seq<Glyph>>, m: Metrics, p: Parts)
    requires forall g, i :: 0 <= g < |gs| && 0 <= i < |gs[g]| ==> Bearings(gs[g][i])
    requires m == MetricsOf(gs) && p.left == m.baselineH && p.top == m.baseline && p.bottom >= 0
    ensures var cs, ds := Flatten(gs), Flatten(MapAll(gs, Deflate(p), m));
      ExtentOf(ds).top == ExtentOf(cs).top && ExtentOf(ds).bottom == if cs == [] then 0 else p.bottom
  {
    DeflateBottomGlyphs(gs, m, p);
    ExtentVertical(Flatten(gs), Flatten(MapAll(gs, Deflate(p), m)), p.bottom);
  }

  /** The frame arithmetic of deflate_chars_bottom: same top bound, bottom bound h - baseline. */
  lemma BottomFrame(e: Extent, e2: Extent, m: Metrics, b: int, h: int, empty: bool)
    requires m == Metrics(e.right - e.left, e.bottom - e.top, -e.top, -e.left)
    requires m.baseline <= h <= m.height && b == h - m.baseline
    requires e2.top == e.top && e2.bottom == (if empty then 0 else b)
    requires empty ==> e == Extent(0, 0, 0, 0)
    ensures e2.bottom - e2.top == h && -e2.top == m.baseline
  {
  }

  /** The glyphs of a font with non-negative bearings, flattened, keep them and rise no higher than the baseline. */
  lemma FlattenedWithinTop(gs: seq<seq<Glyph>>, p: Parts)
    requires forall g, i :: 0 <= g < |gs| && 0 <= i < |gs[g]| ==> Bearings(gs[g][i])
    requires p.top == MetricsOf(gs).baseline
    ensures forall k :: 0 <= k < |Flatten(gs)| ==> Bearings(Flatten(gs)[k]) && Flatten(gs)[k].top <= p.top
  {
    FlattenOnly(gs, Bearings);
    TopsWithin(gs);
  }

  /** No glyph rises above the baseline of the frame. */
  lemma TopsWithin(gs: seq<seq<Glyph>>)
    ensures forall k :: 0 <= k < |Flatten(gs)| ==> Flatten(gs)[k].top <= MetricsOf(gs).baseline
  {
    var cs := Flatten(gs);
    ExtentBounds(cs);
    forall k | 0 <= k < |cs| ensures cs[k].top <= MetricsOf(gs).baseline {
      assert cs[k] in cs;
    }
  }

  /** Glyphs within the top part keep their tops, and all end the bottom part below the baseline. */
  lemma DeflatedTops(cs: seq<Glyph>, p: Parts, m: Metrics)
    requires p.left >= 0 && p.top >= 0
    requires forall k :: 0 <= k < |cs| ==> Bearings(cs[k]) && cs[k].top <= p.top
    ensures var ds := MapGroup(cs, Deflate(p), m);
      |ds| == |cs| && forall k :: 0 <= k < |cs| ==> ds[k].top == cs[k].top && ds[k].height - ds[k].top == p.bottom
  {
    forall k | 0 <= k < |cs| ensures Deflated(cs[k], p).top == cs[k].top && Deflated(cs[k], p).height - Deflated(cs[k], p).top == p.bottom {
      DeflatedFrame(cs[k], p);
    }
  }

  /**
   * expand_chars on a committed font of well-formed glyphs with
   * non-negative bearings: every glyph becomes exactly as wide and as tall
   * as the frame.
   */
  lemma ExpandCharsFrame(gs: seq<seq<Glyph>>, g: nat, i: nat)
    requires g < |gs| && i < |gs[g]| && WellFormed(gs[g][i]) && Bearings(gs[g][i])
    ensures var m := MetricsOf(gs); var r := MapAll(MapAll(gs, ExpandV, m), ExpandH, m)[g][i];
      WellFormed(r) && r.width == m.width && r.height == m.height &&
      r.top == m.baseline && r.left == m.baselineH
  {
    var m := MetricsOf(gs);
    var c := gs[g][i];
    CommittedFits(gs, g, i);
    MetricsBounds(gs);
    ExpandedVFits(c, m);
    var v := ExpandedV(c, m);
    assert MapAll(gs, ExpandV, m)[g][i] == v;
    ExpandedHFits(v, m);
  }

  /** A glyph that already has the frame's size and bearings is left as it is by both expansions. */
  lemma ExpandedFixed(c: Glyph, m: Metrics)
    requires WellFormed(c) && c.width == m.width && c.height == m.height
    requires c.top == m.baseline && c.left == m.baselineH
    ensures ExpandedV(c, m) == c && ExpandedH(c, m) == c
  {
    assert ExpandedV(c, m).bitmap == [] + c.bitmap + [];
    assert PadBefore(c, m) == 0 by {
      if m.baselineH == 0 {
        CDivSpec(0, 2);
      }
    }
    assert Zeros(PadBefore(c, m)) == [] && Zeros(PadAfter(c, m)) == [];
    var bm := ExpandedH(c, m).bitmap;
    forall y | 0 <= y < |c.bitmap| ensures bm[y] == c.bitmap[y] {
      assert bm[y] == [] + c.bitmap[y] + [];
    }
  }

  /**
   * expand_chars is idempotent: on a font of well-formed glyphs with
   * non-negative bearings, expanding a second time in the same frame
   * changes no glyph, neither its size nor a pixel.
   */
  lemma ExpandCharsIdempotent(gs: seq<seq<Glyph>>)
    requires forall g, i :: 0 <= g < |gs| && 0 <= i < |gs[g]| ==> WellFormed(gs[g][i]) && Bearings(gs[g][i])
    ensures var m := MetricsOf(gs); var e := MapAll(MapAll(gs, ExpandV, m), ExpandH, m);
      MapAll(MapAll(e, ExpandV, m), ExpandH, m) == e
  {
    var m := MetricsOf(gs);
    var e := MapAll(MapAll(gs, ExpandV, m), ExpandH, m);
    var e2 := MapAll(MapAll(e, ExpandV, m), ExpandH, m);
    forall g, i | 0 <= g < |gs| && 0 <= i < |gs[g]| ensures e2[g][i] == e[g][i] {
      ExpandCharsFrame(gs, g, i);
      ExpandedFixed(e[g][i], m);
      assert MapAll(e, ExpandV, m)[g][i] == e[g][i];
    }
    assert forall g :: 0 <= g < |gs| ==> e2[g] == e[g];
  }

  // ---------------------------------------------------------------------
  // printString

  /** `"".join(['-'] * n)` */
  function Dashes(n: int): (r: seq<char>)
    ensures |r| == Max(n, 0)
  {
    if n <= 0 then [] else Dashes(n - 1) + "-"
  }

  /** A bitmap row as text: '-' for a clear pixel, '@' for a set one. */
  function RowText(row: seq<Pixel>): (r: seq<char>)
    ensures |r| == |row|
  {
    seq(|row|, k requires 0 <= k < |row| => if row[k] == 0 then '-' else '@')
  }

  /** The bitmap has a row for each row of the glyph's height. */
  predicate Tall(c: Glyph) {
    c.height <= |c.bitmap|
  }

  /** The text of one glyph in a printed line: its bitmap row `index` and a '-', or dashes outside it. */
  function Cell(c: Glyph, index: int): seq<char>
    requires Tall(c)
  {
    if index < 0 || index >= c.height then Dashes(c.width + 1) else RowText(c.bitmap[index]) + "-"
  }

  predicate AllTall(gs: seq<seq<Glyph>>) {
    forall g, i :: 0 <= g < |gs| && 0 <= i < |gs[g]| ==> Tall(gs[g][i])
  }

  lemma FoundTall(gs: seq<seq<Glyph>>, ch: char)
    requires AllTall(gs) && FindChar(gs, ch).Some?
    ensures Tall(FindChar(gs, ch).value)
  {
    FindCharIn(gs, ch);
  }

  /** Row y of the printed string s: the cells of the characters that have a glyph, in order. */
  function TextRow(gs: seq<seq<Glyph>>, baseline: int, s: seq<char>, y: int): seq<char>
    requires AllTall(gs)
  {
    if s == [] then []
    else
      TextRow(gs, baseline, s[..|s| - 1], y) + CharCell(gs, baseline, s[|s| - 1], y)
  }

  /** The text of character ch on row y: its glyph's cell, or nothing when it has no glyph. */
  function CharCell(gs: seq<seq<Glyph>>, baseline: int, ch: char, y: int): seq<char>
    requires AllTall(gs)
  {
    match FindChar(gs, ch)
    case None => []
    case Some(c) => FoundTall(gs, ch); Cell(c, y - baseline + c.top)
  }

  /** One more character of s adds its cell, when it has a glyph, to the printed row. */
  lemma TextRowStep(gs: seq<seq<Glyph>>, baseline: int, s: seq<char>, y: int, n: nat)
    requires AllTall(gs) && n < |s|
    ensures TextRow(gs, baseline, s[..n + 1], y) == TextRow(gs, baseline, s[..n], y) + CharCell(gs, baseline, s[n], y)
  {
    assert s[..n + 1][..n] == s[..n];
  }

  /** The width a printed line gives to the characters of s: one more than each glyph's width. */
  function CellsWidth(gs: seq<seq<Glyph>>, s: seq<char>): int {
    if s == [] then 0
    else
      var w := match FindChar(gs, s[|s| - 1]) case None => 0 case Some(c) => Max(c.width + 1, 0);
      CellsWidth(gs, s[..|s| - 1]) + w
  }

  /** The lines printString writes. */
  function Printed(gs: seq<seq<Glyph>>, m: Metrics, s: seq<char>): seq<seq<char>>
    requires AllTall(gs)
  {
    seq(Max(m.height, 0), y requires 0 <= y < Max(m.height, 0) => "// " + TextRow(gs, m.baseline, s, y))
  }

  /**
   * With well-formed glyphs, every row of a printed string is equally wide:
   * each character with a glyph takes its width plus one column, whichever
   * row is printed, and a character without one takes none.
   */
  lemma {:induction false} TextRowWidth(gs: seq<seq<Glyph>>, baseline: int, s: seq<char>, y: int)
    requires AllTall(gs) && forall g, i :: 0 <= g < |gs| && 0 <= i < |gs[g]| ==> WellFormed(gs[g][i])
    ensures |TextRow(gs, baseline, s, y)| == CellsWidth(gs, s)
  {
    if s != [] {
      TextRowWidth(gs, baseline, s[..|s| - 1], y);
      var ch := s[|s| - 1];
      if FindChar(gs, ch).Some? {
        FindCharIn(gs, ch);
      }
    }
  }

  // ---------------------------------------------------------------------
  // The container

  class FontContainer {
    var width: int
    var height: int
    var baseline: int
    var baselineH: int
    /** The baselines exist once the updates have been committed. */
    var hasBaseline: bool
    var firstChar: Option<int>
    var groups: seq<seq<Glyph>>

    /** A new container has no glyphs and a zero frame. */
    constructor ()
      ensures width == 0 && height == 0 && !hasBaseline && firstChar == None && groups == []
      ensures Valid()
    {
      width := 0;
      height := 0;
      baseline := 0;
      baselineH := 0;
      hasBaseline := false;
      firstChar := None;
      groups := [];
    }

    function Frame(): Metrics
      reads this
    {
      Metrics(width, height, baseline, baselineH)
    }

    /** The frame is the one _commit_updates derives from the present glyphs. */
    predicate Committed()
      reads this
    {
      hasBaseline && Frame() == MetricsOf(groups)
    }

    /** Bearings and baselines are never negative. */
    predicate Valid()
      reads this
    {
      (hasBaseline ==> baseline >= 0 && baselineH >= 0) &&
      forall g, i :: 0 <= g < |groups| && 0 <= i < |groups[g]| ==> Bearings(groups[g][i])
    }

    /** add_group: one more, empty, group, whose index is returned. */
    method AddGroup() returns (index: int)
      modifies this
      ensures groups == old(groups) + [[]] && index == |groups| - 1
      ensures Frame() == old(Frame()) && hasBaseline == old(hasBaseline) && firstChar == old(firstChar)
      ensures old(Valid()) ==> Valid()
    {
      groups := groups + [[]];
      index := |groups| - 1;
    }

    /**
     * add_char: one record appended to the group; a negative group index
     * counts from the end, as Python indexing does.
     */
    method AddChar(group: int, ch: char, bitmap: Bitmap, width: int, height: int, left: int, top: int)
      requires -|groups| <= group < |groups|
      requires width < 0 ==> |bitmap| > 0
      modifies this
      ensures var g := if group < 0 then group + |old(groups)| else group;
        groups == old(groups)[g := old(groups)[g] + [NewGlyph(ch, bitmap, width, height, left, top)]]
      ensures Frame() == old(Frame()) && hasBaseline == old(hasBaseline) && firstChar == old(firstChar)
      ensures old(Valid()) ==> Valid()
    {
      var g := if group < 0 then group + |groups| else group;
      var c := NewGlyph(ch, bitmap, width, height, left, top);
      NewGlyphBearings(ch, bitmap, width, height, left, top);
      groups := groups[g := groups[g] + [c]];
    }

    /** rows(): the number of 8-row bands of the font, `int((height + 7) / 8)`. */
    function Rows(): (r: int)
      reads this
      ensures height >= 0 ==> 0 <= r && 8 * r >= height && 8 * (r - 1) < height
    {
      CDivSpec(height + 7, 8);
      CDiv(height + 7, 8)
    }

    /** _commit_updates: the four bounds accumulated over every glyph, then the frame. */
    method CommitUpdates()
      modifies this
      ensures Committed() && groups == old(groups) && firstChar == old(firstChar)
      ensures old(Valid()) ==> Valid()
    {
      var e := Extent(0, 0, 0, 0);
      var g := 0;
      while g < |groups|
        invariant unchanged(this) && 0 <= g <= |groups|
        invariant e == ExtentOf(Flatten(groups[..g]))
      {
        e := ExtendGroup(e, Flatten(groups[..g]), groups[g]);
        FlattenStep(groups, g);
        g := g + 1;
      }
      assert groups[..g] == groups;
      width := e.right - e.left;
      height := e.bottom - e.top;
      baseline := -e.top;
      baselineH := -e.left;
      hasBaseline := true;
      MetricsBounds(groups);
    }

    /** The inner loop of _commit_updates over the glyphs of one group. */
    static method ExtendGroup(e: Extent, ghost before: seq<Glyph>, cs: seq<Glyph>) returns (r: Extent)
      requires e == ExtentOf(before)
      ensures r == ExtentOf(before + cs)
    {
      var top, bottom, left, right := e.top, e.bottom, e.left, e.right;
      var i := 0;
      assert before + cs[..0] == before;
      while i < |cs|
        invariant 0 <= i <= |cs|
        invariant Extent(top, bottom, left, right) == ExtentOf(before + cs[..i])
      {
        var c := cs[i];
        ExtentStep(before + cs[..i], c);
        assert before + cs[..i + 1] == before + cs[..i] + [c];
        top := Min(top, 0 - c.top);
        bottom := Max(bottom, c.height - c.top);
        left := Min(left, 0 - c.left);
        right := Max(right, c.width - c.left);
        i := i + 1;
      }
      assert cs[..i] == cs;
      r := Extent(top, bottom, left, right);
    }

    /** _find_char_data */
    function FindCharData(ch: char): (r: Option<Glyph>)
      reads this
      ensures r.Some? ==> r.value.ch == ch
    {
      FindChar(groups, ch)
    }

    /** printString: one line per row of the frame, each the cells of the characters of s. */
    method PrintString(s: seq<char>) returns (lines: seq<seq<char>>)
      requires hasBaseline && AllTall(groups)
      ensures lines == Printed(groups, Frame(), s)
    {
      lines := [];
      var y := 0;
      while y < height
        invariant 0 <= y <= Max(height, 0)
        invariant |lines| == y
        invariant forall k :: 0 <= k < y ==> lines[k] == "// " + TextRow(groups, baseline, s, k)
      {
        var row := PrintRow(s, y);
        lines := lines + ["// " + row];
        y := y + 1;
      }
    }

    /** One line of printString: the cells of the characters of s for row y of the frame. */
    method PrintRow(s: seq<char>, y: int) returns (row: seq<char>)
      requires AllTall(groups)
      ensures row == TextRow(groups, baseline, s, y)
    {
      row := [];
      var n := 0;
      while n < |s|
        invariant 0 <= n <= |s|
        invariant row == TextRow(groups, baseline, s[..n], y)
      {
        var cell := PrintChar(s[n], y);
        TextRowStep(groups, baseline, s, y, n);
        row := row + cell;
        n := n + 1;
      }
      assert s[..n] == s;
    }

    /** The text printString adds for one character on row y. */
    method PrintChar(ch: char, y: int) returns (cell: seq<char>)
      requires AllTall(groups)
      ensures cell == CharCell(groups, baseline, ch, y)
    {
      cell := [];
      var data := FindCharData(ch);
      if data.Some? {
        FoundTall(groups, ch);
        var index := y - baseline + data.value.top;
        if index < 0 || index >= data.value.height {
          cell := Dashes(data.value.width + 1);
        } else {
          cell := RowText(data.value.bitmap[index]) + "-";
        }
      }
    }

    /** `for y in range(0, n): bitmap.insert(0, [0] * w)` */
    static method InsertZeroRows(bm: Bitmap, n: int, w: int) returns (r: Bitmap)
      ensures r == ZeroRows(n, w) + bm
    {
      r := bm;
      var y := 0;
      while y < n
        invariant 0 <= y && (y == 0 || y <= n)
        invariant r == ZeroRows(y, w) + bm
      {
        ZeroRowsCons(y, w);
        r := [Zeros(w)] + r;
        y := y + 1;
      }
    }

    /** `for y in range(0, n): bitmap.append([0] * w)` */
    static method AppendZeroRows(bm: Bitmap, n: int, w: int) returns (r: Bitmap)
      ensures r == bm + ZeroRows(n, w)
    {
      r := bm;
      var y := 0;
      while y < n
        invariant 0 <= y && (y == 0 || y <= n)
        invariant r == bm + ZeroRows(y, w)
      {
        r := r + [Zeros(w)];
        y := y + 1;
      }
    }

    /** __expand_char_top */
    method ExpandCharTop(c: Glyph) returns (r: Glyph)
      ensures r == ExpandedTop(c, baseline)
    {
      var bm := InsertZeroRows(c.bitmap, baseline - c.top, c.width);
      r := c.(bitmap := bm, top := baseline, height := |bm|);
    }

    /** __expand_char_v: zero rows inserted at the top, then appended at the bottom. */
    method ExpandCharV(c: Glyph) returns (r: Glyph)
      ensures r == ExpandedV(c, Frame())
    {
      var bm := InsertZeroRows(c.bitmap, baseline - c.top, c.width);
      bm := AppendZeroRows(bm, height - baseline - (c.height - c.top), c.width);
      r := c.(bitmap := bm, top := baseline, height := height);
    }

    /** __expand_char_h: zeros inserted one by one in front of every row, then appended after it. */
    method ExpandCharH(c: Glyph) returns (r: Glyph)
      ensures r == ExpandedH(c, Frame())
    {
      var before, after := PadBefore(c, Frame()), PadAfter(c, Frame());
      var bm := c.bitmap;
      if before > 0 {
        bm := PadFront(bm, before);
      }
      ghost var front := bm;
      assert forall k :: 0 <= k < |bm| ==> bm[k] == Zeros(before) + c.bitmap[k];
      if after > 0 {
        bm := PadBack(bm, after);
      }
      assert forall k :: 0 <= k < |bm| ==> bm[k] == front[k] + Zeros(after);
      r := c.(bitmap := bm, left := baselineH, width := width);
    }

    /** `for d in bitmap: for n in range(before): d.insert(0, 0)` */
    static method PadFront(bm: Bitmap, before: int) returns (r: Bitmap)
      ensures |r| == |bm| && forall k :: 0 <= k < |bm| ==> r[k] == Zeros(before) + bm[k]
    {
      r := bm;
      var y := 0;
      while y < |r|
        invariant 0 <= y <= |r| == |bm|
        invariant forall k :: 0 <= k < y ==> r[k] == Zeros(before) + bm[k]
        invariant forall k :: y <= k < |r| ==> r[k] == bm[k]
      {
        var d := r[y];
        var n := 0;
        while n < before
          invariant 0 <= n && (n == 0 || n <= before) && d == Zeros(n) + bm[y]
        {
          ZerosCons(n);
          d := [0] + d;
          n := n + 1;
        }
        r := r[y := d];
        y := y + 1;
      }
    }

    /** `for d in bitmap: d += [0]*after` */
    static method PadBack(bm: Bitmap, after: int) returns (r: Bitmap)
      ensures |r| == |bm| && forall k :: 0 <= k < |bm| ==> r[k] == bm[k] + Zeros(after)
    {
      r := bm;
      var y := 0;
      while y < |r|
        invariant 0 <= y <= |r| == |bm|
        invariant forall k :: 0 <= k < y ==> r[k] == bm[k] + Zeros(after)
        invariant forall k :: y <= k < |r| ==> r[k] == bm[k]
      {
        r := r[y := r[y] + Zeros(after)];
        y := y + 1;
      }
    }

    /** The loop body of the expand_chars* and deflate_chars loops for one glyph. */
    method ApplyChar(op: Op, c: Glyph) returns (r: Glyph)
      ensures r == Apply(op, Frame(), c)
    {
      match op
      case ExpandTop => r := ExpandCharTop(c);
      case ExpandV => r := ExpandCharV(c);
      case ExpandH => r := ExpandCharH(c);
      case Deflate(p) =>
        var c1 := DeflatedHAsWritten(c, TrimLeft(c, p), TrimRight(c, p));
        var topP := Max(c1.top - p.top, 0);
        var bottomP := c1.height - c1.top - p.bottom;
        r := DeflatedV(c1, topP, bottomP);
        assert r == Deflated(c, p);
    }

    /** The inner loop: each glyph of one group replaced by its transform. */
    method TransformGroup(op: Op, group: seq<Glyph>) returns (done: seq<Glyph>)
      ensures done == MapGroup(group, op, Frame())
    {
      done := [];
      var i := 0;
      while i < |group|
        invariant 0 <= i <= |group| && done == MapGroup(group[..i], op, Frame())
      {
        var c := ApplyChar(op, group[i]);
        assert MapGroup(group[..i + 1], op, Frame()) == done + [c];
        done := done + [c];
        i := i + 1;
      }
      assert group[..i] == group;
    }

    /** The loops over every glyph of every group, replacing each by its transform. */
    method ApplyToAll(op: Op)
      requires hasBaseline
      modifies this
      ensures groups == MapAll(old(groups), op, old(Frame()))
      ensures Frame() == old(Frame()) && hasBaseline && firstChar == old(firstChar)
      ensures old(Valid()) ==> Valid()
    {
      var g := 0;
      while g < |groups|
        invariant 0 <= g <= |groups| == |old(groups)|
        invariant Frame() == old(Frame()) && hasBaseline && firstChar == old(firstChar)
        invariant forall k :: 0 <= k < g ==> groups[k] == MapGroup(old(groups)[k], op, Frame())
        invariant forall k :: g <= k < |groups| ==> groups[k] == old(groups)[k]
      {
        var done := TransformGroup(op, groups[g]);
        groups := groups[g := done];
        g := g + 1;
      }
      if old(Valid()) {
        forall h, i | 0 <= h < |groups| && 0 <= i < |groups[h]| ensures Bearings(groups[h][i]) {
          ApplyBearings(op, Frame(), old(groups)[h][i]);
        }
      }
    }

    /** expand_chars_top */
    method ExpandCharsTop()
      requires hasBaseline
      modifies this
      ensures groups == MapAll(old(groups), ExpandTop, old(Frame()))
      ensures Frame() == old(Frame()) && hasBaseline && firstChar == old(firstChar)
      ensures old(Valid()) ==> Valid()
    {
      ApplyToAll(ExpandTop);
    }

    /** expand_chars_v */
    method ExpandCharsV()
      requires hasBaseline
      modifies this
      ensures groups == MapAll(old(groups), ExpandV, old(Frame()))
      ensures Frame() == old(Frame()) && hasBaseline && firstChar == old(firstChar)
      ensures old(Valid()) ==> Valid()
    {
      ApplyToAll(ExpandV);
    }

    /** expand_chars_h */
    method ExpandCharsH()
      requires hasBaseline
      modifies this
      ensures groups == MapAll(old(groups), ExpandH, old(Frame()))
      ensures Frame() == old(Frame()) && hasBaseline && firstChar == old(firstChar)
      ensures old(Valid()) ==> Valid()
    {
      ApplyToAll(ExpandH);
    }

    /** expand_chars: vertically, then horizontally, in the same frame. */
    method ExpandChars()
      requires hasBaseline
      modifies this
      ensures groups == MapAll(MapAll(old(groups), ExpandV, old(Frame())), ExpandH, old(Frame()))
      ensures Frame() == old(Frame()) && hasBaseline && firstChar == old(firstChar)
      ensures old(Valid()) ==> Valid()
    {
      ExpandCharsV();
      ExpandCharsH();
    }

    /** deflate_chars: every glyph trimmed to the parts of the frame kept on each side, then a new commit. */
    method DeflateChars(left: int, top: int, right: int, bottom: int)
      requires hasBaseline
      modifies this
      ensures groups == MapAll(old(groups), Deflate(PartsOf(old(Frame()), left, top, right, bottom)), old(Frame()))
      ensures Committed() && firstChar == old(firstChar)
      ensures old(Valid()) ==> Valid()
    {
      var parts := PartsOf(Frame(), left, top, right, bottom);
      ApplyToAll(Deflate(parts));
      CommitUpdates();
    }

    /** deflate_chars_bottom: the rows below the given height are cut off. */
    method DeflateCharsBottom(h: int)
      requires hasBaseline
      modifies this
      ensures groups == MapAll(old(groups), Deflate(PartsOf(old(Frame()), 0, 0, 0, old(height) - h)), old(Frame()))
      ensures Committed() && firstChar == old(firstChar)
      ensures old(Valid()) ==> Valid()
      ensures old(Committed()) && old(Valid()) && old(baseline) <= h <= old(height) ==>
        height == h && baseline == old(baseline)
    {
      ghost var gs := groups;
      var bottom := height - h;
      DeflateChars(0, 0, 0, bottom);
      if old(Committed()) && old(Valid()) && old(baseline) <= h <= old(height) {
        DeflateBottomHeight(gs, h);
      }
    }
  }
}
