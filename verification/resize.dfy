/**
 * operation_resize: resize_cpu on one-byte NCHW images, the fixed-point bilinear path. Source
 * coordinates are kept in units of 2^-15 pixel; the tables hold, per destination column and row,
 * the source index and a weight in units of 2^-10; a row buffer holds horizontally interpolated
 * values scaled by 2^10, and each output byte is the vertical blend scaled by 2^20 and rounded.
 */
module Resizes {
  import opened Wrappers
  import opened Tensors

  /** unsigned char. */
  type Byte = x: int | 0 <= x < 256

  /** 1 << ICV_WARP_SHIFT: the unit of the weights and of the row buffers. */
  const WarpOne := 1024

  /** 1 << ICV_WARP_SHIFT2: the unit of a source coordinate. */
  const CoordinateOne := 32768

  /** C's integer division, which truncates toward zero. */
  function TruncDiv(a: int, b: int): int
    requires b > 0
  {
    if a >= 0 then a / b else -((-a) / b)
  }

  /** CV_DESCALE(x, 2·ICV_WARP_SHIFT): adds 2^19 and shifts right by 20; the shift floors. */
  function WarpDescale(x: int): int
  {
    (x + 524288) / 1048576
  }

  /** The (unsigned char) cast: the value modulo 256. */
  function ToByte(x: int): Byte
  {
    x % 256
  }

  /** CvResizeAlpha: a source index and its weight. */
  datatype Alpha = Alpha(idx: int, ialpha: int)

  /** scale_x, scale_y: ((size << 15) + dstSize / 2) / dstSize, the source step per destination pixel, rounded. */
  function Scale(size: nat, dstSize: int): int
    requires dstSize > 0
  {
    (size * CoordinateOne + dstSize / 2) / dstSize
  }

  /** fx_1024x before the split: the source coordinate of the centre of destination pixel d, ((2d + 1)·scale − 2^15) / 2. */
  function Coordinate(d: int, scale: int): int
  {
    TruncDiv((d * 2 + 1) * scale - CoordinateOne, 2)
  }

  /** The coordinate split into its whole part (shifted right by 15) and its fraction in units of 2^-10. */
  function Split(d: int, scale: int): Alpha
  {
    var f := Coordinate(d, scale);
    var s := f / CoordinateOne;
    Alpha(s, (f - s * CoordinateOne) / 32)
  }

  /** A negative source index becomes index 0 with weight 0. */
  function ClampBelow(a: Alpha): Alpha
  {
    if a.idx < 0 then Alpha(0, 0) else a
  }

  /** Column dx maps at or past the last source column; the first such column is xmax. */
  predicate AtRightEdge(dx: int, scale: int, width: int)
  {
    ClampBelow(Split(dx, scale)).idx >= width - 1
  }

  /** xofs[dx]: clamped below, and at the right edge the last column with weight 0. */
  function ColumnEntry(dx: int, scale: int, width: int): Alpha
  {
    var a := ClampBelow(Split(dx, scale));
    if a.idx >= width - 1 then Alpha(width - 1, 0) else a
  }

  /** yofs[dy] as written: clamped below only. */
  function RowEntryAsWritten(dy: int, scale: int): Alpha
  {
    ClampBelow(Split(dy, scale))
  }

  /**
   * yofs[dy], corrected with the clamp the column table has: an index past the last row becomes
   * the last row with weight 0.
   */
  function RowEntry(dy: int, scale: int, height: int): Alpha
  {
    var a := RowEntryAsWritten(dy, scale);
    if a.idx > height - 1 then Alpha(height - 1, 0) else a
  }

  /** The fraction of a split coordinate is a weight below 2^10. */
  lemma SplitWeight(d: int, scale: int)
    ensures 0 <= Split(d, scale).ialpha < WarpOne
  {
    var f := Coordinate(d, scale);
    assert f - (f / CoordinateOne) * CoordinateOne == f % CoordinateOne;
  }

  /**
   * Every column entry reads inside a row of width >= 1 with a weight below 2^10; an entry short
   * of the edge keeps its split coordinate, and at the edge it is the last column with weight 0.
   */
  lemma ColumnEntryInside(dx: int, scale: int, width: int)
    requires width >= 1
    ensures var a := ColumnEntry(dx, scale, width);
      && 0 <= a.idx < width && 0 <= a.ialpha < WarpOne
      && (AtRightEdge(dx, scale, width) <==> a == Alpha(width - 1, 0))
      && (!AtRightEdge(dx, scale, width) ==> a == ClampBelow(Split(dx, scale)) && a.idx + 1 < width)
  {
    SplitWeight(dx, scale);
  }

  /** Every row entry with the corrected clamp lies inside an image of height >= 1, with a weight below 2^10. */
  lemma RowEntryInside(dy: int, scale: int, height: int)
    requires height >= 1
    ensures var a := RowEntry(dy, scale, height);
      0 <= a.idx < height && 0 <= a.ialpha < WarpOne
  {
    SplitWeight(dy, scale);
  }

  /** The corrected row entry is the row entry as written exactly when the latter lies inside the image. */
  lemma RowEntryAgrees(dy: int, scale: int, height: int)
    ensures RowEntry(dy, scale, height) == RowEntryAsWritten(dy, scale) <==> RowEntryAsWritten(dy, scale).idx < height
  {
  }

  /**
   * As written the row table is not clamped at the bottom: a one-row image resized to 65536 rows
   * (scale 1) maps the last destination row to source row 1, which the kernel then reads.
   */
  lemma RowPastImage()
    ensures Scale(1, 65536) == 1
    ensures RowEntryAsWritten(65535, Scale(1, 65536)) == Alpha(1, 511)
    ensures RowEntry(65535, Scale(1, 65536), 1) == Alpha(0, 0)
  {
    assert Coordinate(65535, 1) == 49151;
  }

  /** a <= b gives a / d <= b / d for a positive divisor. */
  lemma DivMonotone(a: int, b: int, d: int)
    requires a <= b && d > 0
    ensures a / d <= b / d
  {
    var qa, qb := a / d, b / d;
    assert (qa - qb) * d == qa * d - qb * d;
    if qa > qb {
      MulMonotone(1, qa - qb, d);
    }
  }

  /** Source coordinates do not decrease along the destination axis. */
  lemma CoordinateMonotone(d: int, d': int, scale: int)
    requires 0 <= d <= d' && scale >= 0
    ensures Coordinate(d, scale) <= Coordinate(d', scale)
  {
    MulMonotone(d * 2 + 1, d' * 2 + 1, scale);
    var a, b := (d * 2 + 1) * scale - CoordinateOne, (d' * 2 + 1) * scale - CoordinateOne;
    if a >= 0 {
      DivMonotone(a, b, 2);
    } else if b < 0 {
      DivMonotone(-b, -a, 2);
    }
  }

  /** Once a column reaches the right edge, every later column does. */
  lemma EdgeStays(dx: int, dx': int, scale: int, width: int)
    requires 0 <= dx <= dx' && scale >= 0 && AtRightEdge(dx, scale, width)
    ensures AtRightEdge(dx', scale, width)
  {
    CoordinateMonotone(dx, dx', scale);
    DivMonotone(Coordinate(dx, scale), Coordinate(dx', scale), CoordinateOne);
  }

  /** xmax: the first column from `from` on that reaches the right edge, or dstWidth if none does. */
  function FirstEdge(scale: int, width: int, dstWidth: int, from: nat): (r: int)
    requires from <= dstWidth
    ensures from <= r <= dstWidth
    ensures r < dstWidth ==> AtRightEdge(r, scale, width)
    ensures forall dx | from <= dx < r :: !AtRightEdge(dx, scale, width)
    decreases dstWidth - from
  {
    if from == dstWidth then dstWidth
    else if AtRightEdge(from, scale, width) then from
    else FirstEdge(scale, width, dstWidth, from + 1)
  }

  /** A column that reaches the edge with none before it is the one FirstEdge finds. */
  lemma FirstEdgeUnique(scale: int, width: int, dstWidth: nat, x: int)
    requires 0 <= x <= dstWidth
    requires x < dstWidth ==> AtRightEdge(x, scale, width)
    requires forall dx | 0 <= dx < x :: !AtRightEdge(dx, scale, width)
    ensures x == FirstEdge(scale, width, dstWidth, 0)
  {
  }

  /** From xmax on, every column entry is the last source column with weight 0. */
  lemma PastFirstEdge(scale: int, width: int, dstWidth: nat, dx: int)
    requires scale >= 0 && width >= 1 && FirstEdge(scale, width, dstWidth, 0) <= dx < dstWidth
    ensures ColumnEntry(dx, scale, width) == Alpha(width - 1, 0)
  {
    EdgeStays(FirstEdge(scale, width, dstWidth, 0), dx, scale, width);
    ColumnEntryInside(dx, scale, width);
  }

  /** The loop that fills xofs: entry dx is ColumnEntry(dx), and xmax is the first column at the right edge. */
  method ColumnTable(xofs: array<Alpha>, scale: int, width: int, dstWidth: nat) returns (xmax: int)
    requires xofs.Length == dstWidth
    modifies xofs
    ensures forall dx | 0 <= dx < dstWidth :: xofs[dx] == ColumnEntry(dx, scale, width)
    ensures xmax == FirstEdge(scale, width, dstWidth, 0)
  {
    xmax := dstWidth;
    var dx := 0;
    while dx < dstWidth
      invariant 0 <= dx <= dstWidth
      invariant forall d | 0 <= d < dx :: xofs[d] == ColumnEntry(d, scale, width)
      invariant xmax == dstWidth || (0 <= xmax < dx && AtRightEdge(xmax, scale, width))
      invariant forall d | 0 <= d < dx && d < xmax :: !AtRightEdge(d, scale, width)
    {
      var f := TruncDiv((dx * 2 + 1) * scale - CoordinateOne, 2);
      var sx := f / CoordinateOne;
      f := (f - sx * CoordinateOne) / 32;
      if sx < 0 {
        sx := 0;
        f := 0;
      }
      if sx >= width - 1 {
        f := 0;
        sx := width - 1;
        if xmax >= dstWidth {
          xmax := dx;
        }
      }
      xofs[dx] := Alpha(sx, f);
      dx := dx + 1;
    }
    FirstEdgeUnique(scale, width, dstWidth, xmax);
  }

  /** The loop that fills yofs, with the corrected clamp: entry dy is RowEntry(dy). */
  method RowTable(yofs: array<Alpha>, scale: int, height: int, dstHeight: nat)
    requires yofs.Length == dstHeight
    modifies yofs
    ensures forall dy | 0 <= dy < dstHeight :: yofs[dy] == RowEntry(dy, scale, height)
  {
    var dy := 0;
    while dy < dstHeight
      invariant 0 <= dy <= dstHeight
      invariant forall d | 0 <= d < dy :: yofs[d] == RowEntry(d, scale, height)
    {
      var f := TruncDiv((dy * 2 + 1) * scale - CoordinateOne, 2);
      var sy := f / CoordinateOne;
      f := (f - sy * CoordinateOne) / 32;
      if sy < 0 {
        sy := 0;
        f := 0;
      }
      if sy > height - 1 {
        sy := height - 1;
        f := 0;
      }
      yofs[dy] := Alpha(sy, f);
      dy := dy + 1;
    }
  }

  /** One channel of one image: height rows of width bytes, row after row. */
  datatype Plane = Plane(pixels: seq<Byte>, height: nat, width: nat)
  {
    predicate Valid()
    {
      |pixels| == height * width
    }

    /** Pixel (y, x): byte y·width + x. */
    function Pixel(y: int, x: int): Byte
      requires Valid() && 0 <= y < height && 0 <= x < width
    {
      MixedRadix(y, x, height, width);
      pixels[y * width + x]
    }
  }

  /** The tables the kernel reads: xofs, xmax and yofs. */
  datatype Tables = Tables(xofs: seq<Alpha>, xmax: int, yofs: seq<Alpha>)

  /**
   * The tables fit a plane of the given height and width: every column entry lies inside a row,
   * and so does the next column before xmax; every row entry lies inside the plane; every weight
   * is below 2^10.
   */
  predicate TablesFit(t: Tables, height: int, width: int)
  {
    && 0 <= t.xmax <= |t.xofs|
    && (forall dx | 0 <= dx < |t.xofs| ::
          0 <= t.xofs[dx].idx < width && 0 <= t.xofs[dx].ialpha < WarpOne && (dx < t.xmax ==> t.xofs[dx].idx + 1 < width))
    && (forall dy | 0 <= dy < |t.yofs| :: 0 <= t.yofs[dy].idx < height && 0 <= t.yofs[dy].ialpha < WarpOne)
  }

  predicate Fits(p: Plane, t: Tables)
  {
    p.Valid() && TablesFit(t, p.height, p.width)
  }

  /** The column table resize_cpu builds for a source width W and a destination width dw. */
  function Columns(W: nat, dw: nat): seq<Alpha>
    requires dw > 0
  {
    seq(dw, dx => ColumnEntry(dx, Scale(W, dw), W))
  }

  /** The row table, with the corrected clamp, for a source height H and a destination height dh. */
  function Rows(H: nat, dh: nat): seq<Alpha>
    requires dh > 0
  {
    seq(dh, dy => RowEntry(dy, Scale(H, dh), H))
  }

  /** The tables are inside an image of at least one row and one column. */
  lemma TablesInside(H: nat, W: nat, dh: nat, dw: nat)
    requires dh > 0 && dw > 0 && H >= 1 && W >= 1
    ensures TablesFit(Tables(Columns(W, dw), FirstEdge(Scale(W, dw), W, dw, 0), Rows(H, dh)), H, W)
  {
    forall dx | 0 <= dx < dw {
      ColumnEntryInside(dx, Scale(W, dw), W);
    }
    forall dy | 0 <= dy < dh {
      RowEntryInside(dy, Scale(H, dh), H);
    }
  }

  /** xofs, xmax and yofs for a source of H × W pixels and a destination of dh × dw pixels. */
  function Sampling(H: nat, W: nat, dh: nat, dw: nat): (t: Tables)
    requires dh > 0 && dw > 0
    ensures |t.xofs| == dw && |t.yofs| == dh
    ensures H >= 1 && W >= 1 ==> TablesFit(t, H, W)
  {
    if H >= 1 && W >= 1 then TablesInside(H, W, dh, dw); Tables(Columns(W, dw), FirstEdge(Scale(W, dw), W, dw, 0), Rows(H, dh))
    else Tables(Columns(W, dw), FirstEdge(Scale(W, dw), W, dw, 0), Rows(H, dh))
  }

  /** The second source column of destination column dx: the next one before xmax, the same one from there on. */
  function NextColumn(t: Tables, dx: int): int
    requires 0 <= dx < |t.xofs|
  {
    if dx < t.xmax then t.xofs[dx].idx + 1 else t.xofs[dx].idx
  }

  /** sy1: the row below sy0 when the weight is positive and sy0 is not the last row, sy0 otherwise. */
  function NextRow(p: Plane, t: Tables, dy: int): int
    requires 0 <= dy < |t.yofs|
  {
    var a := t.yofs[dy];
    if a.ialpha > 0 && a.idx < p.height - 1 then a.idx + 1 else a.idx
  }

  /**
   * Element dx of the row buffer for source row y: (p[sx] << 10) + fx·(p[sx + 1] − p[sx]) before
   * xmax, p[sx] << 10 from there on.
   */
  function Horizontal(p: Plane, t: Tables, y: int, dx: int): int
    requires Fits(p, t) && 0 <= y < p.height && 0 <= dx < |t.xofs|
  {
    var a := t.xofs[dx];
    var v := p.Pixel(y, a.idx);
    if dx < t.xmax then v * WarpOne + a.ialpha * (p.Pixel(y, a.idx + 1) - v) else v * WarpOne
  }

  /**
   * Output byte (dy, dx): the buffered rows sy0 and sy1 blended with weight fy, scaled by 2^20,
   * rounded and cast to unsigned char; just row sy0 when sy1 is sy0.
   */
  function Interpolated(p: Plane, t: Tables, dy: int, dx: int): Byte
    requires Fits(p, t) && 0 <= dy < |t.yofs| && 0 <= dx < |t.xofs|
  {
    var sy0, sy1 := t.yofs[dy].idx, NextRow(p, t, dy);
    var b0 := Horizontal(p, t, sy0, dx);
    if sy0 == sy1 then ToByte(WarpDescale(b0 * WarpOne))
    else ToByte(WarpDescale(b0 * WarpOne + t.yofs[dy].ialpha * (Horizontal(p, t, sy1, dx) - b0)))
  }

  /** A weight f in [0, 2^10] blends a and b into a value between them, scaled by 2^10. */
  lemma Blend(a: int, b: int, f: int)
    requires 0 <= f <= WarpOne
    ensures Min(a, b) * WarpOne <= a * WarpOne + f * (b - a) <= Max(a, b) * WarpOne
  {
    if a <= b {
      MulNonNegative(f, b - a);
      MulMonotone(f, WarpOne, b - a);
    } else {
      assert f * (b - a) == -(f * (a - b));
      MulNonNegative(f, a - b);
      MulMonotone(f, WarpOne, a - b);
    }
  }

  /** A row buffer element lies between the two source pixels it blends, scaled by 2^10. */
  lemma HorizontalBetween(p: Plane, t: Tables, y: int, dx: int)
    requires Fits(p, t) && 0 <= y < p.height && 0 <= dx < |t.xofs|
    ensures var a, b := p.Pixel(y, t.xofs[dx].idx), p.Pixel(y, NextColumn(t, dx));
      Min(a, b) * WarpOne <= Horizontal(p, t, y, dx) <= Max(a, b) * WarpOne
  {
    if dx < t.xmax {
      Blend(p.Pixel(y, t.xofs[dx].idx), p.Pixel(y, t.xofs[dx].idx + 1), t.xofs[dx].ialpha);
    }
  }

  /** Rounding a value between lo·2^20 and hi·2^20 gives a value between lo and hi. */
  lemma DescaleBetween(v: int, lo: int, hi: int)
    requires 0 <= lo && lo * 1048576 <= v <= hi * 1048576
    ensures lo <= WarpDescale(v) <= hi
  {
    DivMonotone(lo * 1048576 + 524288, v + 524288, 1048576);
    DivMonotone(v + 524288, hi * 1048576 + 524288, 1048576);
    DivModOfRow(lo, 524288, 1048576);
    DivModOfRow(hi, 524288, 1048576);
  }

  /** Blending two buffered values between lo·2^10 and hi·2^10 gives a value between lo·2^20 and hi·2^20. */
  lemma Vertical(b0: int, b1: int, f: int, lo: int, hi: int)
    requires 0 <= f <= WarpOne
    requires lo * WarpOne <= b0 <= hi * WarpOne && lo * WarpOne <= b1 <= hi * WarpOne
    ensures lo * 1048576 <= b0 * WarpOne + f * (b1 - b0) <= hi * 1048576
  {
    Blend(b0, b1, f);
  }

  /**
   * Two buffered values, each between two bytes scaled by 2^10, blended with a weight in
   * [0, 2^10] and rounded, give a byte between the smallest and the largest of the four.
   */
  lemma BlendOfFour(a00: Byte, a01: Byte, a10: Byte, a11: Byte, b0: int, b1: int, f: int)
    requires 0 <= f <= WarpOne
    requires Min(a00, a01) * WarpOne <= b0 <= Max(a00, a01) * WarpOne
    requires Min(a10, a11) * WarpOne <= b1 <= Max(a10, a11) * WarpOne
    ensures var r := WarpDescale(b0 * WarpOne + f * (b1 - b0));
      Min(Min(a00, a01), Min(a10, a11)) <= r <= Max(Max(a00, a01), Max(a10, a11)) && ToByte(r) == r
  {
    var lo, hi := Min(Min(a00, a01), Min(a10, a11)), Max(Max(a00, a01), Max(a10, a11));
    Vertical(b0, b1, f, lo, hi);
    DescaleBetween(b0 * WarpOne + f * (b1 - b0), lo, hi);
  }

  /** The output byte is the rounded blend of the two buffered rows, with weight 0 when sy1 is sy0. */
  lemma InterpolatedBlend(p: Plane, t: Tables, dy: int, dx: int)
    requires Fits(p, t) && 0 <= dy < |t.yofs| && 0 <= dx < |t.xofs|
    ensures var sy0, sy1 := t.yofs[dy].idx, NextRow(p, t, dy);
      var b0, b1 := Horizontal(p, t, sy0, dx), Horizontal(p, t, sy1, dx);
      var f := if sy0 == sy1 then 0 else t.yofs[dy].ialpha;
      Interpolated(p, t, dy, dx) == ToByte(WarpDescale(b0 * WarpOne + f * (b1 - b0)))
  {
  }

  /**
   * Every output byte lies between the smallest and the largest of the four source pixels it
   * blends: rows sy0 and sy1, columns sx and the next column. The cast to unsigned char therefore
   * never wraps.
   */
  lemma InterpolatedBetween(p: Plane, t: Tables, dy: int, dx: int)
    requires Fits(p, t) && 0 <= dy < |t.yofs| && 0 <= dx < |t.xofs|
    ensures var sy0, sy1, sx0, sx1 := t.yofs[dy].idx, NextRow(p, t, dy), t.xofs[dx].idx, NextColumn(t, dx);
      var r := Interpolated(p, t, dy, dx);
      && Min(Min(p.Pixel(sy0, sx0), p.Pixel(sy0, sx1)), Min(p.Pixel(sy1, sx0), p.Pixel(sy1, sx1))) <= r
      && r <= Max(Max(p.Pixel(sy0, sx0), p.Pixel(sy0, sx1)), Max(p.Pixel(sy1, sx0), p.Pixel(sy1, sx1)))
  {
    var sy0, sy1, sx0, sx1 := t.yofs[dy].idx, NextRow(p, t, dy), t.xofs[dx].idx, NextColumn(t, dx);
    HorizontalBetween(p, t, sy0, dx);
    HorizontalBetween(p, t, sy1, dx);
    InterpolatedBlend(p, t, dy, dx);
    BlendOfFour(p.Pixel(sy0, sx0), p.Pixel(sy0, sx1), p.Pixel(sy1, sx0), p.Pixel(sy1, sx1),
      Horizontal(p, t, sy0, dx), Horizontal(p, t, sy1, dx), if sy0 == sy1 then 0 else t.yofs[dy].ialpha);
  }

  /** Where both weights are 0 the output byte is the source pixel itself. */
  lemma ExactAtSamples(p: Plane, t: Tables, dy: int, dx: int)
    requires Fits(p, t) && 0 <= dy < |t.yofs| && 0 <= dx < |t.xofs|
    requires t.yofs[dy].ialpha == 0 && t.xofs[dx].ialpha == 0
    ensures Interpolated(p, t, dy, dx) == p.Pixel(t.yofs[dy].idx, t.xofs[dx].idx)
  {
    var v := p.Pixel(t.yofs[dy].idx, t.xofs[dx].idx);
    assert Horizontal(p, t, t.yofs[dy].idx, dx) == v * WarpOne;
    DivModOfRow(v, 524288, 1048576);
  }

  /** buf holds the horizontal pass of source row y in its first |xofs| elements. */
  ghost predicate Buffered(buf: seq<int>, p: Plane, t: Tables, y: int)
    requires Fits(p, t)
  {
    0 <= y < p.height && |buf| >= |t.xofs| && forall dx | 0 <= dx < |t.xofs| :: buf[dx] == Horizontal(p, t, y, dx)
  }

  /** The two loops that fill a row buffer from source row y: interpolated before xmax, copied from there on. */
  method HorizontalPass(buf: array<int>, p: Plane, t: Tables, y: int)
    requires Fits(p, t) && 0 <= y < p.height && buf.Length >= |t.xofs|
    modifies buf
    ensures Buffered(buf[..], p, t, y)
  {
    var dx := 0;
    while dx < t.xmax
      invariant 0 <= dx <= t.xmax
      invariant forall d | 0 <= d < dx :: buf[d] == Horizontal(p, t, y, d)
    {
      var sx := t.xofs[dx].idx;
      var fx := t.xofs[dx].ialpha;
      var v := p.Pixel(y, sx);
      buf[dx] := v * WarpOne + fx * (p.Pixel(y, sx + 1) - v);
      dx := dx + 1;
    }
    while dx < |t.xofs|
      invariant t.xmax <= dx <= |t.xofs|
      invariant forall d | 0 <= d < dx :: buf[d] == Horizontal(p, t, y, d)
    {
      buf[dx] := p.Pixel(y, t.xofs[dx].idx) * WarpOne;
      dx := dx + 1;
    }
  }

  /** The loops that write output row dy from the buffers of rows sy0 and sy1, starting at dst[start]. */
  method OutputRow(dst: array<Byte>, start: int, buf0: array<int>, buf1: array<int>, p: Plane, t: Tables, dy: int)
    requires Fits(p, t) && 0 <= dy < |t.yofs|
    requires Buffered(buf0[..], p, t, t.yofs[dy].idx) && Buffered(buf1[..], p, t, NextRow(p, t, dy))
    requires 0 <= start && start + |t.xofs| <= dst.Length
    modifies dst
    ensures forall dx | 0 <= dx < |t.xofs| :: dst[start + dx] == Interpolated(p, t, dy, dx)
    ensures forall j | 0 <= j < dst.Length && !(start <= j < start + |t.xofs|) :: dst[j] == old(dst[j])
  {
    var sy0, sy1, fy := t.yofs[dy].idx, NextRow(p, t, dy), t.yofs[dy].ialpha;
    var dx := 0;
    if sy0 == sy1 {
      while dx < |t.xofs|
        invariant 0 <= dx <= |t.xofs|
        invariant forall d | 0 <= d < dx :: dst[start + d] == Interpolated(p, t, dy, d)
        invariant forall j | 0 <= j < dst.Length && !(start <= j < start + dx) :: dst[j] == old(dst[j])
      {
        dst[start + dx] := ToByte(WarpDescale(buf0[dx] * WarpOne));
        dx := dx + 1;
      }
    } else {
      while dx < |t.xofs|
        invariant 0 <= dx <= |t.xofs|
        invariant forall d | 0 <= d < dx :: dst[start + d] == Interpolated(p, t, dy, d)
        invariant forall j | 0 <= j < dst.Length && !(start <= j < start + dx) :: dst[j] == old(dst[j])
      {
        dst[start + dx] := ToByte(WarpDescale(buf0[dx] * WarpOne + fy * (buf1[dx] - buf0[dx])));
        dx := dx + 1;
      }
    }
  }

  /** Rows before k of the destination plane at base hold their interpolated bytes. */
  ghost predicate RowsDone(out: seq<Byte>, base: int, p: Plane, t: Tables, k: int)
    requires Fits(p, t)
  {
    forall dy, dx | 0 <= dy < k && dy < |t.yofs| && 0 <= dx < |t.xofs| ::
      0 <= base + dy * |t.xofs| + dx < |out| && out[base + dy * |t.xofs| + dx] == Interpolated(p, t, dy, dx)
  }

  /** Writing row dy after rows before it keeps those and completes row dy. */
  lemma RowDone(before: seq<Byte>, after: seq<Byte>, base: int, p: Plane, t: Tables, dy: int)
    requires Fits(p, t) && 0 <= dy < |t.yofs| && 0 <= base && |after| == |before|
    requires base + (dy + 1) * |t.xofs| <= |before|
    requires RowsDone(before, base, p, t, dy)
    requires forall dx | 0 <= dx < |t.xofs| :: after[base + dy * |t.xofs| + dx] == Interpolated(p, t, dy, dx)
    requires forall j | 0 <= j < |after| && !(base + dy * |t.xofs| <= j < base + dy * |t.xofs| + |t.xofs|) :: after[j] == before[j]
    ensures RowsDone(after, base, p, t, dy + 1)
  {
    forall dy', dx | 0 <= dy' < dy + 1 && 0 <= dx < |t.xofs|
      ensures 0 <= base + dy' * |t.xofs| + dx < |after| && after[base + dy' * |t.xofs| + dx] == Interpolated(p, t, dy', dx)
    {
      RowElementDone(before, after, base, p, t, dy, dy', dx);
    }
  }

  /** One element of RowDone: a row before dy is kept, row dy holds what was written. */
  lemma RowElementDone(before: seq<Byte>, after: seq<Byte>, base: int, p: Plane, t: Tables, dy: int, dy': int, dx: int)
    requires Fits(p, t) && 0 <= dy < |t.yofs| && 0 <= base && |after| == |before|
    requires base + (dy + 1) * |t.xofs| <= |before|
    requires RowsDone(before, base, p, t, dy)
    requires forall dx | 0 <= dx < |t.xofs| :: after[base + dy * |t.xofs| + dx] == Interpolated(p, t, dy, dx)
    requires forall j | 0 <= j < |after| && !(base + dy * |t.xofs| <= j < base + dy * |t.xofs| + |t.xofs|) :: after[j] == before[j]
    requires 0 <= dy' <= dy && 0 <= dx < |t.xofs|
    ensures 0 <= base + dy' * |t.xofs| + dx < |after| && after[base + dy' * |t.xofs| + dx] == Interpolated(p, t, dy', dx)
  {
    var dw := |t.xofs|;
    assert (dy + 1) * dw == dy * dw + dw;
    if dy' < dy {
      RowsApart(dy', dx, dy, dw);
    }
  }

  /** The destination outside the rows written so far still holds orig. */
  ghost predicate KeptOutside(out: seq<Byte>, orig: seq<Byte>, base: int, written: int)
  {
    |out| == |orig| && forall j | 0 <= j < |out| && !(base <= j < base + written) :: out[j] == orig[j]
  }

  /** Output row dy written after the rows before it, at base + dy·dw. */
  method NextOutputRow(dst: array<Byte>, base: int, b0: array<int>, b1: array<int>, p: Plane, t: Tables, dy: int, ghost orig: seq<Byte>)
    requires Fits(p, t) && 0 <= dy < |t.yofs| && 0 <= base && base + |t.yofs| * |t.xofs| <= dst.Length
    requires Buffered(b0[..], p, t, t.yofs[dy].idx) && Buffered(b1[..], p, t, NextRow(p, t, dy))
    requires RowsDone(dst[..], base, p, t, dy) && KeptOutside(dst[..], orig, base, dy * |t.xofs|)
    modifies dst
    ensures RowsDone(dst[..], base, p, t, dy + 1) && KeptOutside(dst[..], orig, base, (dy + 1) * |t.xofs|)
  {
    var dw := |t.xofs|;
    MulMonotone(dy + 1, |t.yofs|, dw);
    assert (dy + 1) * dw == dy * dw + dw;
    var start := base + dy * dw;
    ghost var before := dst[..];
    OutputRow(dst, start, b0, b1, p, t, dy);
    RowDone(before, dst[..], base, p, t, dy);
    assert forall j | 0 <= j < dst.Length && !(start <= j < start + dw) :: dst[j] == before[j];
    assert KeptOutside(dst[..], orig, base, start + dw - base);
  }

  /**
   * The loop over k of icvResize_Bilinear_8u_C1: from k on, buffer 0 receives row sy0 and buffer 1
   * row sy1, the latter copied from buffer 0 when sy1 is sy0. Buffers before k already hold theirs.
   */
  method FillBuffers(b0: array<int>, b1: array<int>, p: Plane, t: Tables, sy0: int, sy1: int, k0: int)
    requires Fits(p, t) && b0 != b1 && b0.Length >= |t.xofs| && b1.Length >= |t.xofs|
    requires 0 <= sy0 < p.height && 0 <= sy1 < p.height && 0 <= k0 <= 2
    requires k0 >= 1 ==> Buffered(b0[..], p, t, sy0)
    requires k0 >= 2 ==> Buffered(b1[..], p, t, sy1)
    modifies b0, b1
    ensures Buffered(b0[..], p, t, sy0) && Buffered(b1[..], p, t, sy1)
  {
    var k := k0;
    while k < 2
      invariant k0 <= k <= 2
      invariant k >= 1 ==> Buffered(b0[..], p, t, sy0)
      invariant k >= 2 ==> Buffered(b1[..], p, t, sy1)
    {
      if k == 1 && sy1 == sy0 {
        CopyElements(b1, 0, b0[..], 0, |t.xofs|);
      } else {
        HorizontalPass(if k == 0 then b0 else b1, p, t, if k == 0 then sy0 else sy1);
      }
      k := k + 1;
    }
  }

  /**
   * icvResize_Bilinear_8u_C1 on one plane: every output row dy receives the interpolated bytes.
   * A row pair equal to the previous one is not recomputed; when sy0 is the previous sy1 the buffers
   * are swapped and only sy1 is computed; when sy1 is sy0 the buffer of sy0 is copied.
   */
  method Bilinear(dst: array<Byte>, base: int, p: Plane, t: Tables, buf0: array<int>, buf1: array<int>)
    requires Fits(p, t) && buf0 != buf1 && buf0.Length >= |t.xofs| && buf1.Length >= |t.xofs|
    requires 0 <= base && base + |t.yofs| * |t.xofs| <= dst.Length
    modifies dst, buf0, buf1
    ensures RowsDone(dst[..], base, p, t, |t.yofs|)
    ensures KeptOutside(dst[..], old(dst[..]), base, |t.yofs| * |t.xofs|)
  {
    var b0, b1 := buf0, buf1;
    var prev0, prev1 := -1, -1;
    var dy := 0;
    while dy < |t.yofs|
      invariant 0 <= dy <= |t.yofs|
      invariant (b0 == buf0 && b1 == buf1) || (b0 == buf1 && b1 == buf0)
      invariant dy == 0 ==> prev0 == -1 && prev1 == -1
      invariant dy > 0 ==> Buffered(b0[..], p, t, prev0) && Buffered(b1[..], p, t, prev1)
      invariant RowsDone(dst[..], base, p, t, dy)
      invariant KeptOutside(dst[..], old(dst[..]), base, dy * |t.xofs|)
    {
      var fy := t.yofs[dy].ialpha;
      var sy0 := t.yofs[dy].idx;
      var sy1 := sy0 + (if fy > 0 && sy0 < p.height - 1 then 1 else 0);
      var k;
      if sy0 == prev0 && sy1 == prev1 {
        k := 2;
      } else if sy0 == prev1 {
        b0, b1 := b1, b0;
        k := 1;
      } else {
        k := 0;
      }
      FillBuffers(b0, b1, p, t, sy0, sy1, k);
      prev0, prev1 := sy0, sy1;
      NextOutputRow(dst, base, b0, b1, p, t, dy, old(dst[..]));
      dy := dy + 1;
    }
  }

  /** Plane (n, c) of an NCHW buffer starts at (n·C + c)·H·W and fits inside the buffer. */
  lemma PlaneInside(d: Dims, n: int, c: int)
    requires 0 <= n < d.n && 0 <= c < d.c
    ensures 0 <= (n * d.c + c) * (d.h * d.w) && (n * d.c + c) * (d.h * d.w) + d.h * d.w <= d.Size()
  {
    MixedRadix(n, c, d.n, d.c);
    MulMonotone(n * d.c + c + 1, d.n * d.c, d.h * d.w);
    assert (n * d.c + c + 1) * (d.h * d.w) == (n * d.c + c) * (d.h * d.w) + d.h * d.w;
    assert d.Size() == d.n * d.c * (d.h * d.w);
  }

  /** Element (n, c, y, x) of an NCHW buffer is element y·W + x of plane (n, c). */
  lemma PlaneOffset(d: Dims, n: int, c: int, y: int, x: int)
    requires InRange(d, n, c, y, x)
    ensures 0 <= y * d.w + x < d.h * d.w
    ensures Offset(NCHW, d, n, c, y, x) == (n * d.c + c) * (d.h * d.w) + (y * d.w + x)
  {
    MixedRadix(y, x, d.h, d.w);
    assert ((n * d.c + c) * d.h + y) * d.w == (n * d.c + c) * (d.h * d.w) + y * d.w;
  }

  /** Plane (n, c) of an NCHW buffer of the given extents: channel c of image n. */
  function PlaneAt(data: seq<Byte>, d: Dims, n: int, c: int): (p: Plane)
    requires |data| == d.Size() && 0 <= n < d.n && 0 <= c < d.c
    ensures p.Valid() && p.height == d.h && p.width == d.w
  {
    PlaneInside(d, n, c);
    var base := (n * d.c + c) * (d.h * d.w);
    Plane(data[base..base + d.h * d.w], d.h, d.w)
  }

  /** Pixel (y, x) of plane (n, c) is the element (n, c, y, x) of the buffer. */
  lemma PlanePixel(data: seq<Byte>, d: Dims, n: int, c: int, y: int, x: int)
    requires |data| == d.Size() && InRange(d, n, c, y, x)
    ensures PlaneAt(data, d, n, c).Pixel(y, x) == Element(data, NCHW, d, n, c, y, x)
  {
    PlaneInside(d, n, c);
    PlaneOffset(d, n, c, y, x);
  }

  /** The source and destination extents and the tables agree: same images and channels, tables of the destination size. */
  predicate Prepared(sd: Dims, dd: Dims, t: Tables)
  {
    && dd.n == sd.n && dd.c == sd.c && dd.h == |t.yofs| && dd.w == |t.xofs|
    && (sd.n > 0 && sd.c > 0 ==> TablesFit(t, sd.h, sd.w))
  }

  /** Planes whose key n·C + c is below k hold their resized bytes. */
  ghost predicate PlanesDone(out: seq<Byte>, src: seq<Byte>, sd: Dims, dd: Dims, t: Tables, k: int)
    requires |src| == sd.Size() && |out| == dd.Size() && Prepared(sd, dd, t)
  {
    forall n, c, y, x | InRange(dd, n, c, y, x) && n * dd.c + c < k ::
      Element(out, NCHW, dd, n, c, y, x) == Interpolated(PlaneAt(src, sd, n, c), t, y, x)
  }

  /** The kernel's rows for plane (n, c) complete the planes before key n·C + c + 1. */
  lemma PlaneDone(before: seq<Byte>, after: seq<Byte>, src: seq<Byte>, sd: Dims, dd: Dims, t: Tables, n: int, c: int)
    requires |src| == sd.Size() && |before| == dd.Size() && Prepared(sd, dd, t)
    requires 0 <= n < dd.n && 0 <= c < dd.c
    requires PlanesDone(before, src, sd, dd, t, n * dd.c + c)
    requires RowsDone(after, (n * dd.c + c) * (dd.h * dd.w), PlaneAt(src, sd, n, c), t, dd.h)
    requires KeptOutside(after, before, (n * dd.c + c) * (dd.h * dd.w), dd.h * dd.w)
    ensures PlanesDone(after, src, sd, dd, t, n * dd.c + c + 1)
  {
    forall n', c', y, x | InRange(dd, n', c', y, x) && n' * dd.c + c' < n * dd.c + c + 1
      ensures Element(after, NCHW, dd, n', c', y, x) == Interpolated(PlaneAt(src, sd, n', c'), t, y, x)
    {
      PlaneElementDone(before, after, src, sd, dd, t, n, c, n', c', y, x);
    }
  }

  /** One element of PlaneDone: an earlier plane is kept, plane (n, c) holds the kernel's bytes. */
  lemma PlaneElementDone(before: seq<Byte>, after: seq<Byte>, src: seq<Byte>, sd: Dims, dd: Dims, t: Tables,
                         n: int, c: int, n': int, c': int, y: int, x: int)
    requires |src| == sd.Size() && |before| == dd.Size() && Prepared(sd, dd, t)
    requires 0 <= n < dd.n && 0 <= c < dd.c
    requires PlanesDone(before, src, sd, dd, t, n * dd.c + c)
    requires RowsDone(after, (n * dd.c + c) * (dd.h * dd.w), PlaneAt(src, sd, n, c), t, dd.h)
    requires KeptOutside(after, before, (n * dd.c + c) * (dd.h * dd.w), dd.h * dd.w)
    requires InRange(dd, n', c', y, x) && n' * dd.c + c' < n * dd.c + c + 1
    ensures Element(after, NCHW, dd, n', c', y, x) == Interpolated(PlaneAt(src, sd, n', c'), t, y, x)
  {
    var k, hw := n * dd.c + c, dd.h * dd.w;
    PlaneInside(dd, n, c);
    PlaneOffset(dd, n', c', y, x);
    MulNonNegative(n', dd.c);
    var k', j := n' * dd.c + c', y * dd.w + x;
    MulNonNegative(k', hw);
    if k' < k {
      RowsApart(k', j, k, hw);
      assert after[k' * hw + j] == before[k' * hw + j];
    } else {
      MixedRadixInjective(n', c', n, c, dd.c);
      assert after[k * hw + j] == Interpolated(PlaneAt(src, sd, n, c), t, y, x);
    }
  }

  /** The loops over images and channels of resize_cpu: one kernel call per plane. */
  method ResizePlanes(out: array<Byte>, src: seq<Byte>, sd: Dims, dd: Dims, t: Tables, buf0: array<int>, buf1: array<int>)
    requires |src| == sd.Size() && out.Length == dd.Size() && Prepared(sd, dd, t)
    requires buf0 != buf1 && buf0.Length >= dd.w && buf1.Length >= dd.w
    modifies out, buf0, buf1
    ensures forall n, c, y, x | InRange(dd, n, c, y, x) ::
      Element(out[..], NCHW, dd, n, c, y, x) == Interpolated(PlaneAt(src, sd, n, c), t, y, x)
  {
    var n := 0;
    while n < sd.n
      invariant 0 <= n <= sd.n
      invariant PlanesDone(out[..], src, sd, dd, t, n * dd.c)
    {
      var ch := 0;
      while ch < sd.c
        invariant 0 <= ch <= sd.c
        invariant PlanesDone(out[..], src, sd, dd, t, n * dd.c + ch)
      {
        ResizePlane(out, src, sd, dd, t, n, ch, buf0, buf1);
        ch := ch + 1;
      }
      assert (n + 1) * dd.c == n * dd.c + dd.c;
      n := n + 1;
    }
    AllPlanes(out[..], src, sd, dd, t);
  }

  /** One kernel call: plane (n, ch) written at n·(C·dh·dw) + ch·(dh·dw), after the planes before it. */
  method ResizePlane(out: array<Byte>, src: seq<Byte>, sd: Dims, dd: Dims, t: Tables, n: int, ch: int, buf0: array<int>, buf1: array<int>)
    requires |src| == sd.Size() && out.Length == dd.Size() && Prepared(sd, dd, t)
    requires buf0 != buf1 && buf0.Length >= dd.w && buf1.Length >= dd.w
    requires 0 <= n < sd.n && 0 <= ch < sd.c
    requires PlanesDone(out[..], src, sd, dd, t, n * dd.c + ch)
    modifies out, buf0, buf1
    ensures PlanesDone(out[..], src, sd, dd, t, n * dd.c + ch + 1)
  {
    var dstNumOffset, dstOffset := dd.c * dd.h * dd.w, dd.h * dd.w;
    PlaneInside(dd, n, ch);
    var base := n * dstNumOffset + ch * dstOffset;
    PlaneStart(dd.c, dd.h, dd.w, n, ch);
    ghost var before := out[..];
    Bilinear(out, base, PlaneAt(src, sd, n, ch), t, buf0, buf1);
    PlaneDone(before, out[..], src, sd, dd, t, n, ch);
  }

  /** n·(C·H·W) + c·(H·W) = (n·C + c)·(H·W): the kernel's plane offset is the start of plane n·C + c. */
  lemma PlaneStart(C: int, H: int, W: int, n: int, c: int)
    ensures n * (C * H * W) + c * (H * W) == (n * C + c) * (H * W)
  {
    assert C * H * W == C * (H * W);
    assert n * (C * (H * W)) == (n * C) * (H * W);
  }

  /** Every plane has a key below N·C. */
  lemma AllPlanes(out: seq<Byte>, src: seq<Byte>, sd: Dims, dd: Dims, t: Tables)
    requires |src| == sd.Size() && |out| == dd.Size() && Prepared(sd, dd, t)
    requires PlanesDone(out, src, sd, dd, t, sd.n * dd.c)
    ensures forall n, c, y, x | InRange(dd, n, c, y, x) ::
      Element(out, NCHW, dd, n, c, y, x) == Interpolated(PlaneAt(src, sd, n, c), t, y, x)
  {
    forall n, c, y, x | InRange(dd, n, c, y, x)
      ensures n * dd.c + c < sd.n * dd.c
    {
      MixedRadix(n, c, dd.n, dd.c);
    }
  }

  /** Every plane to resize has at least one row and one column to read from. */
  predicate Readable(d: Dims)
  {
    d.n > 0 && d.c > 0 ==> d.h > 0 && d.w > 0
  }

  /** result is src resized to dh × dw: an NCHW tensor of src's images and channels whose every plane is the bilinear resize of src's. */
  ghost predicate Resized(result: Tensor<Byte>, src: Tensor<Byte>, dh: int, dw: int)
    reads result, result.data, src, src.data
    requires src.Dense() && Readable(src.Extents()) && dh > 0 && dw > 0
  {
    var sd := src.Extents();
    src.DenseSize();
    && result.Dense() && result.Extents() == Dims(sd.n, sd.c, dh, dw)
    && result.order == NCHW && result.device == src.device && result.allocator == None
    && forall n, c, y, x | InRange(result.Extents(), n, c, y, x) ::
         result.At(n, c, y, x) == Interpolated(PlaneAt(src.data[..], sd, n, c), Sampling(sd.h, sd.w, dh, dw), y, x)
  }

  /**
   * The size guard of resize_cpu as written: dst_height · dst_width <= 0 rejects the size. Two
   * negative sizes have a positive product and pass it.
   */
  predicate SizeRejectedAsWritten(dh: int, dw: int)
  {
    dh * dw <= 0
  }

  /** Two negative sizes pass the size guard as written. */
  lemma NegativeSizesPass()
    ensures !SizeRejectedAsWritten(-1, -1)
  {
  }

  /** The size guard, corrected: a size is rejected unless both its height and its width are positive. */
  predicate SizeRejected(dh: int, dw: int)
  {
    dh <= 0 || dw <= 0
  }

  /** The two guards agree on every size except two negative ones. */
  lemma SizeGuardsAgree(dh: int, dw: int)
    requires dh >= 0 || dw >= 0
    ensures SizeRejected(dh, dw) <==> SizeRejectedAsWritten(dh, dw)
  {
    if dh > 0 && dw > 0 {
      MulNonNegative(dh - 1, dw);
    } else if dh <= 0 && dw >= 0 {
      MulNonNegative(-dh, dw);
    } else if dh >= 0 && dw <= 0 {
      MulNonNegative(dh, -dw);
    }
  }

  /**
   * resize_cpu on a byte tensor, with the corrected size guard: a size that is not positive in both
   * directions leaves dst as it was, the source's own size gives a copy of src, and any other size
   * gives the fixed-point bilinear resize of an NCHW tensor. Resizing an NHWC tensor to a new size
   * takes the single-precision floating-point path, which is not part of this model, and resampling
   * reads every plane from row 0 and column 0; callers are therefore held to an NCHW tensor whose
   * planes have at least one row and one column.
   */
  method Resize(src: Tensor<Byte>, dst: Tensor<Byte>, dstHeight: int, dstWidth: int) returns (result: Tensor<Byte>)
    requires src.Dense()
    requires SizeRejected(dstHeight, dstWidth) || (dstHeight == src.Extents().h && dstWidth == src.Extents().w)
      || (src.order == NCHW && Readable(src.Extents()))
    ensures SizeRejected(dstHeight, dstWidth) ==> result == dst
    ensures !SizeRejected(dstHeight, dstWidth) && dstHeight == src.Extents().h && dstWidth == src.Extents().w ==>
      fresh(result) && result.Dense() && result.shape == src.shape && result.order == src.order
      && result.device == src.device && result.allocator == src.allocator
      && forall n, c, y, x | InRange(src.Extents(), n, c, y, x) :: result.At(n, c, y, x) == src.At(n, c, y, x)
    ensures !SizeRejected(dstHeight, dstWidth) && !(dstHeight == src.Extents().h && dstWidth == src.Extents().w) ==>
      src.order == NCHW && Readable(src.Extents()) && fresh(result) && Resized(result, src, dstHeight, dstWidth)
  {
    if SizeRejected(dstHeight, dstWidth) {
      result := dst;
      return;
    }
    var height := src.Height();
    var width := src.Width();
    if dstWidth == width && dstHeight == height {
      result := src.Clone();
      CloneIsEqual(src, result);
      return;
    }
    result := Resampled(src, dstHeight, dstWidth);
  }

  /** The uint8 NCHW path of resize_cpu: the tables, one kernel call per plane into a new tensor, then its clone. */
  method Resampled(src: Tensor<Byte>, dstHeight: int, dstWidth: int) returns (result: Tensor<Byte>)
    requires src.Dense() && Readable(src.Extents()) && dstHeight > 0 && dstWidth > 0
    ensures fresh(result) && Resized(result, src, dstHeight, dstWidth)
  {
    var sd := src.Extents();
    var dd := Dims(sd.n, sd.c, dstHeight, dstWidth);
    var temp := new Tensor<Byte>(dd, src.device, NCHW, None);
    var t := SamplingTables(sd.h, sd.w, dstHeight, dstWidth);
    var buf0 := new int[dstWidth];
    var buf1 := new int[dstWidth];
    src.DenseSize();
    temp.DenseSize();
    ResizePlanes(temp.data, src.data[..], sd, dd, t, buf0, buf1);
    result := temp.Clone();
    CloneIsEqual(temp, result);
  }

  /** The scales and the two table loops of resize_cpu, for a source of height × width pixels. */
  method SamplingTables(height: nat, width: nat, dstHeight: int, dstWidth: int) returns (t: Tables)
    requires dstHeight > 0 && dstWidth > 0
    ensures t == Sampling(height, width, dstHeight, dstWidth)
  {
    var scaleX := (width * CoordinateOne + dstWidth / 2) / dstWidth;
    var scaleY := (height * CoordinateOne + dstHeight / 2) / dstHeight;
    var xofs := new Alpha[dstWidth];
    var yofs := new Alpha[dstHeight];
    var xmax := ColumnTable(xofs, scaleX, width, dstWidth);
    RowTable(yofs, scaleY, height, dstHeight);
    assert xofs[..] == Columns(width, dstWidth);
    assert yofs[..] == Rows(height, dstHeight);
    t := Tables(xofs[..], xmax, yofs[..]);
  }
}
