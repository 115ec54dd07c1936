/**
 * operation_make_border: adds top, bottom, left and right pixels around every image and channel
 * of a tensor, filled with a constant or with the nearest source pixel (replication). Each output
 * row is written by the loops of its kind (border row or centre row) in the order of the source.
 */
module MakeBorders {
  import opened Wrappers
  import opened Tensors

  /** border_type; BorderUnsupported stands for any other value, which the operation rejects. */
  datatype BorderType = BorderConstant | BorderReplicate | BorderUnsupported

  /** x limited to [lo, hi]. */
  function Clamp(x: int, lo: int, hi: int): (r: int)
    requires lo <= hi
    ensures lo <= r <= hi
    ensures lo <= x <= hi ==> r == x
  {
    if x < lo then lo else if x > hi then hi else x
  }

  /** The extents of the bordered tensor hold the source shifted by (top, left). */
  predicate Frame(sd: Dims, dd: Dims, top: int, left: int)
  {
    dd.n == sd.n && dd.c == sd.c && top >= 0 && left >= 0 && top + sd.h <= dd.h && left + sd.w <= dd.w
  }

  /** Replication needs a source pixel to copy whenever there is an image to border. */
  predicate Replicable(kind: BorderType, sd: Dims)
  {
    kind == BorderReplicate && sd.n > 0 ==> sd.h > 0 && sd.w > 0
  }

  /**
   * Element (n, c, h, w) of the bordered tensor: with a constant border, the source element
   * (h − top, w − left) inside the source and the fill value elsewhere; with a replicated border,
   * the source element at the nearest row and column, clamp(h − top, 0, H − 1) and
   * clamp(w − left, 0, W − 1).
   */
  ghost function BorderElement<D>(input: seq<D>, order: Order, sd: Dims, kind: BorderType, fill: D, top: int, left: int, n: int, c: int, h: int, w: int): D
    requires |input| == sd.Size() && 0 <= n < sd.n && 0 <= c < sd.c
    requires kind != BorderUnsupported && Replicable(kind, sd)
  {
    if kind == BorderConstant then
      if top <= h < top + sd.h && left <= w < left + sd.w then Element(input, order, sd, n, c, h - top, w - left) else fill
    else
      Element(input, order, sd, n, c, Clamp(h - top, 0, sd.h - 1), Clamp(w - left, 0, sd.w - 1))
  }

  /** The preconditions every row of the output shares. */
  ghost predicate Bordering<D>(outputSize: int, input: seq<D>, sd: Dims, dd: Dims, kind: BorderType, top: int, left: int)
  {
    outputSize == dd.Size() && |input| == sd.Size() && Frame(sd, dd, top, left) && kind != BorderUnsupported && Replicable(kind, sd)
  }

  /** Every element of the output in a row before k holds its bordered value. */
  ghost predicate BorderedBefore<D>(output: seq<D>, input: seq<D>, order: Order, sd: Dims, dd: Dims, kind: BorderType, fill: D, top: int, left: int, k: int)
    requires Bordering(|output|, input, sd, dd, kind, top, left)
  {
    forall n, c, h, w | InRange(dd, n, c, h, w) && RowKey(order, dd, n, c, h) < k ::
      Element(output, order, dd, n, c, h, w) == BorderElement(input, order, sd, kind, fill, top, left, n, c, h, w)
  }

  /** A row of the output: row `row` of channel ch of image n in NCHW order, of image n (ch = 0) in NHWC order. */
  predicate IsRow(order: Order, dd: Dims, n: int, ch: int, row: int)
  {
    0 <= n < dd.n && 0 <= row < dd.h && (if order == NCHW then 0 <= ch < dd.c else ch == 0)
  }

  /**
   * after is before with one row replaced: every element of that row holds its bordered value and
   * every element outside the row is unchanged.
   */
  ghost predicate RowBordered<D>(after: seq<D>, before: seq<D>, input: seq<D>, order: Order, sd: Dims, dd: Dims, kind: BorderType, fill: D, top: int, left: int, n: int, ch: int, row: int)
    requires Bordering(|before|, input, sd, dd, kind, top, left) && IsRow(order, dd, n, ch, row)
  {
    var start := RowStart(order, dd, n, ch, row);
    && |after| == |before|
    && (forall j | 0 <= j < |after| && !(start <= j < start + RowLength(order, dd)) :: after[j] == before[j])
    && forall c, w | InRange(dd, n, c, row, w) && (order == NCHW ==> c == ch) ::
      Element(after, order, dd, n, c, row, w) == BorderElement(input, order, sd, kind, fill, top, left, n, c, row, w)
  }

  /** No row comes before row 0. */
  lemma BorderedNone<D>(output: seq<D>, input: seq<D>, order: Order, sd: Dims, dd: Dims, kind: BorderType, fill: D, top: int, left: int)
    requires Bordering(|output|, input, sd, dd, kind, top, left)
    ensures BorderedBefore(output, input, order, sd, dd, kind, fill, top, left, 0)
  {
    forall n, c, h, w | InRange(dd, n, c, h, w)
      ensures RowKey(order, dd, n, c, h) >= 0
    {
      RowKeyBound(order, dd, n, c, h);
    }
  }

  /** Writing row k after rows 0 .. k − 1 leaves rows 0 .. k written. */
  lemma RowStep<D>(before: seq<D>, after: seq<D>, input: seq<D>, order: Order, sd: Dims, dd: Dims, kind: BorderType, fill: D, top: int, left: int, n: int, ch: int, row: int)
    requires Bordering(|before|, input, sd, dd, kind, top, left) && IsRow(order, dd, n, ch, row)
    requires BorderedBefore(before, input, order, sd, dd, kind, fill, top, left, RowKey(order, dd, n, ch, row))
    requires RowBordered(after, before, input, order, sd, dd, kind, fill, top, left, n, ch, row)
    ensures BorderedBefore(after, input, order, sd, dd, kind, fill, top, left, RowKey(order, dd, n, ch, row) + 1)
  {
    var k := RowKey(order, dd, n, ch, row);
    forall n', c', h', w' | InRange(dd, n', c', h', w') && RowKey(order, dd, n', c', h') < k + 1
      ensures Element(after, order, dd, n', c', h', w') == BorderElement(input, order, sd, kind, fill, top, left, n', c', h', w')
    {
      if RowKey(order, dd, n', c', h') < k {
        EarlierRowKept(before, after, input, order, sd, dd, kind, fill, top, left, n, ch, row, n', c', h', w');
      } else {
        RowKeyInjective(order, dd, n, ch, row, n', c', h');
      }
    }
  }

  /** An element of an earlier row lies before row k, so writing row k leaves it as it was. */
  lemma EarlierRowKept<D>(before: seq<D>, after: seq<D>, input: seq<D>, order: Order, sd: Dims, dd: Dims, kind: BorderType, fill: D, top: int, left: int, n: int, ch: int, row: int, n': int, c': int, h': int, w': int)
    requires Bordering(|before|, input, sd, dd, kind, top, left) && IsRow(order, dd, n, ch, row)
    requires RowBordered(after, before, input, order, sd, dd, kind, fill, top, left, n, ch, row)
    requires InRange(dd, n', c', h', w') && RowKey(order, dd, n', c', h') < RowKey(order, dd, n, ch, row)
    ensures Element(after, order, dd, n', c', h', w') == Element(before, order, dd, n', c', h', w')
  {
    RowInside(order, dd, n, ch, row);
    RowLayout(order, dd, n', c', h', w');
    RowsApart(RowKey(order, dd, n', c', h'), RowPos(order, dd, c', w'), RowKey(order, dd, n, ch, row), RowLength(order, dd));
  }

  /** for (col = from; col < to; col++) output[base + col] = value; */
  method FillRun<D>(output: array<D>, base: int, from: int, to: int, value: D)
    requires 0 <= from <= to && 0 <= base && base + to <= output.Length
    modifies output
    ensures forall j | 0 <= j < output.Length :: output[j] == if base + from <= j < base + to then value else old(output[j])
  {
    var col := from;
    while col < to
      invariant from <= col <= to
      invariant forall j | 0 <= j < output.Length :: output[j] == if base + from <= j < base + col then value else old(output[j])
    {
      output[base + col] := value;
      col := col + 1;
    }
  }

  /** for (col = from; col < to; col++) for (ch = 0; ch < channels; ch++) output[base + col·channels + ch] = value; */
  method FillPixels<D>(output: array<D>, base: int, from: int, to: int, channels: int, value: D)
    requires 0 <= from <= to && channels >= 0 && 0 <= base && base + to * channels <= output.Length
    modifies output
    ensures forall j | 0 <= j < output.Length ::
      output[j] == if base + from * channels <= j < base + to * channels then value else old(output[j])
  {
    var col := from;
    while col < to
      invariant from <= col <= to
      invariant forall j | 0 <= j < output.Length ::
        output[j] == if base + from * channels <= j < base + col * channels then value else old(output[j])
    {
      MulMonotone(col + 1, to, channels);
      MulMonotone(from, col, channels);
      var ch := 0;
      while ch < channels
        invariant 0 <= ch <= channels
        invariant forall j | 0 <= j < output.Length ::
          output[j] == if base + from * channels <= j < base + col * channels + ch then value else old(output[j])
      {
        output[base + col * channels + ch] := value;
        ch := ch + 1;
      }
      assert col * channels + channels == (col + 1) * channels;
      col := col + 1;
    }
  }

  /** for (col = from; col < to; col++) for (ch = 0; ch < channels; ch++) output[base + col·channels + ch] = input[source + ch]; */
  method RepeatPixel<D>(output: array<D>, base: int, from: int, to: int, channels: int, input: seq<D>, source: int)
    requires 0 <= from <= to && channels >= 0 && 0 <= base && base + to * channels <= output.Length
    requires 0 <= source && source + channels <= |input|
    modifies output
    ensures forall j | 0 <= j < output.Length ::
      output[j] == if base + from * channels <= j < base + to * channels then input[source + (j - base) % channels] else old(output[j])
  {
    var col := from;
    while col < to
      invariant from <= col <= to
      invariant forall j | 0 <= j < output.Length ::
        output[j] == if base + from * channels <= j < base + col * channels then input[source + (j - base) % channels] else old(output[j])
    {
      MulMonotone(col + 1, to, channels);
      MulMonotone(from, col, channels);
      var ch := 0;
      while ch < channels
        invariant 0 <= ch <= channels
        invariant forall j | 0 <= j < output.Length ::
          output[j] == if base + from * channels <= j < base + col * channels + ch then input[source + (j - base) % channels] else old(output[j])
      {
        DivModOfRow(col, ch, channels);
        output[base + col * channels + ch] := input[source + ch];
        ch := ch + 1;
      }
      assert col * channels + channels == (col + 1) * channels;
      col := col + 1;
    }
  }

  /** A top or bottom row of the constant border in NCHW order: the fill value in every column. */
  method ConstantEdgeRowPlanar<D>(output: array<D>, input: seq<D>, sd: Dims, dd: Dims, fill: D, top: int, left: int, n: int, ch: int, row: int)
    requires Bordering(output.Length, input, sd, dd, BorderConstant, top, left) && IsRow(NCHW, dd, n, ch, row)
    requires row < top || row >= top + sd.h
    modifies output
    ensures RowBordered(output[..], old(output[..]), input, NCHW, sd, dd, BorderConstant, fill, top, left, n, ch, row)
  {
    RowInside(NCHW, dd, n, ch, row);
    FillRun(output, RowStart(NCHW, dd, n, ch, row), 0, dd.w, fill);
    forall c, w | InRange(dd, n, c, row, w) && c == ch
      ensures Element(output[..], NCHW, dd, n, c, row, w) == fill
    {
      ElementInRow(NCHW, dd, n, c, row, w);
    }
  }

  /**
   * A centre row of the constant border in NCHW order: the fill value in the left columns, a memcpy
   * of source row row − top, the fill value in the right columns.
   */
  method ConstantCenterRowPlanar<D>(output: array<D>, input: seq<D>, sd: Dims, dd: Dims, fill: D, top: int, left: int, n: int, ch: int, row: int)
    requires Bordering(output.Length, input, sd, dd, BorderConstant, top, left) && IsRow(NCHW, dd, n, ch, row)
    requires top <= row < top + sd.h
    modifies output
    ensures RowBordered(output[..], old(output[..]), input, NCHW, sd, dd, BorderConstant, fill, top, left, n, ch, row)
  {
    var start := RowStart(NCHW, dd, n, ch, row);
    var source := RowStart(NCHW, sd, n, ch, row - top);
    RowInside(NCHW, dd, n, ch, row);
    RowInside(NCHW, sd, n, ch, row - top);
    FillRun(output, start, 0, left, fill);
    CopyElements(output, start + left, input, source, sd.w);
    FillRun(output, start, left + sd.w, dd.w, fill);
    forall c, w | InRange(dd, n, c, row, w) && c == ch
      ensures Element(output[..], NCHW, dd, n, c, row, w) == BorderElement(input, NCHW, sd, BorderConstant, fill, top, left, n, c, row, w)
    {
      ElementInRow(NCHW, dd, n, c, row, w);
      if left <= w < left + sd.w {
        ElementInRow(NCHW, sd, n, c, row - top, w - left);
      }
    }
  }

  /**
   * A row of the replicated border in NCHW order, copied from source row sourceRow (0 above the
   * image, row − top beside it, H − 1 below it): the row's first element in the left columns, a
   * memcpy of the row, its last element in the right columns.
   */
  method ReplicateRowPlanar<D>(output: array<D>, input: seq<D>, sd: Dims, dd: Dims, fill: D, top: int, left: int, n: int, ch: int, row: int, sourceRow: int)
    requires Bordering(output.Length, input, sd, dd, BorderReplicate, top, left) && IsRow(NCHW, dd, n, ch, row)
    requires sourceRow == Clamp(row - top, 0, sd.h - 1)
    modifies output
    ensures RowBordered(output[..], old(output[..]), input, NCHW, sd, dd, BorderReplicate, fill, top, left, n, ch, row)
  {
    var start := RowStart(NCHW, dd, n, ch, row);
    var source := RowStart(NCHW, sd, n, ch, sourceRow);
    RowInside(NCHW, dd, n, ch, row);
    RowInside(NCHW, sd, n, ch, sourceRow);
    FillRun(output, start, 0, left, input[source]);
    CopyElements(output, start + left, input, source, sd.w);
    FillRun(output, start, left + sd.w, dd.w, input[source + sd.w - 1]);
    forall c, w | InRange(dd, n, c, row, w) && c == ch
      ensures Element(output[..], NCHW, dd, n, c, row, w) == BorderElement(input, NCHW, sd, BorderReplicate, fill, top, left, n, c, row, w)
    {
      ElementInRow(NCHW, dd, n, c, row, w);
      ElementInRow(NCHW, sd, n, c, sourceRow, Clamp(w - left, 0, sd.w - 1));
    }
  }

  /** Channel c of pixel w lies at or past pixel a exactly when w >= a, and sits (w − a)·C + c past it. */
  lemma PixelSegment(w: int, c: int, a: int, C: int)
    requires 0 <= w && 0 <= a && 0 <= c < C
    ensures a * C <= w * C + c <==> a <= w
    ensures w * C + c - a * C == (w - a) * C + c
    ensures (w * C + c) % C == c
  {
    assert w * C - a * C == (w - a) * C;
    if a <= w {
      MulMonotone(a, w, C);
    } else {
      assert (w + 1) * C == w * C + C;
      MulMonotone(w + 1, a, C);
    }
    DivModOfRow(w, c, C);
  }

  /** The three column runs of a bordered NHWC row, in elements: [0, left·C), [left·C, (left + W)·C), [(left + W)·C, dw·C). */
  lemma PixelRuns(left: int, W: int, dw: int, C: int)
    requires 0 <= left && 0 <= W && left + W <= dw && C >= 0
    ensures 0 <= left * C <= (left + W) * C <= dw * C
    ensures (left + W) * C == left * C + W * C
    ensures W > 0 ==> 0 <= (W - 1) * C && (W - 1) * C + C == W * C
  {
    MulNonNegative(left, C);
    MulMonotone(left, left + W, C);
    MulMonotone(left + W, dw, C);
    if W > 0 {
      MulNonNegative(W - 1, C);
    }
  }

  /** A top or bottom row of the constant border in NHWC order: the fill value in every channel of every column. */
  method ConstantEdgeRowInterleaved<D>(output: array<D>, input: seq<D>, sd: Dims, dd: Dims, fill: D, top: int, left: int, n: int, row: int)
    requires Bordering(output.Length, input, sd, dd, BorderConstant, top, left) && IsRow(NHWC, dd, n, 0, row)
    requires row < top || row >= top + sd.h
    modifies output
    ensures RowBordered(output[..], old(output[..]), input, NHWC, sd, dd, BorderConstant, fill, top, left, n, 0, row)
  {
    RowInside(NHWC, dd, n, 0, row);
    FillPixels(output, RowStart(NHWC, dd, n, 0, row), 0, dd.w, dd.c, fill);
    forall c, w | InRange(dd, n, c, row, w)
      ensures Element(output[..], NHWC, dd, n, c, row, w) == fill
    {
      ElementInRow(NHWC, dd, n, c, row, w);
      PixelSegment(w, c, 0, dd.c);
      PixelSegment(w, c, dd.w, dd.c);
    }
  }

  /**
   * Channel c of pixel w of the row at start in out holds channel c of pixel w − left of the W-pixel
   * row at source in input when left <= w < left + W, and fill otherwise.
   */
  ghost predicate PixelFramed<D>(out: seq<D>, start: int, input: seq<D>, source: int, C: int, left: int, W: int, fill: D, w: int, c: int)
  {
    0 <= start + w * C + c < |out| &&
    if left <= w < left + W then
      0 <= source + (w - left) * C + c < |input| && out[start + w * C + c] == input[source + (w - left) * C + c]
    else
      out[start + w * C + c] == fill
  }

  /**
   * The three runs of a centre row of the constant NHWC border: the fill value over every channel of
   * the left columns, a memcpy of the W·C elements of the source row, the fill value over the right
   * columns. Nothing outside the row changes.
   */
  method FramePixels<D>(output: array<D>, start: int, input: seq<D>, source: int, left: int, W: int, dw: int, C: int, fill: D)
    requires 0 <= left && 0 <= W && left + W <= dw && C >= 0
    requires 0 <= start && start + dw * C <= output.Length && 0 <= source && source + W * C <= |input|
    modifies output
    ensures forall j | 0 <= j < output.Length && !(start <= j < start + dw * C) :: output[j] == old(output[j])
    ensures forall w, c | 0 <= w < dw && 0 <= c < C :: PixelFramed(output[..], start, input, source, C, left, W, fill, w, c)
  {
    PixelRuns(left, W, dw, C);
    FillPixels(output, start, 0, left, C, fill);
    CopyElements(output, start + left * C, input, source, W * C);
    FillPixels(output, start, left + W, dw, C, fill);
    forall w, c | 0 <= w < dw && 0 <= c < C
      ensures PixelFramed(output[..], start, input, source, C, left, W, fill, w, c)
    {
      PixelSegment(w, c, left, C);
      PixelSegment(w, c, left + W, C);
      PixelSegment(w, c, dw, C);
      MulNonNegative(w, C);
      if left <= w < left + W {
        PixelSegment(w - left, c, W, C);
        MulNonNegative(w - left, C);
      }
    }
  }

  /**
   * A centre row of the constant border in NHWC order: the fill value in every channel of the left
   * columns, a memcpy of the W·C elements of source row row − top, the fill value in the right columns.
   */
  method ConstantCenterRowInterleaved<D>(output: array<D>, input: seq<D>, sd: Dims, dd: Dims, fill: D, top: int, left: int, n: int, row: int)
    requires Bordering(output.Length, input, sd, dd, BorderConstant, top, left) && IsRow(NHWC, dd, n, 0, row)
    requires top <= row < top + sd.h
    modifies output
    ensures RowBordered(output[..], old(output[..]), input, NHWC, sd, dd, BorderConstant, fill, top, left, n, 0, row)
  {
    var start := RowStart(NHWC, dd, n, 0, row);
    var source := RowStart(NHWC, sd, n, 0, row - top);
    RowInside(NHWC, dd, n, 0, row);
    RowInside(NHWC, sd, n, 0, row - top);
    FramePixels(output, start, input, source, left, sd.w, dd.w, dd.c, fill);
    forall c, w | InRange(dd, n, c, row, w)
      ensures Element(output[..], NHWC, dd, n, c, row, w) == BorderElement(input, NHWC, sd, BorderConstant, fill, top, left, n, c, row, w)
    {
      ElementInRow(NHWC, dd, n, c, row, w);
      assert PixelFramed(output[..], start, input, source, dd.c, left, sd.w, fill, w, c);
      if left <= w < left + sd.w {
        ElementInRow(NHWC, sd, n, c, row - top, w - left);
      }
    }
  }

  /**
   * Channel c of pixel w of the row at start in out equals channel c of the source pixel nearest to
   * column w − left in the W-pixel row at source in input.
   */
  ghost predicate PixelReplicated<D>(out: seq<D>, start: int, input: seq<D>, source: int, C: int, left: int, W: int, w: int, c: int)
  {
    W > 0 &&
    var w' := Clamp(w - left, 0, W - 1);
    0 <= start + w * C + c < |out| && 0 <= source + w' * C + c < |input| && out[start + w * C + c] == input[source + w' * C + c]
  }

  /**
   * The three runs of a replicated NHWC row: the first pixel's channels repeated over the left
   * columns, a memcpy of the W·C elements of the row, the last pixel's channels repeated over the
   * right columns. Column w then holds source column clamp(w − left, 0, W − 1), and nothing outside
   * the row changes.
   */
  method ReplicatePixels<D>(output: array<D>, start: int, input: seq<D>, source: int, left: int, W: int, dw: int, C: int)
    requires 0 <= left && 0 < W && left + W <= dw && C >= 0
    requires 0 <= start && start + dw * C <= output.Length && 0 <= source && source + W * C <= |input|
    modifies output
    ensures forall j | 0 <= j < output.Length && !(start <= j < start + dw * C) :: output[j] == old(output[j])
    ensures forall w, c | 0 <= w < dw && 0 <= c < C :: PixelReplicated(output[..], start, input, source, C, left, W, w, c)
  {
    PixelRuns(left, W, dw, C);
    RepeatPixel(output, start, 0, left, C, input, source);
    CopyElements(output, start + left * C, input, source, W * C);
    RepeatPixel(output, start, left + W, dw, C, input, source + (W - 1) * C);
    forall w, c | 0 <= w < dw && 0 <= c < C
      ensures PixelReplicated(output[..], start, input, source, C, left, W, w, c)
    {
      PixelSegment(w, c, left, C);
      PixelSegment(w, c, left + W, C);
      PixelSegment(w, c, dw, C);
      MulNonNegative(w, C);
      PixelSegment(Clamp(w - left, 0, W - 1), c, W, C);
      MulNonNegative(Clamp(w - left, 0, W - 1), C);
    }
  }

  /**
   * A row of the replicated border in NHWC order, copied from source row sourceRow: the first pixel's
   * channels in the left columns, a memcpy of the row, the last pixel's channels in the right columns.
   */
  method ReplicateRowInterleaved<D>(output: array<D>, input: seq<D>, sd: Dims, dd: Dims, fill: D, top: int, left: int, n: int, row: int, sourceRow: int)
    requires Bordering(output.Length, input, sd, dd, BorderReplicate, top, left) && IsRow(NHWC, dd, n, 0, row)
    requires sourceRow == Clamp(row - top, 0, sd.h - 1)
    modifies output
    ensures RowBordered(output[..], old(output[..]), input, NHWC, sd, dd, BorderReplicate, fill, top, left, n, 0, row)
  {
    var start := RowStart(NHWC, dd, n, 0, row);
    var source := RowStart(NHWC, sd, n, 0, sourceRow);
    RowInside(NHWC, dd, n, 0, row);
    RowInside(NHWC, sd, n, 0, sourceRow);
    PixelRuns(left, sd.w, dd.w, dd.c);
    ReplicatePixels(output, start, input, source, left, sd.w, dd.w, dd.c);
    forall c, w | InRange(dd, n, c, row, w)
      ensures Element(output[..], NHWC, dd, n, c, row, w) == BorderElement(input, NHWC, sd, BorderReplicate, fill, top, left, n, c, row, w)
    {
      ElementInRow(NHWC, dd, n, c, row, w);
      ElementInRow(NHWC, sd, n, c, sourceRow, Clamp(w - left, 0, sd.w - 1));
      assert PixelReplicated(output[..], start, input, source, dd.c, left, sd.w, w, c);
    }
  }

  /**
   * One output row, written by the row code of the border kind and order; sourceRow is the source
   * row the loop that reaches this row replicates (0, row − top or H − 1).
   */
  method BorderRow<D>(output: array<D>, input: seq<D>, order: Order, sd: Dims, dd: Dims, kind: BorderType, fill: D, top: int, left: int, n: int, ch: int, row: int, sourceRow: int)
    requires Bordering(output.Length, input, sd, dd, kind, top, left) && IsRow(order, dd, n, ch, row)
    requires kind == BorderReplicate ==> sourceRow == Clamp(row - top, 0, sd.h - 1)
    requires BorderedBefore(output[..], input, order, sd, dd, kind, fill, top, left, RowKey(order, dd, n, ch, row))
    modifies output
    ensures BorderedBefore(output[..], input, order, sd, dd, kind, fill, top, left, RowKey(order, dd, n, ch, row) + 1)
  {
    ghost var before := output[..];
    if order == NCHW {
      if kind == BorderConstant {
        if top <= row < top + sd.h {
          ConstantCenterRowPlanar(output, input, sd, dd, fill, top, left, n, ch, row);
        } else {
          ConstantEdgeRowPlanar(output, input, sd, dd, fill, top, left, n, ch, row);
        }
      } else {
        ReplicateRowPlanar(output, input, sd, dd, fill, top, left, n, ch, row, sourceRow);
      }
    } else {
      if kind == BorderConstant {
        if top <= row < top + sd.h {
          ConstantCenterRowInterleaved(output, input, sd, dd, fill, top, left, n, row);
        } else {
          ConstantEdgeRowInterleaved(output, input, sd, dd, fill, top, left, n, row);
        }
      } else {
        ReplicateRowInterleaved(output, input, sd, dd, fill, top, left, n, row, sourceRow);
      }
    }
    RowStep(before, output[..], input, order, sd, dd, kind, fill, top, left, n, ch, row);
  }

  /**
   * The three row loops of make_border_cpu for one channel (NCHW) or one image (NHWC): the top rows
   * replicate source row 0, the centre rows source row row − top, the bottom rows source row H − 1.
   */
  method BorderRows<D>(output: array<D>, input: seq<D>, order: Order, sd: Dims, dd: Dims, kind: BorderType, fill: D, top: int, left: int, n: int, ch: int)
    requires Bordering(output.Length, input, sd, dd, kind, top, left)
    requires 0 <= n < dd.n && (if order == NCHW then 0 <= ch < dd.c else ch == 0)
    requires BorderedBefore(output[..], input, order, sd, dd, kind, fill, top, left, RowKey(order, dd, n, ch, 0))
    modifies output
    ensures BorderedBefore(output[..], input, order, sd, dd, kind, fill, top, left, RowKey(order, dd, n, ch, 0) + dd.h)
  {
    var start := RowKey(order, dd, n, ch, 0);
    var row := 0;
    while row < top
      invariant 0 <= row <= top
      invariant BorderedBefore(output[..], input, order, sd, dd, kind, fill, top, left, start + row)
    {
      BorderRow(output, input, order, sd, dd, kind, fill, top, left, n, ch, row, 0);
      row := row + 1;
    }
    while row < top + sd.h
      invariant top <= row <= top + sd.h
      invariant BorderedBefore(output[..], input, order, sd, dd, kind, fill, top, left, start + row)
    {
      BorderRow(output, input, order, sd, dd, kind, fill, top, left, n, ch, row, row - top);
      row := row + 1;
    }
    while row < dd.h
      invariant top + sd.h <= row <= dd.h
      invariant BorderedBefore(output[..], input, order, sd, dd, kind, fill, top, left, start + row)
    {
      BorderRow(output, input, order, sd, dd, kind, fill, top, left, n, ch, row, sd.h - 1);
      row := row + 1;
    }
  }

  /** The image loops of make_border_cpu, in the order of the source. */
  method BorderImages<D>(output: array<D>, input: seq<D>, order: Order, sd: Dims, dd: Dims, kind: BorderType, fill: D, top: int, left: int)
    requires Bordering(output.Length, input, sd, dd, kind, top, left)
    modifies output
    ensures BorderedBefore(output[..], input, order, sd, dd, kind, fill, top, left, RowCount(order, dd))
  {
    if order == NCHW {
      BorderImagesPlanar(output, input, sd, dd, kind, fill, top, left);
    } else {
      BorderImagesInterleaved(output, input, sd, dd, kind, fill, top, left);
    }
  }

  /** The n loop of make_border_cpu in NCHW order. */
  method BorderImagesPlanar<D>(output: array<D>, input: seq<D>, sd: Dims, dd: Dims, kind: BorderType, fill: D, top: int, left: int)
    requires Bordering(output.Length, input, sd, dd, kind, top, left)
    modifies output
    ensures BorderedBefore(output[..], input, NCHW, sd, dd, kind, fill, top, left, RowCount(NCHW, dd))
  {
    BorderedNone(output[..], input, NCHW, sd, dd, kind, fill, top, left);
    var n := 0;
    while n < dd.n
      invariant 0 <= n <= dd.n
      invariant BorderedBefore(output[..], input, NCHW, sd, dd, kind, fill, top, left, RowKey(NCHW, dd, n, 0, 0))
    {
      BorderChannels(output, input, sd, dd, kind, fill, top, left, n);
      n := n + 1;
    }
    PlanarRowKeys(dd, n, 0);
  }

  /** The channel loop of make_border_cpu in NCHW order, for image n. */
  method BorderChannels<D>(output: array<D>, input: seq<D>, sd: Dims, dd: Dims, kind: BorderType, fill: D, top: int, left: int, n: int)
    requires Bordering(output.Length, input, sd, dd, kind, top, left) && 0 <= n < dd.n
    requires BorderedBefore(output[..], input, NCHW, sd, dd, kind, fill, top, left, RowKey(NCHW, dd, n, 0, 0))
    modifies output
    ensures BorderedBefore(output[..], input, NCHW, sd, dd, kind, fill, top, left, RowKey(NCHW, dd, n + 1, 0, 0))
  {
    var ch := 0;
    while ch < dd.c
      invariant 0 <= ch <= dd.c
      invariant BorderedBefore(output[..], input, NCHW, sd, dd, kind, fill, top, left, RowKey(NCHW, dd, n, ch, 0))
    {
      BorderRows(output, input, NCHW, sd, dd, kind, fill, top, left, n, ch);
      PlanarRowKeys(dd, n, ch);
      ch := ch + 1;
    }
    PlanarRowKeys(dd, n, ch);
  }

  /**
   * In NCHW order the rows of channel ch + 1 follow the dd.h rows of channel ch, channel C of image
   * n is channel 0 of image n + 1, and image N starts after the last row.
   */
  lemma PlanarRowKeys(dd: Dims, n: int, ch: int)
    ensures RowKey(NCHW, dd, n, ch, 0) + dd.h == RowKey(NCHW, dd, n, ch + 1, 0)
    ensures RowKey(NCHW, dd, n, dd.c, 0) == RowKey(NCHW, dd, n + 1, 0, 0)
    ensures RowKey(NCHW, dd, dd.n, 0, 0) == RowCount(NCHW, dd)
  {
    assert (n * dd.c + ch) * dd.h + dd.h == (n * dd.c + ch + 1) * dd.h;
    assert (n * dd.c + dd.c) * dd.h == ((n + 1) * dd.c) * dd.h;
  }

  /** The n loop of make_border_cpu in NHWC order. */
  method BorderImagesInterleaved<D>(output: array<D>, input: seq<D>, sd: Dims, dd: Dims, kind: BorderType, fill: D, top: int, left: int)
    requires Bordering(output.Length, input, sd, dd, kind, top, left)
    modifies output
    ensures BorderedBefore(output[..], input, NHWC, sd, dd, kind, fill, top, left, RowCount(NHWC, dd))
  {
    var n := 0;
    BorderedNone(output[..], input, NHWC, sd, dd, kind, fill, top, left);
    while n < dd.n
      invariant 0 <= n <= dd.n
      invariant BorderedBefore(output[..], input, NHWC, sd, dd, kind, fill, top, left, n * dd.h)
    {
      BorderRows(output, input, NHWC, sd, dd, kind, fill, top, left, n, 0);
      assert n * dd.h + dd.h == (n + 1) * dd.h;
      n := n + 1;
    }
  }

  /**
   * A tensor filled row by row holds, at every index, the source element (h − top, w − left) inside
   * the source and the fill value elsewhere (constant), or the source element at the nearest row
   * and column (replicate).
   */
  lemma BorderAll<D(0)>(t: Tensor<D>, src: Tensor<D>, kind: BorderType, fill: D, top: int, left: int)
    requires t.Dense() && src.Dense() && t.order == src.order
    requires Bordering(t.data.Length, src.data[..], src.Extents(), t.Extents(), kind, top, left)
    requires BorderedBefore(t.data[..], src.data[..], t.order, src.Extents(), t.Extents(), kind, fill, top, left, RowCount(t.order, t.Extents()))
    ensures var sd := src.Extents();
      forall n, c, h, w | InRange(t.Extents(), n, c, h, w) && kind == BorderConstant ::
        t.At(n, c, h, w) == if top <= h < top + sd.h && left <= w < left + sd.w then src.At(n, c, h - top, w - left) else fill
    ensures var sd := src.Extents();
      forall n, c, h, w | InRange(t.Extents(), n, c, h, w) && kind == BorderReplicate ::
        t.At(n, c, h, w) == src.At(n, c, Clamp(h - top, 0, sd.h - 1), Clamp(w - left, 0, sd.w - 1))
  {
    forall n, c, h, w | InRange(t.Extents(), n, c, h, w)
      ensures t.At(n, c, h, w) == BorderElement(src.data[..], src.order, src.Extents(), kind, fill, top, left, n, c, h, w)
    {
      RowLayout(t.order, t.Extents(), n, c, h, w);
    }
  }

  /**
   * make_border (CPU): the tensor dst holds afterwards. A negative margin logs an error and leaves
   * dst as it was; zero margins give a clone of src; an unsupported border type logs an error and
   * leaves dst as it was. Otherwise dst becomes a new tensor of N images of C channels and
   * (H + top + bottom) × (W + left + right) pixels, in src's order and on its device, holding src
   * shifted by (top, left) and surrounded by the fill value (constant) or by the nearest source
   * pixel (replicate). The allocator is src's in NCHW order and none in NHWC order. Replication
   * reads source row 0 and column 0 without a check, so a bordering that replicates needs a
   * non-empty source; the early returns and the clone read nothing.
   */
  method MakeBorder<D(0)>(src: Tensor<D>, dst: Tensor<D>, top: int, bottom: int, left: int, right: int, kind: BorderType, fill: D)
    returns (result: Tensor<D>)
    requires src.Dense()
    requires top < 0 || bottom < 0 || left < 0 || right < 0 || top + bottom + left + right == 0
      || Replicable(kind, src.Extents())
    ensures top < 0 || bottom < 0 || left < 0 || right < 0 ==> result == dst
    ensures top == 0 && bottom == 0 && left == 0 && right == 0 ==>
      fresh(result) && result.Dense() && result.shape == src.shape && result.order == src.order
      && result.device == src.device && result.allocator == src.allocator
      && forall n, c, h, w | InRange(src.Extents(), n, c, h, w) :: result.At(n, c, h, w) == src.At(n, c, h, w)
    ensures top >= 0 && bottom >= 0 && left >= 0 && right >= 0 && top + bottom + left + right > 0 && kind == BorderUnsupported ==>
      result == dst
    ensures var sd := src.Extents();
      top >= 0 && bottom >= 0 && left >= 0 && right >= 0 && top + bottom + left + right > 0 && kind != BorderUnsupported ==>
      fresh(result) && result.Dense() && result.Extents() == Dims(sd.n, sd.c, sd.h + top + bottom, sd.w + left + right)
      && result.order == src.order && result.device == src.device
      && result.allocator == (if src.order == NCHW then src.allocator else None)
      && (forall n, c, h, w | InRange(result.Extents(), n, c, h, w) && kind == BorderConstant ::
        result.At(n, c, h, w) == if top <= h < top + sd.h && left <= w < left + sd.w then src.At(n, c, h - top, w - left) else fill)
      && (forall n, c, h, w | InRange(result.Extents(), n, c, h, w) && kind == BorderReplicate ::
        result.At(n, c, h, w) == src.At(n, c, Clamp(h - top, 0, sd.h - 1), Clamp(w - left, 0, sd.w - 1)))
  {
    var num := src.Num();
    var channels := src.Channels();
    var height := src.Height();
    var width := src.Width();
    var dstHeight := height + top + bottom;
    var dstWidth := width + left + right;
    if top < 0 || bottom < 0 || left < 0 || right < 0 {
      result := dst;
      return;
    }
    if dstHeight == height && dstWidth == width {
      result := src.Clone();
      CloneIsEqual(src, result);
      return;
    }
    if kind == BorderUnsupported {
      result := dst;
      return;
    }
    result := Bordered(src, top, bottom, left, right, kind, fill);
  }

  /** The bordering path of make_border_cpu: a new tensor written row by row, then cloned into dst. */
  method Bordered<D(0)>(src: Tensor<D>, top: int, bottom: int, left: int, right: int, kind: BorderType, fill: D)
    returns (result: Tensor<D>)
    requires src.Dense() && Replicable(kind, src.Extents()) && kind != BorderUnsupported
    requires top >= 0 && bottom >= 0 && left >= 0 && right >= 0
    ensures var sd := src.Extents();
      fresh(result) && result.Dense() && result.Extents() == Dims(sd.n, sd.c, sd.h + top + bottom, sd.w + left + right)
      && result.order == src.order && result.device == src.device
      && result.allocator == (if src.order == NCHW then src.allocator else None)
      && (forall n, c, h, w | InRange(result.Extents(), n, c, h, w) && kind == BorderConstant ::
        result.At(n, c, h, w) == if top <= h < top + sd.h && left <= w < left + sd.w then src.At(n, c, h - top, w - left) else fill)
      && (forall n, c, h, w | InRange(result.Extents(), n, c, h, w) && kind == BorderReplicate ::
        result.At(n, c, h, w) == src.At(n, c, Clamp(h - top, 0, sd.h - 1), Clamp(w - left, 0, sd.w - 1)))
  {
    var sd := src.Extents();
    var dd := Dims(sd.n, sd.c, sd.h + top + bottom, sd.w + left + right);
    var order := src.order;
    var temp := new Tensor(dd, src.device, order, if order == NCHW then src.allocator else None);
    src.DenseSize();
    temp.DenseSize();
    var input := src.data[..];
    BorderImages(temp.data, input, order, sd, dd, kind, fill, top, left);
    BorderAll(temp, src, kind, fill, top, left);
    result := temp.Clone();
    CloneIsEqual(temp, result);
  }
}
