/**
 * operation_cut_border (CPU): removes top, bottom, left and right pixels from every image and
 * channel of a tensor by copying each kept row with one memcpy.
 */
module CutBorders {
  import opened Wrappers
  import opened Tensors

  /** The extents of the cut: same images and channels, and a window inside the source. */
  predicate Window(sd: Dims, dd: Dims, top: int, left: int)
  {
    dd.n == sd.n && dd.c == sd.c && top >= 0 && left >= 0 && dd.h + top <= sd.h && dd.w + left <= sd.w
  }

  /** Every element of the output in a row before k holds the source element top rows down and left columns right. */
  ghost predicate CutBefore<D>(output: seq<D>, input: seq<D>, order: Order, sd: Dims, dd: Dims, top: int, left: int, k: int)
    requires |output| == dd.Size() && |input| == sd.Size() && Window(sd, dd, top, left)
  {
    forall n, c, h, w | InRange(dd, n, c, h, w) && RowKey(order, dd, n, c, h) < k ::
      Element(output, order, dd, n, c, h, w) == Element(input, order, sd, n, c, h + top, w + left)
  }

  /**
   * The start of the memcpy of cut_border_cpu for row `row` of channel ch of image n, on the source
   * side and the output side, is where element (n, ch, row + top, left) and the row of (n, ch, row)
   * begin; in NHWC order ch is 0.
   */
  lemma CopyStarts(order: Order, sd: Dims, dd: Dims, top: int, left: int, n: int, ch: int, row: int)
    ensures order == NCHW ==>
      n * (sd.c * sd.h * sd.w) + ch * (sd.h * sd.w) + (row + top) * sd.w + left == Offset(NCHW, sd, n, ch, row + top, left)
      && n * (dd.c * dd.h * dd.w) + ch * (dd.h * dd.w) + row * dd.w == RowKey(NCHW, dd, n, ch, row) * RowLength(NCHW, dd)
    ensures order == NHWC ==>
      n * (sd.c * sd.h * sd.w) + ((row + top) * sd.w + left) * sd.c == Offset(NHWC, sd, n, 0, row + top, left)
      && n * (dd.c * dd.h * dd.w) + row * dd.w * dd.c == RowKey(NHWC, dd, n, 0, row) * RowLength(NHWC, dd)
  {
    if order == NCHW {
      PlanarStart(sd.c, sd.h, sd.w, n, ch, row + top);
      PlanarStart(dd.c, dd.h, dd.w, n, ch, row);
    } else {
      InterleavedStart(sd.c, sd.h, sd.w, n, row + top, left);
      InterleavedStart(dd.c, dd.h, dd.w, n, row, 0);
      assert (n * dd.h + row) * dd.w * dd.c == (n * dd.h + row) * (dd.w * dd.c);
    }
  }

  /** The element at position RowPos(c, w) after the start of a source row is (n, c, h, left + w). */
  lemma SourceInRow(order: Order, sd: Dims, n: int, c: int, h: int, left: int, w: int)
    ensures Offset(order, sd, n, if order == NCHW then c else 0, h, left) + RowPos(order, sd, c, w) == Offset(order, sd, n, c, h, w + left)
  {
    if order == NHWC {
      assert ((n * sd.h + h) * sd.w + left) * sd.c + (w * sd.c + c) == ((n * sd.h + h) * sd.w + w + left) * sd.c + c;
    }
  }

  /** The first source element a kept row copies: (n, ch, row + top, left), with ch 0 in NHWC order. */
  function SourceStart(order: Order, sd: Dims, top: int, left: int, n: int, ch: int, row: int): int
  {
    Offset(order, sd, n, if order == NCHW then ch else 0, row + top, left)
  }

  /** A kept row lies inside the output, and the part of the source row it copies inside the source. */
  lemma CutRowBounds(order: Order, sd: Dims, dd: Dims, top: int, left: int, n: int, ch: int, row: int)
    requires Window(sd, dd, top, left)
    requires 0 <= n < dd.n && 0 <= row < dd.h && (if order == NCHW then 0 <= ch < dd.c else ch == 0) && dd.w > 0
    ensures var k := RowKey(order, dd, n, ch, row); var length := RowLength(order, dd);
      0 <= k * length && k * length + length <= dd.Size()
      && 0 <= SourceStart(order, sd, top, left, n, ch, row)
      && SourceStart(order, sd, top, left, n, ch, row) + length <= sd.Size()
  {
    if dd.c > 0 {
      OutputRowBounds(order, dd, n, ch, row);
      SourceRowBounds(order, sd, dd, top, left, n, ch, row);
    } else {
      assert RowLength(order, dd) == 0 && dd.Size() == 0 && sd.Size() == 0;
      assert SourceStart(order, sd, top, left, n, ch, row) == 0;
    }
  }

  lemma SourceRowBounds(order: Order, sd: Dims, dd: Dims, top: int, left: int, n: int, ch: int, row: int)
    requires Window(sd, dd, top, left) && dd.c > 0
    requires 0 <= n < dd.n && 0 <= row < dd.h && (if order == NCHW then 0 <= ch < dd.c else ch == 0) && dd.w > 0
    ensures 0 <= SourceStart(order, sd, top, left, n, ch, row)
    ensures SourceStart(order, sd, top, left, n, ch, row) + RowLength(order, dd) <= sd.Size()
  {
    var c := if order == NCHW then ch else dd.c - 1;
    OffsetInRange(order, sd, n, if order == NCHW then ch else 0, row + top, left);
    OffsetInRange(order, sd, n, c, row + top, left + dd.w - 1);
    SourceInRow(order, sd, n, c, row + top, left, dd.w - 1);
    if order == NHWC {
      assert RowPos(order, sd, c, dd.w - 1) == RowLength(order, dd) - 1;
    }
  }

  /**
   * after is before with the kept row `row` of channel ch of image n (all channels in NHWC order,
   * where ch is 0) replaced by RowLength elements of the source from SourceStart on.
   */
  ghost predicate RowCopied<D>(after: seq<D>, before: seq<D>, input: seq<D>, order: Order, sd: Dims, dd: Dims, top: int, left: int, n: int, ch: int, row: int)
    requires |before| == dd.Size() && |input| == sd.Size() && Window(sd, dd, top, left)
    requires 0 <= n < dd.n && 0 <= row < dd.h && (if order == NCHW then 0 <= ch < dd.c else ch == 0) && dd.w > 0
  {
    CutRowBounds(order, sd, dd, top, left, n, ch, row);
    var start := RowKey(order, dd, n, ch, row) * RowLength(order, dd);
    |after| == |before|
    && forall j | 0 <= j < |after| ::
      after[j] == if start <= j < start + RowLength(order, dd) then input[SourceStart(order, sd, top, left, n, ch, row) + (j - start)] else before[j]
  }

  /**
   * One memcpy of cut_border_cpu: row `row` of channel ch of image n of the output (all channels
   * in NHWC order, where ch is 0) gets RowLength elements of the source from SourceStart on.
   */
  method CutRow<D>(output: array<D>, input: seq<D>, order: Order, sd: Dims, dd: Dims, top: int, left: int, n: int, ch: int, row: int)
    requires output.Length == dd.Size() && |input| == sd.Size() && Window(sd, dd, top, left)
    requires 0 <= n < dd.n && 0 <= row < dd.h && (if order == NCHW then 0 <= ch < dd.c else ch == 0) && dd.w > 0
    modifies output
    ensures RowCopied(output[..], old(output[..]), input, order, sd, dd, top, left, n, ch, row)
  {
    CutRowBounds(order, sd, dd, top, left, n, ch, row);
    CopyStarts(order, sd, dd, top, left, n, ch, row);
    if order == NCHW {
      CopyElements(output, n * (dd.c * dd.h * dd.w) + ch * (dd.h * dd.w) + row * dd.w,
        input, n * (sd.c * sd.h * sd.w) + ch * (sd.h * sd.w) + (row + top) * sd.w + left, dd.w);
    } else {
      CopyElements(output, n * (dd.c * dd.h * dd.w) + row * dd.w * dd.c,
        input, n * (sd.c * sd.h * sd.w) + ((row + top) * sd.w + left) * sd.c, dd.w * dd.c);
    }
  }

  /** After the memcpy of row k, every row up to and including k holds its part of the source. */
  lemma CutRowStep<D>(before: seq<D>, after: seq<D>, input: seq<D>, order: Order, sd: Dims, dd: Dims, top: int, left: int, n: int, ch: int, row: int)
    requires |before| == dd.Size() && |after| == dd.Size() && |input| == sd.Size() && Window(sd, dd, top, left)
    requires 0 <= n < dd.n && 0 <= row < dd.h && (if order == NCHW then 0 <= ch < dd.c else ch == 0) && dd.w > 0
    requires CutBefore(before, input, order, sd, dd, top, left, RowKey(order, dd, n, ch, row))
    requires RowCopied(after, before, input, order, sd, dd, top, left, n, ch, row)
    ensures CutBefore(after, input, order, sd, dd, top, left, RowKey(order, dd, n, ch, row) + 1)
  {
    var k := RowKey(order, dd, n, ch, row);
    var length := RowLength(order, dd);
    CutRowBounds(order, sd, dd, top, left, n, ch, row);
    forall n', c', h', w' | InRange(dd, n', c', h', w') && RowKey(order, dd, n', c', h') < k + 1
      ensures Element(after, order, dd, n', c', h', w') == Element(input, order, sd, n', c', h' + top, w' + left)
    {
      RowLayout(order, dd, n', c', h', w');
      if RowKey(order, dd, n', c', h') < k {
        RowsApart(RowKey(order, dd, n', c', h'), RowPos(order, dd, c', w'), k, length);
      } else {
        RowKeyInjective(order, dd, n, ch, row, n', c', h');
        SourceInRow(order, sd, n, c', row + top, left, w');
        assert RowPos(order, dd, c', w') == RowPos(order, sd, c', w');
      }
    }
  }

  /** An output filled row by row holds, at every index, the source element top rows down and left columns right. */
  lemma CutAll<D(0)>(t: Tensor<D>, src: Tensor<D>, top: int, left: int)
    requires t.Dense() && src.Dense() && t.order == src.order && Window(src.Extents(), t.Extents(), top, left)
    requires t.data.Length == t.Extents().Size() && src.data.Length == src.Extents().Size()
    requires CutBefore(t.data[..], src.data[..], t.order, src.Extents(), t.Extents(), top, left, RowCount(t.order, t.Extents()))
    ensures forall n, c, h, w | InRange(t.Extents(), n, c, h, w) :: t.At(n, c, h, w) == src.At(n, c, h + top, w + left)
  {
    forall n, c, h, w | InRange(t.Extents(), n, c, h, w)
      ensures t.At(n, c, h, w) == src.At(n, c, h + top, w + left)
    {
      RowLayout(t.order, t.Extents(), n, c, h, w);
    }
  }

  /**
   * cut_border_cpu: the tensor dst holds afterwards. Margins that leave the size unchanged
   * (top + bottom and left + right both 0) give a clone of src; a cut leaving no row or no column
   * logs an error and leaves dst as it was;
   * otherwise dst becomes a new tensor of N images of C channels and (H − top − bottom) ×
   * (W − left − right) pixels, in src's order and on its device, whose element (n, c, h, w) is src's
   * element (n, c, h + top, w + left). The allocator is src's in NCHW order and none in NHWC order.
   * The CPU path does not check the margins: a negative margin that changes the size reads pixels
   * outside the image, so margins are required to be non-negative unless they cancel out.
   */
  method CutBorder<D(0)>(src: Tensor<D>, dst: Tensor<D>, top: int, bottom: int, left: int, right: int) returns (result: Tensor<D>)
    requires src.Dense()
    requires (top >= 0 && bottom >= 0 && left >= 0 && right >= 0) || (top + bottom == 0 && left + right == 0)
    ensures top + bottom == 0 && left + right == 0 ==>
      fresh(result) && result.Dense() && result.shape == src.shape && result.order == src.order
      && result.device == src.device && result.allocator == src.allocator
      && forall n, c, h, w | InRange(src.Extents(), n, c, h, w) :: result.At(n, c, h, w) == src.At(n, c, h, w)
    ensures var sd := src.Extents();
      !(top + bottom == 0 && left + right == 0) && (sd.h - top - bottom <= 0 || sd.w - left - right <= 0) ==>
      result == dst
    ensures var sd := src.Extents();
      !(top + bottom == 0 && left + right == 0) && sd.h - top - bottom > 0 && sd.w - left - right > 0 ==>
      fresh(result) && result.Dense() && result.Extents() == Dims(sd.n, sd.c, sd.h - top - bottom, sd.w - left - right)
      && result.order == src.order && result.device == src.device
      && result.allocator == (if src.order == NCHW then src.allocator else None)
      && forall n, c, h, w | InRange(result.Extents(), n, c, h, w) :: result.At(n, c, h, w) == src.At(n, c, h + top, w + left)
  {
    var num := src.Num();
    var channels := src.Channels();
    var height := src.Height();
    var width := src.Width();
    var dstHeight := height - top - bottom;
    var dstWidth := width - left - right;
    if dstHeight == height && dstWidth == width {
      result := src.Clone();
      CloneIsEqual(src, result);
      return;
    }
    if dstHeight <= 0 || dstWidth <= 0 {
      result := dst;
      return;
    }
    var sd := src.Extents();
    var dd := Dims(num, channels, dstHeight, dstWidth);
    var order := src.order;
    var temp := new Tensor(dd, src.device, order, if order == NCHW then src.allocator else None);
    var output := temp.data;
    src.DenseSize();
    temp.DenseSize();
    var input := src.data[..];
    CutRows(output, input, order, sd, dd, top, left);
    CutAll(temp, src, top, left);
    result := temp.Clone();
    CloneIsEqual(temp, result);
  }

  /** The kept rows of every image: rows are copied in the order of the source's loops. */
  method CutRows<D>(output: array<D>, input: seq<D>, order: Order, sd: Dims, dd: Dims, top: int, left: int)
    requires output.Length == dd.Size() && |input| == sd.Size() && Window(sd, dd, top, left) && dd.w > 0
    modifies output
    ensures CutBefore(output[..], input, order, sd, dd, top, left, RowCount(order, dd))
  {
    if order == NCHW {
      CutRowsPlanar(output, input, sd, dd, top, left);
    } else {
      CutRowsInterleaved(output, input, sd, dd, top, left);
    }
  }

  /** The n loop of cut_border_cpu in NCHW order. */
  method CutRowsPlanar<D>(output: array<D>, input: seq<D>, sd: Dims, dd: Dims, top: int, left: int)
    requires output.Length == dd.Size() && |input| == sd.Size() && Window(sd, dd, top, left) && dd.w > 0
    modifies output
    ensures CutBefore(output[..], input, NCHW, sd, dd, top, left, RowCount(NCHW, dd))
  {
    var n := 0;
    while n < dd.n
      invariant 0 <= n <= dd.n
      invariant CutBefore(output[..], input, NCHW, sd, dd, top, left, n * dd.c * dd.h)
    {
      CutImagePlanar(output, input, sd, dd, top, left, n);
      n := n + 1;
    }
  }

  /** The channel and row loops of cut_border_cpu in NCHW order, for image n. */
  method CutImagePlanar<D>(output: array<D>, input: seq<D>, sd: Dims, dd: Dims, top: int, left: int, n: int)
    requires output.Length == dd.Size() && |input| == sd.Size() && Window(sd, dd, top, left) && dd.w > 0 && 0 <= n < dd.n
    requires CutBefore(output[..], input, NCHW, sd, dd, top, left, n * dd.c * dd.h)
    modifies output
    ensures CutBefore(output[..], input, NCHW, sd, dd, top, left, (n + 1) * dd.c * dd.h)
  {
    var channels := dd.c;
    var dstHeight := dd.h;
    var ch := 0;
    while ch < channels
      invariant 0 <= ch <= channels
      invariant CutBefore(output[..], input, NCHW, sd, dd, top, left, (n * channels + ch) * dstHeight)
    {
      var row := 0;
      while row < dstHeight
        invariant 0 <= row <= dstHeight
        invariant CutBefore(output[..], input, NCHW, sd, dd, top, left, (n * channels + ch) * dstHeight + row)
      {
        ghost var before := output[..];
        CutRow(output, input, NCHW, sd, dd, top, left, n, ch, row);
        CutRowStep(before, output[..], input, NCHW, sd, dd, top, left, n, ch, row);
        row := row + 1;
      }
      assert (n * channels + ch) * dstHeight + dstHeight == (n * channels + ch + 1) * dstHeight;
      ch := ch + 1;
    }
    assert (n * channels + channels) * dstHeight == (n + 1) * channels * dstHeight;
  }

  /** The n and row loops of cut_border_cpu in NHWC order. */
  method CutRowsInterleaved<D>(output: array<D>, input: seq<D>, sd: Dims, dd: Dims, top: int, left: int)
    requires output.Length == dd.Size() && |input| == sd.Size() && Window(sd, dd, top, left) && dd.w > 0
    modifies output
    ensures CutBefore(output[..], input, NHWC, sd, dd, top, left, RowCount(NHWC, dd))
  {
    var order := NHWC;
    var num := dd.n;
    var dstHeight := dd.h;
    var n := 0;
    while n < num
      invariant 0 <= n <= num
      invariant CutBefore(output[..], input, order, sd, dd, top, left, n * dstHeight)
    {
      var row := 0;
      while row < dstHeight
        invariant 0 <= row <= dstHeight
        invariant CutBefore(output[..], input, order, sd, dd, top, left, n * dstHeight + row)
      {
        ghost var before := output[..];
        CutRow(output, input, order, sd, dd, top, left, n, 0, row);
        CutRowStep(before, output[..], input, order, sd, dd, top, left, n, 0, row);
        row := row + 1;
      }
      assert n * dstHeight + dstHeight == (n + 1) * dstHeight;
      n := n + 1;
    }
  }
}
