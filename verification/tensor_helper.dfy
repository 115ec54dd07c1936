/**
 * tensor_helper: channel-count tests, building a one-image tensor from a bitmap and copying it
 * back (copy_data_core), and the per-pixel transforms behind rgba_to_rgb and rgb_or_rgba_to_gray
 * (transform_tensor_core with its pixel setter).
 */
module TensorHelpers {
  import opened Wrappers
  import Meta
  import opened Tensors

  /** has_single_channel. */
  predicate HasSingleChannel<D(0)>(t: Tensor<D>)
    reads t
    requires if t.order == NCHW then |t.shape| > 1 else |t.shape| > 3
  {
    t.Channels() == 1
  }

  /** has_triple_channel. */
  predicate HasTripleChannel<D(0)>(t: Tensor<D>)
    reads t
    requires if t.order == NCHW then |t.shape| > 1 else |t.shape| > 3
  {
    t.Channels() == 3
  }

  /** has_quadruple_channel. */
  predicate HasQuadrupleChannel<D(0)>(t: Tensor<D>)
    reads t
    requires if t.order == NCHW then |t.shape| > 1 else |t.shape| > 3
  {
    t.Channels() == 4
  }

  /** The shape create and transform_tensor_core give a one-image tensor: [1,h,w,c] or [1,c,h,w]. */
  function ImageShape(order: Order, channels: nat, height: nat, width: nat): (r: seq<int>)
    ensures |r| == 4 && r[0] == 1
    ensures order == NHWC ==> r == [1, height, width, channels]
    ensures order == NCHW ==> r == [1, channels, height, width]
  {
    Dims(1, channels, height, width).ShapeIn(order)
  }

  /**
   * pixel_setter_core: stores a value at (w, h, c) of a one-image buffer, at W·H·c + W·h + w in
   * NCHW order and C·W·h + C·w + c in NHWC order; no other element of the image changes.
   */
  method SetPixel<D>(output: array<D>, order: Order, d: Dims, w: int, h: int, c: int, pixel: D)
    requires d.n == 1 && output.Length == d.Size() && InRange(d, 0, c, h, w)
    modifies output
    ensures Element(output[..], order, d, 0, c, h, w) == pixel
    ensures forall c', h', w' | InRange(d, 0, c', h', w') && (c' != c || h' != h || w' != w) ::
      Element(output[..], order, d, 0, c', h', w') == Element(old(output[..]), order, d, 0, c', h', w')
  {
    FirstImageIndex(order, d, c, h, w);
    OffsetInRange(order, d, 0, c, h, w);
    if order == NCHW {
      output[d.w * d.h * c + d.w * h + w] := pixel;
    } else {
      output[d.c * d.w * h + d.c * w + c] := pixel;
    }
    forall c', h', w' | InRange(d, 0, c', h', w') && (c' != c || h' != h || w' != w)
      ensures Element(output[..], order, d, 0, c', h', w') == Element(old(output[..]), order, d, 0, c', h', w')
    {
      OffsetsApart(order, d, 0, c', h', w', 0, c, h, w);
      OffsetInRange(order, d, 0, c', h', w');
    }
  }

  /** Every element of the first image with h' < h, or h' == h and w' < w, holds gen(w', h', c'). */
  ghost predicate FilledOrdinary<D>(output: seq<D>, order: Order, d: Dims, gen: (int, int, int) --> D, h: int, w: int)
    requires |output| == d.Size()
    requires forall c', h', w' | InRange(d, 0, c', h', w') :: gen.requires(w', h', c')
  {
    forall c', h', w' | InRange(d, 0, c', h', w') && (h' < h || (h' == h && w' < w)) ::
      Element(output, order, d, 0, c', h', w') == gen(w', h', c')
  }

  /**
   * transform_tensor_core in ordinary mode: a new one-image tensor with the source's order, device,
   * height and width and the requested channel count, whose element (c, h, w) is gen(w, h, c).
   */
  method TransformOrdinary<D(0)>(source: Tensor<D>, channels: nat, gen: (int, int, int) --> D) returns (destination: Tensor<D>)
    requires source.Dense()
    requires forall c, h, w | InRange(Dims(1, channels, source.Extents().h, source.Extents().w), 0, c, h, w) :: gen.requires(w, h, c)
    ensures fresh(destination) && fresh(destination.data) && destination.Dense()
    ensures destination.Extents() == Dims(1, channels, source.Extents().h, source.Extents().w)
    ensures destination.order == source.order && destination.device == source.device
    ensures forall c, h, w | InRange(destination.Extents(), 0, c, h, w) :: destination.At(0, c, h, w) == gen(w, h, c)
  {
    var order := source.order;
    var width := source.Width();
    var height := source.Height();
    var d := Dims(1, channels, height, width);
    destination := new Tensor(d, source.device, order, None);
    var output := destination.data;
    var h := 0;
    while h < height
      invariant 0 <= h <= height
      invariant FilledOrdinary(output[..], order, d, gen, h, 0)
      modifies output
    {
      var w := 0;
      while w < width
        invariant 0 <= w <= width
        invariant FilledOrdinary(output[..], order, d, gen, h, w)
        modifies output
      {
        FillPixelOrdinary(output, order, d, gen, h, w);
        w := w + 1;
      }
      h := h + 1;
    }
    FilledAll(destination, gen);
  }

  /** The channel loop of transform_tensor_core in ordinary mode: gen(w, h, c) for every channel c of pixel (h, w). */
  method FillPixelOrdinary<D>(output: array<D>, order: Order, d: Dims, gen: (int, int, int) --> D, h: int, w: int)
    requires d.n == 1 && output.Length == d.Size() && 0 <= h < d.h && 0 <= w < d.w
    requires forall c', h', w' | InRange(d, 0, c', h', w') :: gen.requires(w', h', c')
    requires FilledOrdinary(output[..], order, d, gen, h, w)
    modifies output
    ensures FilledOrdinary(output[..], order, d, gen, h, w + 1)
  {
    var c := 0;
    while c < d.c
      invariant 0 <= c <= d.c
      invariant FilledOrdinary(output[..], order, d, gen, h, w)
      invariant forall c' | 0 <= c' < c :: Element(output[..], order, d, 0, c', h, w) == gen(w, h, c')
    {
      var pixel := gen(w, h, c);
      SetPixel(output, order, d, w, h, c, pixel);
      c := c + 1;
    }
  }

  /** The channel loop of transform_tensor_core in merging mode: gen(w, h), computed once, in every channel of pixel (h, w). */
  method FillPixelMerging<D>(output: array<D>, order: Order, d: Dims, gen: (int, int) --> D, h: int, w: int)
    requires d.n == 1 && output.Length == d.Size() && 0 <= h < d.h && 0 <= w < d.w
    requires forall h', w' | 0 <= h' < d.h && 0 <= w' < d.w :: gen.requires(w', h')
    requires FilledMerging(output[..], order, d, gen, h, w)
    modifies output
    ensures FilledMerging(output[..], order, d, gen, h, w + 1)
  {
    var pixel := gen(w, h);
    var c := 0;
    while c < d.c
      invariant 0 <= c <= d.c
      invariant FilledMerging(output[..], order, d, gen, h, w)
      invariant forall c' | 0 <= c' < c :: Element(output[..], order, d, 0, c', h, w) == pixel
    {
      SetPixel(output, order, d, w, h, c, pixel);
      c := c + 1;
    }
  }

  /** A destination filled for every row holds gen at every index. */
  lemma FilledAll<D(0)>(t: Tensor<D>, gen: (int, int, int) --> D)
    requires t.Dense() && t.Extents().n == 1
    requires forall c', h', w' | InRange(t.Extents(), 0, c', h', w') :: gen.requires(w', h', c')
    requires FilledOrdinary(t.data[..], t.order, t.Extents(), gen, t.Extents().h, 0)
    ensures forall c, h, w | InRange(t.Extents(), 0, c, h, w) :: t.At(0, c, h, w) == gen(w, h, c)
  {
    t.DenseSize();
  }

  /** Every element of the first image with h' < h, or h' == h and w' < w, holds gen(w', h'). */
  ghost predicate FilledMerging<D>(output: seq<D>, order: Order, d: Dims, gen: (int, int) --> D, h: int, w: int)
    requires |output| == d.Size()
    requires forall h', w' | 0 <= h' < d.h && 0 <= w' < d.w :: gen.requires(w', h')
  {
    forall c', h', w' | InRange(d, 0, c', h', w') && (h' < h || (h' == h && w' < w)) ::
      Element(output, order, d, 0, c', h', w') == gen(w', h')
  }

  /**
   * transform_tensor_core in merging mode: as in ordinary mode, but gen(w, h) is computed once per
   * pixel and written to every channel of it.
   */
  method TransformMerging<D(0)>(source: Tensor<D>, channels: nat, gen: (int, int) --> D) returns (destination: Tensor<D>)
    requires source.Dense()
    requires forall h, w | 0 <= h < source.Extents().h && 0 <= w < source.Extents().w :: gen.requires(w, h)
    ensures fresh(destination) && fresh(destination.data) && destination.Dense()
    ensures destination.Extents() == Dims(1, channels, source.Extents().h, source.Extents().w)
    ensures destination.order == source.order && destination.device == source.device
    ensures forall c, h, w | InRange(destination.Extents(), 0, c, h, w) :: destination.At(0, c, h, w) == gen(w, h)
  {
    var order := source.order;
    var width := source.Width();
    var height := source.Height();
    var d := Dims(1, channels, height, width);
    destination := new Tensor(d, source.device, order, None);
    var output := destination.data;
    var h := 0;
    while h < height
      invariant 0 <= h <= height
      invariant FilledMerging(output[..], order, d, gen, h, 0)
      modifies output
    {
      var w := 0;
      while w < width
        invariant 0 <= w <= width
        invariant FilledMerging(output[..], order, d, gen, h, w)
        modifies output
      {
        FillPixelMerging(output, order, d, gen, h, w);
        w := w + 1;
      }
      h := h + 1;
    }
    destination.DenseSize();
  }

  /**
   * The pixel generator of rgba_to_rgb: input[W·H·c + W·h + w] in NCHW order and
   * input[(W·h + w)·C + c] in NHWC order, which is element (0, c, h, w) of the source layout.
   */
  function RgbaPixel<D>(input: seq<D>, order: Order, d: Dims, w: int, h: int, c: int): (r: D)
    requires |input| == d.Size() && InRange(d, 0, c, h, w)
    ensures r == Element(input, order, d, 0, c, h, w)
  {
    FirstImageIndex(order, d, c, h, w);
    OffsetInRange(order, d, 0, c, h, w);
    if order == NCHW then input[d.w * d.h * c + d.w * h + w] else input[(d.w * h + w) * d.c + c]
  }

  /**
   * rgba_to_rgb: a new one-image tensor of three channels in the source's order whose element
   * (c, h, w) is the source's element (c, h, w) of the first image.
   */
  method RgbaToRgb<D(0)>(source: Tensor<D>) returns (destination: Tensor<D>)
    requires source.Dense() && source.Extents().n >= 1 && HasQuadrupleChannel(source)
    ensures fresh(destination) && destination.Dense()
    ensures destination.Extents() == Dims(1, 3, source.Extents().h, source.Extents().w)
    ensures destination.order == source.order && destination.device == source.device
    ensures forall c, h, w | InRange(destination.Extents(), 0, c, h, w) :: destination.At(0, c, h, w) == source.At(0, c, h, w)
  {
    var input := source.data[..];
    var order := source.order;
    var d := source.Extents();
    source.DenseSize();
    destination := TransformOrdinary(source, 3,
      (w: int, h: int, c: int) requires InRange(d, 0, c, h, w) => RgbaPixel(input, order, d, w, h, c));
  }

  /**
   * The pixel generator of rgb_or_rgba_to_gray: the luma of input[W·h + w], input[W·H + W·h + w]
   * and input[W·H·2 + W·h + w] in NCHW order, of input[(W·h + w)·C + k] for k = 0, 1, 2 in NHWC
   * order; these are the first three channels of pixel (h, w) of the first image.
   */
  function GrayPixel<D>(input: seq<D>, order: Order, d: Dims, luma: (D, D, D) -> D, w: int, h: int): (r: D)
    requires |input| == d.Size() && d.n >= 1 && d.c >= 3 && 0 <= h < d.h && 0 <= w < d.w
    ensures r == luma(Element(input, order, d, 0, 0, h, w), Element(input, order, d, 0, 1, h, w), Element(input, order, d, 0, 2, h, w))
  {
    FirstImageIndex(order, d, 0, h, w);
    FirstImageIndex(order, d, 1, h, w);
    FirstImageIndex(order, d, 2, h, w);
    OffsetInRange(order, d, 0, 0, h, w);
    OffsetInRange(order, d, 0, 1, h, w);
    OffsetInRange(order, d, 0, 2, h, w);
    if order == NCHW then
      luma(input[d.w * h + w], input[d.w * d.h + d.w * h + w], input[d.w * d.h * 2 + d.w * h + w])
    else
      luma(input[(d.w * h + w) * d.c], input[(d.w * h + w) * d.c + 1], input[(d.w * h + w) * d.c + 2])
  }

  /**
   * rgb_or_rgba_to_gray: a new one-image tensor with the requested channel count whose every
   * channel of pixel (h, w) is the luma of the source's first three channels there. The weighting
   * (0.299, 0.587, 0.114 in floating point, then cast back) is the parameter luma.
   */
  method RgbOrRgbaToGray<D(0)>(source: Tensor<D>, channels: nat, luma: (D, D, D) -> D) returns (destination: Tensor<D>)
    requires source.Dense() && source.Extents().n >= 1
    requires HasTripleChannel(source) || HasQuadrupleChannel(source)
    ensures fresh(destination) && destination.Dense()
    ensures destination.Extents() == Dims(1, channels, source.Extents().h, source.Extents().w)
    ensures destination.order == source.order && destination.device == source.device
    ensures forall c, h, w | InRange(destination.Extents(), 0, c, h, w) ::
      destination.At(0, c, h, w) == luma(source.At(0, 0, h, w), source.At(0, 1, h, w), source.At(0, 2, h, w))
  {
    var input := source.data[..];
    var order := source.order;
    var d := source.Extents();
    source.DenseSize();
    destination := TransformMerging(source, channels,
      (w: int, h: int) requires 0 <= h < d.h && 0 <= w < d.w => GrayPixel(input, order, d, luma, w, h));
  }

  /**
   * A bitmap is height rows of stride elements; a pixel is C consecutive elements, so channel c of
   * pixel (h, w) is at h·stride + w·C + c. The stride is counted in elements, which are bytes for
   * the one-byte bitmaps copy_data_core is used with.
   */
  function BitmapIndex(d: Dims, stride: int, c: int, h: int, w: int): int
  {
    h * stride + w * d.c + c
  }

  /**
   * The elements copy_data_core reaches in a bitmap of H rows: the first H − 1 rows whole and the
   * pixels of the last row, (H − 1)·stride + W·C elements.
   */
  function BitmapLength(d: Dims, stride: int): int
  {
    (d.h - 1) * stride + d.w * d.c
  }

  /**
   * copy_data_core's bitmap position (C·W·h + C·w + c) + padding·h, with padding = stride − W·C,
   * is h·stride + w·C + c; it lies in the pixel part of row h, among the elements copy_data_core reaches.
   */
  lemma BitmapIndexInRow(d: Dims, stride: int, c: int, h: int, w: int)
    requires stride >= d.w * d.c && InRange(d, 0, c, h, w)
    ensures (d.c * d.w * h + d.c * w + c) + (stride - d.w * d.c) * h == BitmapIndex(d, stride, c, h, w)
    ensures 0 <= w * d.c + c < d.w * d.c
    ensures 0 <= BitmapIndex(d, stride, c, h, w) < d.h * stride
    ensures BitmapIndex(d, stride, c, h, w) < BitmapLength(d, stride)
  {
    MixedRadix(w, c, d.w, d.c);
    RowsApart(h, w * d.c + c, d.h, stride);
    assert (stride - d.w * d.c) * h == stride * h - d.w * d.c * h;
    MulMonotone(h, d.h - 1, stride);
  }

  /** The bitmap element that holds channel c of pixel (h, w). */
  function BitmapElement<D>(bitmap: seq<D>, d: Dims, stride: int, c: int, h: int, w: int): D
    requires stride >= d.w * d.c && |bitmap| >= BitmapLength(d, stride) && InRange(d, 0, c, h, w)
  {
    BitmapIndexInRow(d, stride, c, h, w);
    bitmap[BitmapIndex(d, stride, c, h, w)]
  }

  /** An element of the bitmap that belongs to a pixel; every other element is row padding or lies past the last row. */
  predicate PixelElement(d: Dims, stride: int, j: int)
  {
    stride > 0 && 0 <= j < d.h * stride && j % stride < d.w * d.c
  }

  /** The bitmap position of a pixel's channel is a pixel element, and no other channel of any pixel shares it. */
  lemma BitmapIndexApart(d: Dims, stride: int, c: int, h: int, w: int, c': int, h': int, w': int)
    requires stride >= d.w * d.c && InRange(d, 0, c, h, w) && InRange(d, 0, c', h', w')
    ensures PixelElement(d, stride, BitmapIndex(d, stride, c, h, w))
    ensures BitmapIndex(d, stride, c, h, w) == BitmapIndex(d, stride, c', h', w') ==> c == c' && h == h' && w == w'
  {
    BitmapIndexInRow(d, stride, c, h, w);
    BitmapIndexInRow(d, stride, c', h', w');
    DivModOfRow(h, w * d.c + c, stride);
    if BitmapIndex(d, stride, c, h, w) == BitmapIndex(d, stride, c', h', w') {
      MixedRadixInjective(h, w * d.c + c, h', w' * d.c + c', stride);
      MixedRadixInjective(w, c, w', c', d.c);
    }
  }

  /** Every element outside the pixels is as in original. */
  ghost predicate PaddingKept<D>(bitmap: seq<D>, original: seq<D>, d: Dims, stride: int)
  {
    |bitmap| == |original| && forall j | 0 <= j < |bitmap| && !PixelElement(d, stride, j) :: bitmap[j] == original[j]
  }

  /** The elements of the first image at planes above c, and at plane c before (h, w), hold their bitmap element. */
  ghost predicate PlanesFromBitmap<D>(output: seq<D>, bitmap: seq<D>, d: Dims, stride: int, c: int, h: int, w: int)
    requires |output| == d.Size() && stride >= d.w * d.c && |bitmap| >= BitmapLength(d, stride)
  {
    forall c', h', w' | InRange(d, 0, c', h', w') && (c' > c || (c' == c && (h' < h || (h' == h && w' < w)))) ::
      Element(output, NCHW, d, 0, c', h', w') == BitmapElement(bitmap, d, stride, c', h', w')
  }

  /** The elements of the first image in rows above h hold their bitmap element. */
  ghost predicate RowsFromBitmap<D>(output: seq<D>, bitmap: seq<D>, order: Order, d: Dims, stride: int, h: int)
    requires |output| == d.Size() && stride >= d.w * d.c && |bitmap| >= BitmapLength(d, stride)
  {
    forall c', h', w' | InRange(d, 0, c', h', w') && h' < h ::
      Element(output, order, d, 0, c', h', w') == BitmapElement(bitmap, d, stride, c', h', w')
  }

  /** The pixels of the bitmap at planes above c, and at plane c before (h, w), hold their tensor element. */
  ghost predicate PlanesToBitmap<D>(bitmap: seq<D>, input: seq<D>, d: Dims, stride: int, c: int, h: int, w: int)
    requires |input| == d.Size() && d.n >= 1 && stride >= d.w * d.c && |bitmap| >= BitmapLength(d, stride)
  {
    forall c', h', w' | InRange(d, 0, c', h', w') && (c' > c || (c' == c && (h' < h || (h' == h && w' < w)))) ::
      BitmapElement(bitmap, d, stride, c', h', w') == Element(input, NCHW, d, 0, c', h', w')
  }

  /** The pixels of the bitmap in rows above h hold their tensor element. */
  ghost predicate RowsToBitmap<D>(bitmap: seq<D>, input: seq<D>, order: Order, d: Dims, stride: int, h: int)
    requires |input| == d.Size() && d.n >= 1 && stride >= d.w * d.c && |bitmap| >= BitmapLength(d, stride)
  {
    forall c', h', w' | InRange(d, 0, c', h', w') && h' < h ::
      BitmapElement(bitmap, d, stride, c', h', w') == Element(input, order, d, 0, c', h', w')
  }

  /**
   * copy_data_core<false>: fills a one-image buffer from a bitmap; element (c, h, w) becomes the
   * bitmap's channel c of pixel (h, w). NCHW order goes plane by plane from the last channel, NHWC
   * order copies the W·C pixel elements of each row and skips its padding.
   */
  method CopyFromBitmap<D>(order: Order, bitmap: seq<D>, output: array<D>, d: Dims, stride: int)
    requires d.n == 1 && output.Length == d.Size()
    requires stride >= d.w * d.c && |bitmap| >= BitmapLength(d, stride)
    modifies output
    ensures forall c, h, w | InRange(d, 0, c, h, w) :: Element(output[..], order, d, 0, c, h, w) == BitmapElement(bitmap, d, stride, c, h, w)
  {
    if order == NCHW {
      var c := d.c - 1;
      while c >= 0
        invariant -1 <= c < d.c
        invariant PlanesFromBitmap(output[..], bitmap, d, stride, c, 0, 0)
      {
        var h := 0;
        while h < d.h
          invariant 0 <= h <= d.h
          invariant PlanesFromBitmap(output[..], bitmap, d, stride, c, h, 0)
        {
          PlaneRowFromBitmap(bitmap, output, d, stride, c, h);
          h := h + 1;
        }
        c := c - 1;
      }
    } else {
      var h := 0;
      while h < d.h
        invariant 0 <= h <= d.h
        invariant RowsFromBitmap(output[..], bitmap, NHWC, d, stride, h)
      {
        RowFromBitmap(bitmap, output, d, stride, h);
        h := h + 1;
      }
    }
  }

  /** The w loop of copy_data_core<false> in NCHW order: row h of plane c. */
  method PlaneRowFromBitmap<D>(bitmap: seq<D>, output: array<D>, d: Dims, stride: int, c: int, h: int)
    requires d.n == 1 && output.Length == d.Size() && 0 <= c < d.c && 0 <= h < d.h
    requires stride >= d.w * d.c && |bitmap| >= BitmapLength(d, stride)
    requires PlanesFromBitmap(output[..], bitmap, d, stride, c, h, 0)
    modifies output
    ensures PlanesFromBitmap(output[..], bitmap, d, stride, c, h + 1, 0)
  {
    var w := 0;
    while w < d.w
      invariant 0 <= w <= d.w
      invariant PlanesFromBitmap(output[..], bitmap, d, stride, c, h, w)
    {
      BitmapIndexInRow(d, stride, c, h, w);
      SetPixel(output, NCHW, d, w, h, c, bitmap[(d.c * d.w * h + d.c * w + c) + (stride - d.w * d.c) * h]);
      w := w + 1;
    }
  }

  /** One memcpy of copy_data_core<false> in NHWC order: the W·C pixel elements of row h. */
  method RowFromBitmap<D>(bitmap: seq<D>, output: array<D>, d: Dims, stride: int, h: int)
    requires d.n == 1 && output.Length == d.Size() && 0 <= h < d.h
    requires stride >= d.w * d.c && |bitmap| >= BitmapLength(d, stride)
    requires RowsFromBitmap(output[..], bitmap, NHWC, d, stride, h)
    modifies output
    ensures RowsFromBitmap(output[..], bitmap, NHWC, d, stride, h + 1)
  {
    var line := d.w * d.c;
    var padding := stride - line;
    RowBounds(d, stride, h);
    CopyElements(output, h * line, bitmap, h * line + padding * h, line);
    forall c', h', w' | InRange(d, 0, c', h', w') && h' < h + 1
      ensures Element(output[..], NHWC, d, 0, c', h', w') == BitmapElement(bitmap, d, stride, c', h', w')
    {
      RowElement(d, stride, c', h', w');
      if h' < h {
        RowsApart(h', w' * d.c + c', h, line);
      }
    }
  }

  /** The memcpy bounds of row h: W·C elements at h·W·C in the image and at h·stride in the bitmap. */
  lemma RowBounds(d: Dims, stride: int, h: int)
    requires d.n >= 1 && 0 <= h < d.h && stride >= d.w * d.c
    ensures 0 <= h * (d.w * d.c) && h * (d.w * d.c) + d.w * d.c <= d.Size()
    ensures h * (d.w * d.c) + (stride - d.w * d.c) * h == h * stride
    ensures 0 <= h * stride && h * stride + d.w * d.c <= BitmapLength(d, stride)
  {
    MulMonotone(h, d.h - 1, stride);
    var line := d.w * d.c;
    MulMonotone(h + 1, d.h, stride);
    MulMonotone(h + 1, d.h, line);
    MulMonotone(1, d.n, d.h * line);
    assert d.Size() == d.n * (d.h * line);
  }

  /** Channel c of pixel (h, w) sits at the same place x = w·C + c of row h in an NHWC image and in a bitmap. */
  lemma RowElement(d: Dims, stride: int, c: int, h: int, w: int)
    requires stride >= d.w * d.c && InRange(d, 0, c, h, w)
    ensures 0 <= w * d.c + c < d.w * d.c
    ensures Offset(NHWC, d, 0, c, h, w) == h * (d.w * d.c) + (w * d.c + c)
    ensures BitmapIndex(d, stride, c, h, w) == h * stride + (w * d.c + c)
  {
    FirstImageIndex(NHWC, d, c, h, w);
    BitmapIndexInRow(d, stride, c, h, w);
  }

  /**
   * copy_data_core<true>: writes the first image of a tensor buffer into a bitmap; channel c of
   * pixel (h, w) becomes element (c, h, w), and the row padding and anything past the last row keep
   * their contents.
   */
  method CopyToBitmap<D>(order: Order, input: seq<D>, bitmap: array<D>, d: Dims, stride: int)
    requires d.n >= 1 && |input| == d.Size()
    requires stride >= d.w * d.c && bitmap.Length >= BitmapLength(d, stride)
    modifies bitmap
    ensures forall c, h, w | InRange(d, 0, c, h, w) :: BitmapElement(bitmap[..], d, stride, c, h, w) == Element(input, order, d, 0, c, h, w)
    ensures PaddingKept(bitmap[..], old(bitmap[..]), d, stride)
  {
    ghost var original := bitmap[..];
    if order == NCHW {
      var c := d.c - 1;
      while c >= 0
        invariant -1 <= c < d.c
        invariant PlanesToBitmap(bitmap[..], input, d, stride, c, 0, 0)
        invariant PaddingKept(bitmap[..], original, d, stride)
      {
        var h := 0;
        while h < d.h
          invariant 0 <= h <= d.h
          invariant PlanesToBitmap(bitmap[..], input, d, stride, c, h, 0)
          invariant PaddingKept(bitmap[..], original, d, stride)
        {
          PlaneRowToBitmap(input, bitmap, d, stride, c, h, original);
          h := h + 1;
        }
        c := c - 1;
      }
    } else {
      var h := 0;
      while h < d.h
        invariant 0 <= h <= d.h
        invariant RowsToBitmap(bitmap[..], input, NHWC, d, stride, h)
        invariant PaddingKept(bitmap[..], original, d, stride)
      {
        RowToBitmap(input, bitmap, d, stride, h, original);
        h := h + 1;
      }
    }
  }

  /** The w loop of copy_data_core<true> in NCHW order: row h of plane c. */
  method PlaneRowToBitmap<D>(input: seq<D>, bitmap: array<D>, d: Dims, stride: int, c: int, h: int, ghost original: seq<D>)
    requires d.n >= 1 && |input| == d.Size() && 0 <= c < d.c && 0 <= h < d.h
    requires stride >= d.w * d.c && bitmap.Length >= BitmapLength(d, stride)
    requires PlanesToBitmap(bitmap[..], input, d, stride, c, h, 0)
    requires PaddingKept(bitmap[..], original, d, stride)
    modifies bitmap
    ensures PlanesToBitmap(bitmap[..], input, d, stride, c, h + 1, 0)
    ensures PaddingKept(bitmap[..], original, d, stride)
  {
    var w := 0;
    while w < d.w
      invariant 0 <= w <= d.w
      invariant PlanesToBitmap(bitmap[..], input, d, stride, c, h, w)
      invariant PaddingKept(bitmap[..], original, d, stride)
    {
      SetBitmapElement(bitmap, d, stride, c, h, w, RgbaPixel(input, NCHW, d, w, h, c));
      w := w + 1;
    }
  }

  /**
   * The store of copy_data_core<true> in NCHW order: channel c of pixel (h, w) of the bitmap gets a
   * value; no other pixel element and no padding element changes.
   */
  method SetBitmapElement<D>(bitmap: array<D>, d: Dims, stride: int, c: int, h: int, w: int, value: D)
    requires stride >= d.w * d.c && bitmap.Length >= BitmapLength(d, stride) && InRange(d, 0, c, h, w)
    modifies bitmap
    ensures BitmapElement(bitmap[..], d, stride, c, h, w) == value
    ensures forall c', h', w' | InRange(d, 0, c', h', w') && (c' != c || h' != h || w' != w) ::
      BitmapElement(bitmap[..], d, stride, c', h', w') == BitmapElement(old(bitmap[..]), d, stride, c', h', w')
    ensures forall j | 0 <= j < bitmap.Length && !PixelElement(d, stride, j) :: bitmap[j] == old(bitmap[j])
  {
    BitmapIndexInRow(d, stride, c, h, w);
    BitmapIndexApart(d, stride, c, h, w, c, h, w);
    bitmap[(d.c * d.w * h + d.c * w + c) + (stride - d.w * d.c) * h] := value;
    forall c', h', w' | InRange(d, 0, c', h', w') && (c' != c || h' != h || w' != w)
      ensures BitmapElement(bitmap[..], d, stride, c', h', w') == BitmapElement(old(bitmap[..]), d, stride, c', h', w')
    {
      BitmapIndexApart(d, stride, c, h, w, c', h', w');
      BitmapIndexInRow(d, stride, c', h', w');
    }
  }

  /** One memcpy of copy_data_core<true> in NHWC order: the W·C pixel elements of row h. */
  method RowToBitmap<D>(input: seq<D>, bitmap: array<D>, d: Dims, stride: int, h: int, ghost original: seq<D>)
    requires d.n >= 1 && |input| == d.Size() && 0 <= h < d.h
    requires stride >= d.w * d.c && bitmap.Length >= BitmapLength(d, stride)
    requires RowsToBitmap(bitmap[..], input, NHWC, d, stride, h)
    requires PaddingKept(bitmap[..], original, d, stride)
    modifies bitmap
    ensures RowsToBitmap(bitmap[..], input, NHWC, d, stride, h + 1)
    ensures PaddingKept(bitmap[..], original, d, stride)
  {
    var line := d.w * d.c;
    var padding := stride - line;
    RowBounds(d, stride, h);
    ghost var before := bitmap[..];
    CopyElements(bitmap, h * line + padding * h, input, h * line, line);
    forall c', h', w' | InRange(d, 0, c', h', w') && h' < h + 1
      ensures BitmapElement(bitmap[..], d, stride, c', h', w') == Element(input, NHWC, d, 0, c', h', w')
    {
      RowElement(d, stride, c', h', w');
      if h' < h {
        RowsApart(h', w' * d.c + c', h, stride);
      }
    }
    forall j | 0 <= j < bitmap.Length && !PixelElement(d, stride, j)
      ensures bitmap[j] == before[j]
    {
      if h * stride <= j < h * stride + line {
        DivModOfRow(h, j - h * stride, stride);
      }
    }
  }

  /**
   * create: a new one-image tensor of the given order and device, [1, h, w, c] or [1, c, h, w],
   * whose element (c, h, w) is channel c of pixel (h, w) of the bitmap.
   */
  method Create<D(0)>(bitmap: seq<D>, order: Order, device: int, width: nat, height: nat, stride: int, channels: nat) returns (result: Tensor<D>)
    requires stride >= width * channels && |bitmap| >= (height - 1) * stride + width * channels
    ensures fresh(result) && fresh(result.data) && result.Dense()
    ensures result.shape == ImageShape(order, channels, height, width) && result.Extents() == Dims(1, channels, height, width)
    ensures result.order == order && result.device == device && result.allocator == None
    ensures forall c, h, w | InRange(result.Extents(), 0, c, h, w) ::
      result.At(0, c, h, w) == BitmapElement(bitmap, result.Extents(), stride, c, h, w)
  {
    var d := Dims(1, channels, height, width);
    result := new Tensor(d, device, order, None);
    ShapeInRoundTrip(d, order);
    CopyFromBitmap(order, bitmap, result.data, d, stride);
    result.DenseSize();
  }

  /**
   * copy_to_bitmap: writes the first image of a tensor into a bitmap of the given stride; every
   * pixel element gets the tensor's element and every other element of the bitmap keeps its value.
   */
  method TensorToBitmap<D(0)>(t: Tensor<D>, bitmap: array<D>, stride: int)
    requires t.Dense() && t.Extents().n >= 1 && bitmap != t.data
    requires stride >= t.Extents().w * t.Extents().c && bitmap.Length >= BitmapLength(t.Extents(), stride)
    modifies bitmap
    ensures forall c, h, w | InRange(t.Extents(), 0, c, h, w) ::
      BitmapElement(bitmap[..], t.Extents(), stride, c, h, w) == t.At(0, c, h, w)
    ensures PaddingKept(bitmap[..], old(bitmap[..]), t.Extents(), stride)
  {
    t.DenseSize();
    var d := Dims(t.Num(), t.Channels(), t.Height(), t.Width());
    CopyToBitmap(t.order, t.data[..], bitmap, d, stride);
  }

  /** A tensor created from a bitmap and copied back to a second bitmap gives it the first bitmap's pixels. */
  method BitmapRoundTrip<D(0)>(source: seq<D>, order: Order, width: nat, height: nat, stride: int, channels: nat, target: array<D>)
    returns (t: Tensor<D>)
    requires stride >= width * channels
    requires |source| >= (height - 1) * stride + width * channels && target.Length >= (height - 1) * stride + width * channels
    modifies target
    ensures forall c, h, w | InRange(Dims(1, channels, height, width), 0, c, h, w) ::
      BitmapElement(target[..], Dims(1, channels, height, width), stride, c, h, w) == BitmapElement(source, Dims(1, channels, height, width), stride, c, h, w)
  {
    t := Create(source, order, -1, width, height, stride, channels);
    TensorToBitmap(t, target, stride);
  }
}
