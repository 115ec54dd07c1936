/**
 * tensor<Dtype>: a four-dimensional array of elements with a shape vector, a memory order (NCHW
 * or NHWC), a device id, an optional pool allocator and a data buffer that may be absent. The
 * element buffer is the CPU copy of the data; host/device synchronisation is not modelled.
 */
module Tensors {
  import opened Wrappers

  /** orderType: channels before or after the spatial dimensions. */
  datatype Order = NCHW | NHWC

  /** The product of shape[start..end), 1 for an empty range, accumulated from the left. */
  function Product(shape: seq<int>, start: int, end: int): int
    requires start >= end || (0 <= start && end <= |shape|)
    decreases end - start
  {
    if start >= end then 1 else Product(shape, start, end - 1) * shape[end - 1]
  }

  /** A product of non-negative dimensions is non-negative. */
  lemma {:induction false} ProductNonNegative(shape: seq<int>, start: int, end: int)
    requires start >= end || (0 <= start && end <= |shape|)
    requires forall i :: 0 <= i < |shape| ==> shape[i] >= 0
    ensures Product(shape, start, end) >= 0
    decreases end - start
  {
    if start < end {
      ProductNonNegative(shape, start, end - 1);
      MulNonNegative(Product(shape, start, end - 1), shape[end - 1]);
    }
  }

  lemma MulNonNegative(a: int, b: int)
    requires a >= 0 && b >= 0
    ensures a * b >= 0
  {
  }

  /** The four extents of an image-like tensor: batch, channels, height, width. */
  datatype Dims = Dims(n: nat, c: nat, h: nat, w: nat)
  {
    /** The number of elements: n·c·h·w. */
    function Size(): nat
    {
      n * c * h * w
    }

    /** The shape vector of these extents in the given order. */
    function ShapeIn(order: Order): seq<int>
    {
      if order == NCHW then [n, c, h, w] else [n, h, w, c]
    }
  }

  /** A four-element shape, read in the given order, as extents. */
  function DimsOf(shape: seq<int>, order: Order): Dims
    requires |shape| == 4 && forall i :: 0 <= i < 4 ==> shape[i] >= 0
  {
    if order == NCHW then Dims(shape[0], shape[1], shape[2], shape[3])
    else Dims(shape[0], shape[3], shape[1], shape[2])
  }

  /** Reading the shape built from some extents gives those extents back, and the product is their size. */
  lemma ShapeInRoundTrip(d: Dims, order: Order)
    ensures var s := d.ShapeIn(order);
      |s| == 4 && (forall i :: 0 <= i < 4 ==> s[i] >= 0) && DimsOf(s, order) == d && Product(s, 0, 4) == d.Size()
  {
    var s := d.ShapeIn(order);
    if order == NHWC {
      assert Product(s, 0, 4) == d.n * d.h * d.w * d.c;
      MulCommutes4(d.n, d.c, d.h, d.w);
    }
  }

  lemma MulCommutes4(a: int, b: int, c: int, d: int)
    ensures a * c * d * b == a * b * c * d
  {
  }

  /**
   * offset(n, c, h, w): ((n·C + c)·H + h)·W + w in NCHW order and ((n·H + h)·W + w)·C + c in
   * NHWC order.
   */
  function Offset(order: Order, d: Dims, n: int, c: int, h: int, w: int): int
  {
    if order == NCHW then ((n * d.c + c) * d.h + h) * d.w + w
    else ((n * d.h + h) * d.w + w) * d.c + c
  }

  /** std::max of two integers. */
  function Max(a: int, b: int): int { if a < b then b else a }

  /** std::min of two integers. */
  function Min(a: int, b: int): int { if a < b then a else b }

  /** An index inside the extents. */
  predicate InRange(d: Dims, n: int, c: int, h: int, w: int)
  {
    0 <= n < d.n && 0 <= c < d.c && 0 <= h < d.h && 0 <= w < d.w
  }

  /** a·B + b with 0 <= b < B stays below A·B when a < A, and determines a and b. */
  lemma MixedRadix(a: int, b: int, A: int, B: int)
    requires 0 <= a < A && 0 <= b < B
    ensures 0 <= a * B + b < A * B
  {
    assert a * B + b < a * B + B == (a + 1) * B;
    MulMonotone(a + 1, A, B);
  }

  lemma MulMonotone(a: int, A: int, B: int)
    requires 0 <= a <= A && B >= 0
    ensures a * B <= A * B
  {
    assert A * B - a * B == (A - a) * B;
    MulNonNegative(A - a, B);
  }

  lemma MixedRadixInjective(a: int, b: int, a': int, b': int, B: int)
    requires 0 <= b < B && 0 <= b' < B
    requires a * B + b == a' * B + b'
    ensures a == a' && b == b'
  {
    if a < a' {
      assert (a + 1) * B == a * B + B;
      MulMonotone(a + 1, a', B);
    } else if a' < a {
      assert (a' + 1) * B == a' * B + B;
      MulMonotone(a' + 1, a, B);
    }
  }

  /** Rows of length L laid end to end: an element of an earlier row lies before a later row. */
  lemma RowsApart(k': int, x: int, k: int, L: int)
    requires 0 <= k' < k && 0 <= x < L
    ensures k' * L + x < k * L
  {
    assert (k' + 1) * L == k' * L + L;
    MulMonotone(k' + 1, k, L);
  }

  /** j = h·L + x with 0 <= x < L: h is j / L and x is j % L. */
  lemma DivModOfRow(h: int, x: int, L: int)
    requires h >= 0 && 0 <= x < L
    ensures (h * L + x) / L == h && (h * L + x) % L == x
  {
    var j := h * L + x;
    assert j == (j / L) * L + j % L;
    MixedRadixInjective(j / L, j % L, h, x, L);
  }

  /** Every index inside the extents has an offset inside the buffer. */
  lemma OffsetInRange(order: Order, d: Dims, n: int, c: int, h: int, w: int)
    requires InRange(d, n, c, h, w)
    ensures 0 <= Offset(order, d, n, c, h, w) < d.Size()
  {
    if order == NCHW {
      MixedRadix(n, c, d.n, d.c);
      MixedRadix(n * d.c + c, h, d.n * d.c, d.h);
      MixedRadix((n * d.c + c) * d.h + h, w, d.n * d.c * d.h, d.w);
    } else {
      MixedRadix(n, h, d.n, d.h);
      MixedRadix(n * d.h + h, w, d.n * d.h, d.w);
      MixedRadix((n * d.h + h) * d.w + w, c, d.n * d.h * d.w, d.c);
      MulCommutes4(d.n, d.c, d.h, d.w);
    }
  }

  /** Distinct indices inside the extents have distinct offsets. */
  lemma OffsetInjective(order: Order, d: Dims, n: int, c: int, h: int, w: int, n': int, c': int, h': int, w': int)
    requires InRange(d, n, c, h, w) && InRange(d, n', c', h', w')
    requires Offset(order, d, n, c, h, w) == Offset(order, d, n', c', h', w')
    ensures n == n' && c == c' && h == h' && w == w'
  {
    if order == NCHW {
      MixedRadixInjective((n * d.c + c) * d.h + h, w, (n' * d.c + c') * d.h + h', w', d.w);
      MixedRadixInjective(n * d.c + c, h, n' * d.c + c', h', d.h);
      MixedRadixInjective(n, c, n', c', d.c);
    } else {
      MixedRadixInjective((n * d.h + h) * d.w + w, c, (n' * d.h + h') * d.w + w', c', d.c);
      MixedRadixInjective(n * d.h + h, w, n' * d.h + h', w', d.w);
      MixedRadixInjective(n, h, n', h', d.h);
    }
  }

  /**
   * tensor<Dtype>. data is null for a tensor without a buffer; shape, order and device are as the
   * constructors and reshape leave them.
   */
  class Tensor<D(0)> {
    var shape: seq<int>
    var order: Order
    var device: int
    var allocator: Option<nat>
    var data: array?<D>

    /** A four-dimensional tensor whose buffer holds exactly its elements. */
    ghost predicate Dense()
      reads this
    {
      && |shape| == 4
      && (forall i :: 0 <= i < 4 ==> shape[i] >= 0)
      && data != null
      && data.Length == Product(shape, 0, 4)
    }

    /** The extents of a dense tensor. */
    function Extents(): Dims
      reads this
      requires |shape| == 4 && forall i :: 0 <= i < 4 ==> shape[i] >= 0
    {
      DimsOf(shape, order)
    }

    /** A tensor with the given extents, order and device and a new buffer of that many elements. */
    constructor (d: Dims, device: int, order: Order, allocator: Option<nat>)
      ensures Dense() && Extents() == d && this.order == order && this.device == device
      ensures this.allocator == allocator && fresh(data)
    {
      shape := d.ShapeIn(order);
      this.order := order;
      this.device := device;
      this.allocator := allocator;
      ShapeInRoundTrip(d, order);
      data := new D[d.Size()];
    }

    /** empty(): no buffer, or no elements. */
    predicate Empty()
      reads this
    {
      data == null || Product(shape, 0, |shape|) == 0
    }

    /** num(): shape[0]. */
    function Num(): (r: int)
      reads this
      requires |shape| > 0
      ensures |shape| == 4 && (forall i :: 0 <= i < 4 ==> shape[i] >= 0) ==> r == DimsOf(shape, order).n
    {
      shape[0]
    }

    /** channels(): shape[1] in NCHW order, shape[3] in NHWC order. */
    function Channels(): (r: int)
      reads this
      requires if order == NCHW then |shape| > 1 else |shape| > 3
      ensures |shape| == 4 && (forall i :: 0 <= i < 4 ==> shape[i] >= 0) ==> r == DimsOf(shape, order).c
    {
      if order == NCHW then shape[1] else shape[3]
    }

    /** height(): shape[2] in NCHW order, shape[1] in NHWC order. */
    function Height(): (r: int)
      reads this
      requires |shape| > 2
      ensures |shape| == 4 && (forall i :: 0 <= i < 4 ==> shape[i] >= 0) ==> r == DimsOf(shape, order).h
    {
      if order == NCHW then shape[2] else shape[1]
    }

    /** width(): shape[3] in NCHW order, shape[2] in NHWC order. */
    function Width(): (r: int)
      reads this
      requires |shape| > 3
      ensures |shape| == 4 && (forall i :: 0 <= i < 4 ==> shape[i] >= 0) ==> r == DimsOf(shape, order).w
    {
      if order == NCHW then shape[3] else shape[2]
    }

    /** count(start, end): the product of shape[start..end), 1 when start >= end. */
    method CountRange(start: int, end: int) returns (r: int)
      requires start >= end || (0 <= start && end <= |shape|)
      ensures r == Product(shape, start, end)
    {
      r := 1;
      var i := start;
      while i < end
        invariant start <= end ==> start <= i <= end
        invariant r == Product(shape, start, if start <= end then i else start)
        decreases end - i
      {
        r := r * shape[i];
        i := i + 1;
      }
    }

    /** count(): the product of all dimensions. */
    method Count() returns (r: int)
      ensures r == Product(shape, 0, |shape|)
    {
      r := CountRange(0, |shape|);
    }

    /** offset(n, c, h, w) for this tensor's order and extents. */
    function OffsetOf(n: int, c: int, h: int, w: int): (r: int)
      reads this
      requires |shape| == 4 && forall i :: 0 <= i < 4 ==> shape[i] >= 0
      ensures InRange(Extents(), n, c, h, w) ==> 0 <= r < Extents().Size()
    {
      OffsetInRange'(order, Extents(), n, c, h, w);
      Offset(order, Extents(), n, c, h, w)
    }

    /** The element at an index inside the extents of a dense tensor. */
    ghost function At(n: int, c: int, h: int, w: int): D
      reads this, data
      requires Dense() && InRange(Extents(), n, c, h, w)
    {
      DenseSize();
      Element(data[..], order, Extents(), n, c, h, w)
    }

    /** A dense tensor's buffer holds exactly the elements of its extents. */
    lemma DenseSize()
      requires Dense()
      ensures data.Length == Extents().Size()
    {
      ShapeInRoundTrip(Extents(), order);
      assert Extents().ShapeIn(order) == shape;
    }

    /** data_shape(): the shape vector. */
    function DataShape(): seq<int>
      reads this
    {
      shape
    }

    /** reshape: replaces the shape vector; the buffer is kept. */
    method Reshape(newShape: seq<int>)
      modifies this
      ensures shape == newShape
      ensures order == old(order) && device == old(device) && allocator == old(allocator) && data == old(data)
    {
      shape := newShape;
    }

    /** set_allocator: takes effect only when no allocator is set yet. */
    method SetAllocator(a: nat)
      modifies this
      ensures allocator == if old(allocator).None? then Some(a) else old(allocator)
      ensures shape == old(shape) && order == old(order) && device == old(device) && data == old(data)
    {
      if allocator.None? {
        allocator := Some(a);
      }
    }

    /** clone(): a deep copy with a buffer of its own. */
    method Clone() returns (t: Tensor<D>)
      ensures fresh(t) && (data != null ==> fresh(t.data))
      ensures t.shape == shape && t.order == order && t.device == device && t.allocator == allocator
      ensures data == null <==> t.data == null
      ensures data != null ==> t.data[..] == data[..]
    {
      t := new Tensor.Unshaped(order, allocator);
      t.shape := shape;
      t.device := device;
      var source := data;
      if source != null {
        var copy := new D[source.Length](i requires 0 <= i < source.Length reads source => source[i]);
        t.data := copy;
      }
    }

    /** tensor(order, allocator): no shape, no buffer, CPU device. */
    constructor Unshaped(order: Order, allocator: Option<nat>)
      ensures shape == [] && data == null && device == -1
      ensures this.order == order && this.allocator == allocator
    {
      shape := [];
      this.order := order;
      device := -1;
      this.allocator := allocator;
      data := null;
    }
  }

  /**
   * The index of (c, h, w) in the first image, as the pixel accessors of the helpers write it:
   * W·H·c + W·h + w in NCHW order, C·W·h + C·w + c in NHWC order.
   */
  lemma FirstImageIndex(order: Order, d: Dims, c: int, h: int, w: int)
    ensures order == NCHW ==> Offset(order, d, 0, c, h, w) == d.w * d.h * c + d.w * h + w
    ensures order == NHWC ==> Offset(order, d, 0, c, h, w) == d.c * d.w * h + d.c * w + c
    ensures order == NHWC ==> Offset(order, d, 0, c, h, w) == (d.w * h + w) * d.c + c
  {
    if order == NCHW {
      assert (c * d.h + h) * d.w == d.w * d.h * c + d.w * h;
    } else {
      assert (h * d.w + w) * d.c == d.c * d.w * h + d.c * w;
    }
  }

  /** Distinct indices inside the extents are stored at distinct offsets (the contrapositive of OffsetInjective). */
  lemma OffsetsApart(order: Order, d: Dims, n: int, c: int, h: int, w: int, n': int, c': int, h': int, w': int)
    requires InRange(d, n, c, h, w) && InRange(d, n', c', h', w')
    requires n != n' || c != c' || h != h' || w != w'
    ensures Offset(order, d, n, c, h, w) != Offset(order, d, n', c', h', w')
  {
    if Offset(order, d, n, c, h, w) == Offset(order, d, n', c', h', w') {
      OffsetInjective(order, d, n, c, h, w, n', c', h', w');
    }
  }

  /** memcpy(dst + dstStart, src + srcStart, count elements). */
  method CopyElements<D>(dst: array<D>, dstStart: int, src: seq<D>, srcStart: int, count: int)
    requires 0 <= count && 0 <= dstStart && dstStart + count <= dst.Length
    requires 0 <= srcStart && srcStart + count <= |src|
    modifies dst
    ensures forall j | 0 <= j < dst.Length ::
      dst[j] == if dstStart <= j < dstStart + count then src[srcStart + (j - dstStart)] else old(dst[j])
  {
    forall j | dstStart <= j < dstStart + count {
      dst[j] := src[srcStart + (j - dstStart)];
    }
  }

  /** The element at an index of a buffer laid out with the given order and extents. */
  ghost function Element<D>(data: seq<D>, order: Order, d: Dims, n: int, c: int, h: int, w: int): D
    requires |data| == d.Size() && InRange(d, n, c, h, w)
  {
    OffsetInRange(order, d, n, c, h, w);
    data[Offset(order, d, n, c, h, w)]
  }

  /** Helper that keeps the bound of OffsetOf out of the function body's proof. */
  lemma OffsetInRange'(order: Order, d: Dims, n: int, c: int, h: int, w: int)
    ensures InRange(d, n, c, h, w) ==> 0 <= Offset(order, d, n, c, h, w) < d.Size()
  {
    if InRange(d, n, c, h, w) {
      OffsetInRange(order, d, n, c, h, w);
    }
  }

  /** A clone of a dense tensor is dense with the same extents and the same elements. */
  lemma CloneIsEqual<D(0)>(s: Tensor<D>, t: Tensor<D>)
    requires s.Dense() && t.shape == s.shape && t.order == s.order
    requires t.data != null && t.data[..] == s.data[..]
    ensures t.Dense() && t.Extents() == s.Extents()
    ensures forall n, c, h, w | InRange(s.Extents(), n, c, h, w) :: t.At(n, c, h, w) == s.At(n, c, h, w)
  {
    assert t.data.Length == |t.data[..]|;
  }

  /**
   * A dense buffer as a sequence of rows of equal length: in NCHW order a row is one image row of
   * one channel (W elements), in NHWC order it is one image row of all channels (W·C elements).
   */
  function RowLength(order: Order, d: Dims): nat
  {
    if order == NCHW then d.w else d.w * d.c
  }

  /** The number of rows: N·C·H in NCHW order, N·H in NHWC order. */
  function RowCount(order: Order, d: Dims): nat
  {
    if order == NCHW then d.n * d.c * d.h else d.n * d.h
  }

  /** The row that holds element (n, c, h, ·). */
  function RowKey(order: Order, d: Dims, n: int, c: int, h: int): int
  {
    if order == NCHW then (n * d.c + c) * d.h + h else n * d.h + h
  }

  /** The position of element (·, c, ·, w) inside its row. */
  function RowPos(order: Order, d: Dims, c: int, w: int): int
  {
    if order == NCHW then w else w * d.c + c
  }

  /** Every element lies at RowKey·RowLength + RowPos, with both parts in range. */
  lemma RowLayout(order: Order, d: Dims, n: int, c: int, h: int, w: int)
    requires InRange(d, n, c, h, w)
    ensures 0 <= RowPos(order, d, c, w) < RowLength(order, d)
    ensures 0 <= RowKey(order, d, n, c, h) < RowCount(order, d)
    ensures Offset(order, d, n, c, h, w) == RowKey(order, d, n, c, h) * RowLength(order, d) + RowPos(order, d, c, w)
  {
    RowKeyBound(order, d, n, c, h);
    if order == NHWC {
      MixedRadix(w, c, d.w, d.c);
      InterleavedRow(n * d.h + h, w, c, d.w, d.c);
    }
  }

  /** (a·W + w)·C + c = a·(W·C) + (w·C + c). */
  lemma InterleavedRow(a: int, w: int, c: int, W: int, C: int)
    ensures (a * W + w) * C + c == a * (W * C) + (w * C + c)
  {
    assert (a * W + w) * C == a * W * C + w * C;
  }

  /** Every image row of every channel has a row number below RowCount. */
  lemma RowKeyBound(order: Order, d: Dims, n: int, c: int, h: int)
    requires 0 <= n < d.n && 0 <= c < d.c && 0 <= h < d.h
    ensures 0 <= RowKey(order, d, n, c, h) < RowCount(order, d)
  {
    if order == NCHW {
      MixedRadix(n, c, d.n, d.c);
      MixedRadix(n * d.c + c, h, d.n * d.c, d.h);
    } else {
      MixedRadix(n, h, d.n, d.h);
    }
  }

  /** Two elements in the same row share the image and the image row, and in NCHW order the channel. */
  lemma RowKeyInjective(order: Order, d: Dims, n: int, c: int, h: int, n': int, c': int, h': int)
    requires InRange(d, n, c, h, 0) && InRange(d, n', c', h', 0)
    requires RowKey(order, d, n, c, h) == RowKey(order, d, n', c', h')
    ensures n == n' && h == h' && (order == NCHW ==> c == c')
  {
    if order == NCHW {
      MixedRadixInjective(n * d.c + c, h, n' * d.c + c', h', d.h);
      MixedRadixInjective(n, c, n', c', d.c);
    } else {
      MixedRadixInjective(n, h, n', h', d.h);
    }
  }

  lemma OutputRowBounds(order: Order, dd: Dims, n: int, ch: int, row: int)
    requires 0 <= n < dd.n && 0 <= ch < dd.c && 0 <= row < dd.h
    ensures var k := RowKey(order, dd, n, ch, row); var length := RowLength(order, dd);
      0 <= k * length && k * length + length <= dd.Size()
  {
    RowKeyBound(order, dd, n, ch, row);
    RowsCover(order, dd);
    RowSpan(RowKey(order, dd, n, ch, row), RowCount(order, dd), RowLength(order, dd), dd.Size());
  }

  /** Row k of count rows of the given length lies inside a buffer of count·length elements. */
  lemma RowSpan(k: int, count: int, length: int, total: int)
    requires 0 <= k < count && length >= 0 && count * length == total
    ensures 0 <= k * length && k * length + length <= total
  {
    MulNonNegative(k, length);
    MulMonotone(k + 1, count, length);
    assert (k + 1) * length == k * length + length;
  }

  /**
   * Row `row` of channel ch of image n (of image n alone in NHWC order, where ch is 0) lies inside
   * the buffer, and starts where the source's loops compute it: n·(C·H·W) + ch·(H·W) + row·W in
   * NCHW order, n·(C·H·W) + row·W·C in NHWC order.
   */
  lemma RowInside(order: Order, d: Dims, n: int, ch: int, row: int)
    requires 0 <= n < d.n && 0 <= row < d.h && (if order == NCHW then 0 <= ch < d.c else ch == 0)
    ensures var k := RowKey(order, d, n, ch, row); var length := RowLength(order, d);
      0 <= k * length && k * length + length <= d.Size()
      && k * length == RowStart(order, d, n, ch, row)
  {
    if order == NCHW {
      PlanarStart(d.c, d.h, d.w, n, ch, row);
      OutputRowBounds(order, d, n, ch, row);
    } else {
      InterleavedStart(d.c, d.h, d.w, n, row, 0);
      assert (n * d.h + row) * d.w * d.c == (n * d.h + row) * (d.w * d.c);
      if d.c > 0 {
        OutputRowBounds(order, d, n, ch, row);
      } else {
        assert RowLength(order, d) == 0 && d.Size() == 0;
      }
    }
  }

  /** Every element sits at its position inside the row that holds it. */
  lemma ElementInRow(order: Order, d: Dims, n: int, c: int, h: int, w: int)
    requires InRange(d, n, c, h, w)
    ensures 0 <= RowPos(order, d, c, w) < RowLength(order, d)
    ensures RowStart(order, d, n, if order == NCHW then c else 0, h) + RowLength(order, d) <= d.Size()
    ensures Offset(order, d, n, c, h, w) == RowStart(order, d, n, if order == NCHW then c else 0, h) + RowPos(order, d, c, w)
  {
    RowLayout(order, d, n, c, h, w);
    RowInside(order, d, n, if order == NCHW then c else 0, h);
  }

  /** The start of a row as the image kernels compute it from per-image and per-channel strides. */
  function RowStart(order: Order, d: Dims, n: int, ch: int, row: int): int
  {
    if order == NCHW then n * (d.c * d.h * d.w) + ch * (d.h * d.w) + row * d.w
    else n * (d.c * d.h * d.w) + row * d.w * d.c
  }

  /** The rows together hold every element: RowCount·RowLength = N·C·H·W. */
  lemma RowsCover(order: Order, d: Dims)
    ensures RowCount(order, d) * RowLength(order, d) == d.Size()
  {
    if order == NHWC {
      assert d.n * d.h * (d.w * d.c) == d.n * d.h * d.w * d.c;
      MulCommutes4(d.n, d.c, d.h, d.w);
    }
  }

  /** ((n·C + c)·H + h)·W = n·(C·H·W) + c·(H·W) + h·W. */
  lemma PlanarStart(C: int, H: int, W: int, n: int, c: int, h: int)
    ensures ((n * C + c) * H + h) * W == n * (C * H * W) + c * (H * W) + h * W
  {
    assert ((n * C + c) * H + h) * W == (n * C + c) * H * W + h * W;
    assert (n * C + c) * H * W == n * C * H * W + c * H * W;
  }

  /** ((n·H + h)·W + w)·C = n·(C·H·W) + (h·W + w)·C. */
  lemma InterleavedStart(C: int, H: int, W: int, n: int, h: int, w: int)
    ensures ((n * H + h) * W + w) * C == n * (C * H * W) + (h * W + w) * C
  {
    assert ((n * H + h) * W + w) * C == (n * H * W + (h * W + w)) * C;
    assert (n * H * W + (h * W + w)) * C == n * H * W * C + (h * W + w) * C;
  }
}
